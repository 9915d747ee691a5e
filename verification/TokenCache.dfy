/**
 The access token cache as the linked list it is (core_conn.cpp): entries are unlinked, found and stamped in place.
 */
module TokenCache {
  import opened Wrappers
  import opened Bytes
  import opened TokenCacheRuns

  const FNV_OFFSET: bv64 := 14695981039346656037
  const FNV_PRIME: bv64 := 1099511628211

  /** One byte into the hash, modulo 2 to the power of 64. */
  function Mix(h: bv64, b: byte): bv64 {
    (h ^ (b as bv64)) * FNV_PRIME
  }

  function Fnv(data: seq<byte>): bv64 {
    if data == [] then FNV_OFFSET else Mix(Fnv(data[..|data| - 1]), data[|data| - 1])
  }

  lemma MixOfA()
    ensures Mix(FNV_OFFSET, 97) == 0xAF63_DC4C_8601_EC8C
  {
    assert (97 as byte) as bv64 == 97;
  }

  /** The hash of one character, as published for FNV-1a. */
  lemma HashOfA()
    ensures Fnv([97]) == 0xAF63_DC4C_8601_EC8C
  {
    var data: seq<byte> := [97];
    assert data[..0] == [] && Fnv([]) == FNV_OFFSET;
    MixOfA();
    hide Mix;
  }

  /** core_sqlsrv_hash_fnv1a_64 */
  method HashFnv1a64(data: seq<byte>) returns (h: bv64)
    ensures h == Fnv(data)
  {
    hide Mix;
    h := FNV_OFFSET;
    for i := 0 to |data|
      invariant h == Fnv(data[..i])
    {
      assert data[..i + 1][..i] == data[..i];
      h := Mix(h, data[i]);
    }
    assert data[..|data|] == data;
  }

  class Entry {
    const token: Token
    const rawContent: seq<byte>
    const hash: bv64
    var lastUsed: int
    var next: Entry?

    constructor (token: Token, rawContent: seq<byte>, hash: bv64, lastUsed: int, next: Entry?)
      ensures this.token == token && this.rawContent == rawContent && this.hash == hash
      ensures this.lastUsed == lastUsed && this.next == next
    {
      this.token, this.rawContent, this.hash, this.lastUsed, this.next := token, rawContent, hash, lastUsed, next;
    }

    ghost function AsRow(): Row
      reads this`lastUsed
    {
      Row(token, rawContent, lastUsed)
    }
  }

  ghost function Nth(spine: seq<Entry>, i: int): Entry? {
    if 0 <= i < |spine| then spine[i] else null
  }

  /** Each entry links to the one behind it. */
  ghost predicate Linked(head: Entry?, spine: seq<Entry>)
    reads spine`next
  {
    && head == Nth(spine, 0)
    && forall i :: 0 <= i < |spine| ==> spine[i].next == Nth(spine, i + 1)
  }

  /** The entries belong to the list's memory and carry the hash of their bytes. */
  ghost predicate Owned(spine: seq<Entry>, repr: set<Entry>) {
    forall e :: e in spine ==> e in repr && e.hash == Fnv(e.rawContent)
  }

  ghost function AsRows(spine: seq<Entry>): (rows: seq<Row>)
    reads spine`lastUsed
    ensures |rows| == |spine|
  {
    if spine == [] then [] else AsRows(spine[..|spine| - 1]) + [spine[|spine| - 1].AsRow()]
  }

  lemma {:induction false} RowAt(spine: seq<Entry>, i: nat)
    requires i < |spine|
    ensures AsRows(spine)[i] == spine[i].AsRow()
  {
    if i < |spine| - 1 {
      RowAt(spine[..|spine| - 1], i);
    }
  }

  class Cache {
    var head: Entry?
    var ttl: int
    ghost var spine: seq<Entry>
    ghost var repr: set<Entry>

    constructor ()
      ensures Valid() && Rows() == [] && ttl == TOKEN_CACHE_TTL_FLOOR && fresh(repr)
    {
      head, ttl, spine, repr := null, TOKEN_CACHE_TTL_FLOOR, [], {};
    }

    ghost predicate Valid()
      reads this, repr, spine
    {
      Owned(spine, repr) && Linked(head, spine)
    }

    ghost function Rows(): seq<Row>
      requires Valid()
      reads this, repr
    {
      AsRows(spine)
    }

    /** token_cache_init_ttl, from the time-outs configured for the drivers */
    method InitTtl(timeouts: seq<int>)
      requires forall i :: 0 <= i < |timeouts| ==> -MAX_LENGTH <= timeouts[i] < MAX_LENGTH
      modifies this`ttl
      ensures exists max :: (max == 0 || max in timeouts) && 0 <= max < MAX_LENGTH && (forall t :: t in timeouts ==> t <= max)
                            && ttl == TtlFor(max)
    {
      var max := 0;
      for i := 0 to |timeouts|
        invariant (max == 0 || max in timeouts) && 0 <= max < MAX_LENGTH
        invariant forall k :: 0 <= k < i ==> timeouts[k] <= max
      {
        if timeouts[i] > max {
          max := timeouts[i];
        }
      }
      ttl := if max * 2 < MAX_LENGTH then max * 2 else max * 2 - 2 * MAX_LENGTH;
      if ttl < TOKEN_CACHE_TTL_FLOOR {
        ttl := TOKEN_CACHE_TTL_FLOOR;
      }
      assert ttl == TtlFor(max);
    }

    /** Taking entry i out of the list; prev is the entry before it. */
    method Unlink(ghost i: nat, prev: Entry?, expired: Entry)
      requires Linked(head, spine) && i < |spine| && expired == spine[i] && prev == Nth(spine, i - 1)
      modifies this`head, this`spine, (if prev == null then {} else {prev})`next
      ensures Linked(head, spine) && spine == old(spine[..i] + spine[i + 1..])
    {
      ghost var was := spine;
      if i > 0 {
        OthersApart(head, spine, i - 1);
      }
      if prev == null {
        head := expired.next;
      } else {
        prev.next := expired.next;
      }
      LinkedAround(head, was, i);
      spine := was[..i] + was[i + 1..];
    }

    /** token_cache_cleanup_expired */
    method CleanupExpired(now: int)
      requires Valid()
      modifies this`head, this`spine, repr`next
      ensures Valid() && Rows() == Unexpired(old(Rows()), now, ttl)
    {
      hide Fnv, Owned, Linked, AsRows, Unexpired;
      ghost var before := spine;
      ghost var k, i := 0, 0;
      var prev: Entry? := null;
      var e := head;
      assert before[..0] == [];
      NoRows(now, ttl);
      FirstEntry(head, spine);
      while e != null
        invariant Valid() && 0 <= i <= |spine| && i <= k && k <= |before| && spine[i..] == before[k..]
        invariant e == Nth(spine, i) && prev == Nth(spine, i - 1)
        invariant AsRows(spine[..i]) == Unexpired(AsRows(before[..k]), now, ttl)
        decreases |before| - k
      {
        assert before[k..][0] == before[k] == e;
        RowsAppend(before, k);
        RowsAppend(spine, i);
        UnexpiredAppend(AsRows(before[..k]), e.AsRow(), now, ttl);
        NextEntry(head, spine, i);
        ghost var front, rest := spine[..i], spine[i + 1..];
        assert rest == spine[i..][1..] == before[k + 1..];
        if now - e.lastUsed > ttl {
          var expired := e;
          e := e.next;
          OwnedPart(spine, repr, i);
          if i > 0 {
            OwnedAt(spine, repr, i - 1);
          }
          Unlink(i, prev, expired);
          assert spine[..i] == front && spine[i..] == rest;
        } else {
          prev := e;
          e := e.next;
          i := i + 1;
        }
        k := k + 1;
      }
      assert before[..k] == before && spine[..i] == spine;
    }

    /** Entry k is stamped with the time. */
    method Stamp(ghost k: nat, e: Entry, now: int)
      requires Valid() && k < |spine| && e == spine[k]
      modifies e`lastUsed
      ensures Valid() && Rows() == old(Rows()[k := Rows()[k].(lastUsed := now)])
    {
      hide Fnv, Owned, AsRows;
      ghost var rows := AsRows(spine);
      RowsAreEntries(spine);
      e.lastUsed := now;
      RowsAreEntries(spine);
      OthersApart(head, spine, k);
      assert AsRows(spine) == rows[k := rows[k].(lastUsed := now)];
    }

    /** A new entry at the head of the list. */
    method Push(token: Token, raw: seq<byte>, hash: bv64, now: int)
      requires Valid() && hash == Fnv(raw)
      modifies this`head, this`spine, this`repr
      ensures Valid() && Rows() == [Row(token, raw, now)] + old(Rows()) && fresh(repr - old(repr)) && repr >= old(repr)
    {
      hide Fnv, AsRows, Owned, Linked;
      ghost var was := spine;
      var entry := new Entry(token, raw, hash, now, head);
      head := entry;
      spine, repr := [entry] + was, repr + {entry};
      OwnedMore(entry, was, old(repr));
      LinkedInFront(entry, was);
      RowsInFront(entry, was);
    }

    /** token_cache_get; available: how many of its allocations succeed, the token's at the given address. */
    method Get(raw: seq<byte>, cleanupTime: int, useTime: int, address: int, available: nat) returns (token: Option<Token>)
      requires Valid()
      modifies this`head, this`spine, this`repr, repr
      ensures Valid() && fresh(repr - old(repr))
      ensures token.Some? ==> (Rows(), token.value) == Got(old(Rows()), ttl, raw, cleanupTime, useTime, address)
      ensures token.None? ==> available < 3 && Rows() == Unexpired(old(Rows()), cleanupTime, ttl)
      ensures available >= 3 ==> token.Some?
    {
      hide Fnv, Owned, Linked, AsRows, Widened, Unexpired;
      CleanupExpired(cleanupTime);
      var h := HashFnv1a64(raw);
      ghost var rows := Rows();
      ghost var k := 0;
      var e := head;
      FirstEntry(head, spine);
      RowsAreEntries(spine);
      while e != null
        invariant Valid() && Rows() == rows && repr == old(repr) && ttl == old(ttl)
        invariant |rows| == |spine| && forall i :: 0 <= i < |spine| ==> rows[i] == spine[i].AsRow()
        invariant 0 <= k <= |spine| && e == Nth(spine, k)
        invariant IndexOf(rows, raw, 0) == IndexOf(rows, raw, k)
        decreases |spine| - k
      {
        OwnedAt(spine, repr, k);
        if e.hash == h && |e.rawContent| == |raw| && e.rawContent == raw {
          Stamp(k, e, useTime);
          return Some(e.token);
        }
        NextEntry(head, spine, k);
        e := e.next;
        k := k + 1;
      }
      if available < 3 {
        return None;
      }
      var data := Widen(raw);
      Push(Token(address, data), raw, h, useTime);
      return Some(Token(address, data));
    }

    /** token_cache_touch */
    method Touch(address: int, now: int)
      requires Valid()
      modifies repr`lastUsed
      ensures Valid() && Rows() == Touched(old(Rows()), address, now)
    {
      hide Fnv, Owned, Linked, AsRows;
      ghost var rows := Rows();
      ghost var k := 0;
      var e := head;
      FirstEntry(head, spine);
      RowsAreEntries(spine);
      while e != null
        invariant Valid() && Rows() == rows && repr == old(repr)
        invariant |rows| == |spine| && forall i :: 0 <= i < |spine| ==> rows[i] == spine[i].AsRow()
        invariant 0 <= k <= |spine| && e == Nth(spine, k)
        invariant IndexOfToken(rows, address, 0) == IndexOfToken(rows, address, k)
        decreases |spine| - k
      {
        if e.token.address == address {
          OwnedAt(spine, repr, k);
          Stamp(k, e, now);
          return;
        }
        NextEntry(head, spine, k);
        e := e.next;
        k := k + 1;
      }
    }
  }

  /** The loop that widens a token to two bytes a character. */
  method Widen(raw: seq<byte>) returns (data: seq<byte>)
    ensures data == Widened(raw)
  {
    var block := new byte[2 * |raw|](_ => 0);
    for i := 0 to |raw|
      invariant forall j :: 0 <= j < i ==> block[2 * j] == raw[j] && block[2 * j + 1] == 0
    {
      block[2 * i] := raw[i];
      block[2 * i + 1] := 0;
    }
    data := block[..];
    forall j | 0 <= j < |data| ensures data[j] == Widened(raw)[j] {
      assert j == 2 * (j / 2) || j == 2 * (j / 2) + 1;
    }
  }

  lemma RowsAreEntries(spine: seq<Entry>)
    ensures |AsRows(spine)| == |spine| && forall i :: 0 <= i < |spine| ==> AsRows(spine)[i] == spine[i].AsRow()
  {
    forall i | 0 <= i < |spine| ensures AsRows(spine)[i] == spine[i].AsRow() {
      RowAt(spine, i);
    }
  }

  lemma NoRows(now: int, ttl: int)
    ensures AsRows([]) == [] && Unexpired([], now, ttl) == []
  {
  }

  lemma OwnedMore(entry: Entry, spine: seq<Entry>, repr: set<Entry>)
    requires Owned(spine, repr) && entry.hash == Fnv(entry.rawContent)
    ensures Owned([entry] + spine, repr + {entry})
  {
    hide Fnv;
  }

  lemma OwnedPart(spine: seq<Entry>, repr: set<Entry>, i: nat)
    requires i < |spine| && Owned(spine, repr)
    ensures Owned(spine[..i] + spine[i + 1..], repr)
  {
    hide Fnv;
  }

  lemma OwnedAt(spine: seq<Entry>, repr: set<Entry>, i: nat)
    requires i < |spine| && Owned(spine, repr)
    ensures spine[i] in repr && spine[i].hash == Fnv(spine[i].rawContent)
  {
    hide Fnv;
  }

  lemma RowsAppend(spine: seq<Entry>, i: nat)
    requires i < |spine|
    ensures AsRows(spine[..i + 1]) == AsRows(spine[..i]) + [spine[i].AsRow()]
  {
    assert spine[..i + 1][..i] == spine[..i];
  }

  lemma RowsInFront(entry: Entry, spine: seq<Entry>)
    ensures AsRows([entry] + spine) == [entry.AsRow()] + AsRows(spine)
  {
    RowsAreEntries(spine);
    RowsAreEntries([entry] + spine);
  }

  lemma UnexpiredAppend(rows: seq<Row>, row: Row, now: int, ttl: int)
    ensures Unexpired(rows + [row], now, ttl)
         == if now - row.lastUsed > ttl then Unexpired(rows, now, ttl) else Unexpired(rows, now, ttl) + [row]
  {
    assert (rows + [row])[..|rows|] == rows;
  }

  lemma FirstEntry(head: Entry?, spine: seq<Entry>)
    requires Linked(head, spine)
    ensures head == Nth(spine, 0)
  {
  }

  lemma LinkedInFront(entry: Entry, spine: seq<Entry>)
    requires Linked(entry.next, spine)
    ensures Linked(entry, [entry] + spine)
  {
    var longer := [entry] + spine;
    forall j | 0 <= j < |longer| ensures longer[j].next == Nth(longer, j + 1) {
      assert j > 0 ==> longer[j] == spine[j - 1];
    }
  }

  lemma LinkedAround(head: Entry?, spine: seq<Entry>, i: nat)
    requires i < |spine| && head == (if i == 0 then Nth(spine, 1) else Nth(spine, 0))
    requires forall j :: 0 <= j < |spine| ==> spine[j].next == Nth(spine, if j == i - 1 then j + 2 else j + 1)
    ensures Linked(head, spine[..i] + spine[i + 1..])
  {
    var rest := spine[..i] + spine[i + 1..];
    forall j | 0 <= j < |rest| ensures rest[j].next == Nth(rest, j + 1) {
      assert rest[j] == spine[if j < i then j else j + 1];
    }
  }

  lemma NextEntry(head: Entry?, spine: seq<Entry>, i: nat)
    requires Linked(head, spine) && i < |spine|
    ensures spine[i].next == Nth(spine, i + 1)
  {
  }

  /** A list that ends has no entry twice. */
  lemma {:induction false} NoEntryTwice(head: Entry?, spine: seq<Entry>, i: nat, j: nat)
    requires Linked(head, spine) && i < j < |spine|
    ensures spine[i] != spine[j]
    decreases |spine| - j
  {
    if spine[i] == spine[j] {
      NextEntry(head, spine, i);
      NextEntry(head, spine, j);
      if j + 1 < |spine| {
        NoEntryTwice(head, spine, i + 1, j + 1);
      }
    }
  }

  lemma OthersApart(head: Entry?, spine: seq<Entry>, i: nat)
    requires Linked(head, spine) && i < |spine|
    ensures forall j :: 0 <= j < |spine| && spine[j] == spine[i] ==> j == i
  {
    forall j | 0 <= j < |spine| && spine[j] == spine[i] ensures j == i {
      if j < i {
        NoEntryTwice(head, spine, j, i);
      } else if i < j {
        NoEntryTwice(head, spine, i, j);
      }
    }
  }
}
