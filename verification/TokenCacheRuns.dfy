/**
 The access token cache as a sequence of entries, and what it promises over whole runs (core_conn.cpp).
 */
module TokenCacheRuns {
  import opened Bytes

  const TOKEN_CACHE_TTL_FLOOR := 120

  /** An ACCESSTOKEN: where it was allocated, and its data. */
  datatype Token = Token(address: int, data: seq<byte>)

  datatype Row = Row(token: Token, raw: seq<byte>, lastUsed: int)

  /** UCS-2: every byte followed by a zero. */
  function Widened(raw: seq<byte>): (data: seq<byte>)
    ensures |data| == 2 * |raw|
    ensures forall i :: 0 <= i < |raw| ==> data[2 * i] == raw[i] && data[2 * i + 1] == 0
  {
    if raw == [] then [] else Widened(raw[..|raw| - 1]) + [raw[|raw| - 1], 0]
  }

  // ---------- the operations ----------

  /** What the clean-up leaves: entries that were used within the time to live. */
  function Unexpired(rows: seq<Row>, now: int, ttl: int): seq<Row> {
    if rows == [] then []
    else
      var rest := Unexpired(rows[..|rows| - 1], now, ttl);
      if now - rows[|rows| - 1].lastUsed > ttl then rest else rest + [rows[|rows| - 1]]
  }

  /** The first entry with these bytes, or |rows|. */
  function IndexOf(rows: seq<Row>, raw: seq<byte>, i: nat): (k: nat)
    requires i <= |rows|
    ensures i <= k <= |rows| && (k < |rows| ==> rows[k].raw == raw)
    ensures forall j :: i <= j < k ==> rows[j].raw != raw
    decreases |rows| - i
  {
    if i < |rows| && rows[i].raw != raw then IndexOf(rows, raw, i + 1) else i
  }

  function IndexOfToken(rows: seq<Row>, address: int, i: nat): (k: nat)
    requires i <= |rows|
    ensures i <= k <= |rows| && (k < |rows| ==> rows[k].token.address == address)
    ensures forall j :: i <= j < k ==> rows[j].token.address != address
    decreases |rows| - i
  {
    if i < |rows| && rows[i].token.address != address then IndexOfToken(rows, address, i + 1) else i
  }

  /** token_cache_get when memory can be had, at the given address for a new token. */
  function Got(rows: seq<Row>, ttl: int, raw: seq<byte>, cleanupTime: int, useTime: int, address: int): (seq<Row>, Token) {
    var live := Unexpired(rows, cleanupTime, ttl);
    var k := IndexOf(live, raw, 0);
    if k < |live| then (live[k := live[k].(lastUsed := useTime)], live[k].token)
    else
      var token := Token(address, Widened(raw));
      ([Row(token, raw, useTime)] + live, token)
  }

  /** token_cache_touch */
  function Touched(rows: seq<Row>, address: int, now: int): seq<Row> {
    var k := IndexOfToken(rows, address, 0);
    if k < |rows| then rows[k := rows[k].(lastUsed := now)] else rows
  }

  /** token_cache_init_ttl, with the times read for each driver; the product is 64-bit. */
  function TtlFor(maxTimeout: int): int {
    var ttl := if 2 * maxTimeout < MAX_LENGTH then 2 * maxTimeout else 2 * maxTimeout - 2 * MAX_LENGTH;
    if ttl < TOKEN_CACHE_TTL_FLOOR then TOKEN_CACHE_TTL_FLOOR else ttl
  }

  /** The time to live covers twice the pooling time-out exactly while doubling it does not wrap. */
  lemma TtlCoversPooling(maxTimeout: int)
    requires 0 <= maxTimeout < MAX_LENGTH
    ensures TtlFor(maxTimeout) >= TOKEN_CACHE_TTL_FLOOR
    ensures TtlFor(maxTimeout) >= 2 * maxTimeout <==> maxTimeout < MAX_LENGTH / 2
  {
  }

  /** It is the floor or twice the time-out, whichever is longer, and the floor when doubling wraps. */
  lemma TtlIsLonger(maxTimeout: int)
    requires 0 <= maxTimeout < MAX_LENGTH
    ensures TtlFor(maxTimeout) == if 60 <= maxTimeout < MAX_LENGTH / 2 then 2 * maxTimeout else 120
  {
  }

  // ---------- no two entries hold the same bytes ----------

  ghost predicate Consistent(rows: seq<Row>) {
    && (forall i :: 0 <= i < |rows| ==> rows[i].token.data == Widened(rows[i].raw))
    && (forall i, j :: 0 <= i < j < |rows| ==> rows[i].raw != rows[j].raw && rows[i].token.address != rows[j].token.address)
  }

  predicate Free(rows: seq<Row>, address: int) {
    forall i :: 0 <= i < |rows| ==> rows[i].token.address != address
  }

  /** malloc does not return memory that is in use when it is called, which is behind the clean-up. */
  predicate Allocates(rows: seq<Row>, ttl: int, raw: seq<byte>, cleanupTime: int, address: int) {
    var live := Unexpired(rows, cleanupTime, ttl);
    IndexOf(live, raw, 0) == |live| ==> Free(live, address)
  }

  /** What is left was there before, in the same order. */
  lemma {:induction false} UnexpiredAreRows(rows: seq<Row>, now: int, ttl: int)
    ensures |Unexpired(rows, now, ttl)| <= |rows|
    ensures forall row :: row in Unexpired(rows, now, ttl) <==> row in rows && now - row.lastUsed <= ttl
  {
    if rows != [] {
      var n := |rows| - 1;
      UnexpiredAreRows(rows[..n], now, ttl);
      assert rows == rows[..n] + [rows[n]];
    }
  }

  ghost predicate Apart(a: Row, b: Row) {
    a.raw != b.raw && a.token.address != b.token.address
  }

  lemma ConsistentAppend(rows: seq<Row>, last: Row)
    requires Consistent(rows) && last.token.data == Widened(last.raw) && forall row :: row in rows ==> Apart(row, last)
    ensures Consistent(rows + [last])
  {
    hide Widened;
    forall i, j | 0 <= i < j < |rows| + 1 ensures Apart((rows + [last])[i], (rows + [last])[j]) {
      if j == |rows| {
        assert rows[i] in rows;
      }
    }
  }

  lemma ConsistentFront(rows: seq<Row>)
    requires Consistent(rows) && rows != []
    ensures var n := |rows| - 1;
            Consistent(rows[..n]) && rows[n].token.data == Widened(rows[n].raw) && forall row :: row in rows[..n] ==> Apart(row, rows[n])
  {
    hide Widened;
  }

  lemma {:induction false} UnexpiredConsistent(rows: seq<Row>, now: int, ttl: int)
    requires Consistent(rows)
    ensures Consistent(Unexpired(rows, now, ttl))
  {
    hide Widened, Apart;
    if rows != [] {
      hide Consistent;
      var n := |rows| - 1;
      ConsistentFront(rows);
      UnexpiredConsistent(rows[..n], now, ttl);
      UnexpiredAreRows(rows[..n], now, ttl);
      if now - rows[n].lastUsed <= ttl {
        ConsistentAppend(Unexpired(rows[..n], now, ttl), rows[n]);
      }
    }
  }

  lemma GotConsistent(rows: seq<Row>, ttl: int, raw: seq<byte>, cleanupTime: int, useTime: int, address: int)
    requires Consistent(rows) && Allocates(rows, ttl, raw, cleanupTime, address)
    ensures Consistent(Got(rows, ttl, raw, cleanupTime, useTime, address).0)
    ensures Got(rows, ttl, raw, cleanupTime, useTime, address).1.data == Widened(raw)
  {
    hide Unexpired, Widened;
    UnexpiredConsistent(rows, cleanupTime, ttl);
  }

  /** What has been got is in the cache with the time of its use, and beside it what was there and used in time. */
  lemma GotIsCached(rows: seq<Row>, ttl: int, raw: seq<byte>, cleanupTime: int, useTime: int, address: int)
    requires Consistent(rows)
    ensures var (after, token) := Got(rows, ttl, raw, cleanupTime, useTime, address);
            && Row(token, raw, useTime) in after
            && forall row :: row in after ==>
                 row == Row(token, raw, useTime) || (row in rows && row.raw != raw && cleanupTime - row.lastUsed <= ttl)
  {
    hide Widened, Unexpired;
    UnexpiredAreRows(rows, cleanupTime, ttl);
    UnexpiredConsistent(rows, cleanupTime, ttl);
    var live := Unexpired(rows, cleanupTime, ttl);
    var k := IndexOf(live, raw, 0);
    var (after, token) := Got(rows, ttl, raw, cleanupTime, useTime, address);
    if k < |live| {
      assert after[k] == Row(token, raw, useTime);
      forall i | 0 <= i < |after| && i != k ensures after[i] in live && after[i].raw != raw {
        assert after[i] == live[i];
      }
    } else {
      assert after[0] == Row(token, raw, useTime);
      forall i | 0 < i < |after| ensures after[i] in live && after[i].raw != raw {
        assert after[i] == live[i - 1];
      }
    }
  }

  lemma TouchedConsistent(rows: seq<Row>, address: int, now: int)
    requires Consistent(rows)
    ensures Consistent(Touched(rows, address, now))
  {
    hide Widened;
  }

  // ---------- a token stays where it is while it is used ----------

  /** A get cleans up first, also when it then fails for want of memory. */
  datatype Event =
    | Get(raw: seq<byte>, cleanupTime: int, useTime: int, address: int)
    | GetFails(cleanupTime: int)
    | Touch(address: int, now: int)

  function Step(rows: seq<Row>, ttl: int, event: Event): seq<Row> {
    match event
    case Get(raw, cleanupTime, useTime, address) => Got(rows, ttl, raw, cleanupTime, useTime, address).0
    case GetFails(cleanupTime) => Unexpired(rows, cleanupTime, ttl)
    case Touch(address, now) => Touched(rows, address, now)
  }

  function Run(rows: seq<Row>, ttl: int, events: seq<Event>): seq<Row> {
    if events == [] then rows else Step(Run(rows, ttl, events[..|events| - 1]), ttl, events[|events| - 1])
  }

  /** New tokens are allocated in memory that is free at that time. */
  ghost predicate Allocated(rows: seq<Row>, ttl: int, events: seq<Event>) {
    forall k :: 0 <= k < |events| && events[k].Get? ==>
                  Allocates(Run(rows, ttl, events[..k]), ttl, events[k].raw, events[k].cleanupTime, events[k].address)
  }

  /** When the token was last used: got for its bytes, or touched. */
  function LastUse(row: Row, events: seq<Event>): int {
    if events == [] then row.lastUsed
    else match events[|events| - 1]
      case Get(raw, _, useTime, _) => if raw == row.raw then useTime else LastUse(row, events[..|events| - 1])
      case GetFails(_) => LastUse(row, events[..|events| - 1])
      case Touch(address, now) => if address == row.token.address then now else LastUse(row, events[..|events| - 1])
  }

  /** At every clean-up the token had been used within the time to live. */
  predicate InTime(row: Row, ttl: int, events: seq<Event>) {
    events == [] ||
    (var n := |events| - 1;
     && InTime(row, ttl, events[..n])
     && (!events[n].Touch? ==> events[n].cleanupTime - LastUse(row, events[..n]) <= ttl))
  }

  lemma {:induction false} RunConsistent(rows: seq<Row>, ttl: int, events: seq<Event>)
    requires Consistent(rows) && Allocated(rows, ttl, events)
    ensures Consistent(Run(rows, ttl, events))
  {
    hide Consistent, Allocates, Got, Touched, Unexpired;
    if events != [] {
      var n := |events| - 1;
      AllocatedBefore(rows, ttl, events);
      RunConsistent(rows, ttl, events[..n]);
      var before := Run(rows, ttl, events[..n]);
      match events[n]
      case Get(raw, cleanupTime, useTime, address) => GotConsistent(before, ttl, raw, cleanupTime, useTime, address);
      case GetFails(cleanupTime) => UnexpiredConsistent(before, cleanupTime, ttl);
      case Touch(address, now) => TouchedConsistent(before, address, now);
    }
  }

  lemma AllocatedBefore(rows: seq<Row>, ttl: int, events: seq<Event>)
    requires events != [] && Allocated(rows, ttl, events)
    ensures Allocated(rows, ttl, events[..|events| - 1])
    ensures var last := events[|events| - 1];
            last.Get? ==> Allocates(Run(rows, ttl, events[..|events| - 1]), ttl, last.raw, last.cleanupTime, last.address)
  {
    hide Allocates, Run;
    var front := events[..|events| - 1];
    forall k | 0 <= k < |front| && front[k].Get?
      ensures Allocates(Run(rows, ttl, front[..k]), ttl, front[k].raw, front[k].cleanupTime, front[k].address)
    {
      assert front[..k] == events[..k] && front[k] == events[k];
    }
  }

  lemma GotKeeps(rows: seq<Row>, ttl: int, raw: seq<byte>, cleanupTime: int, useTime: int, address: int, row: Row)
    requires Consistent(rows) && row in rows && cleanupTime - row.lastUsed <= ttl
    ensures (if raw == row.raw then row.(lastUsed := useTime) else row) in Got(rows, ttl, raw, cleanupTime, useTime, address).0
  {
    hide Widened, Unexpired;
    UnexpiredAreRows(rows, cleanupTime, ttl);
    UnexpiredConsistent(rows, cleanupTime, ttl);
    var live := Unexpired(rows, cleanupTime, ttl);
    var after := Got(rows, ttl, raw, cleanupTime, useTime, address).0;
    var i :| 0 <= i < |live| && live[i] == row;
    var k := IndexOf(live, raw, 0);
    if k == |live| {
      assert after[i + 1] == row;
    } else if k == i {
      assert after[i] == row.(lastUsed := useTime);
    } else {
      assert after[i] == row && live[i].raw != live[k].raw;
    }
  }

  lemma TouchKeeps(rows: seq<Row>, address: int, now: int, row: Row)
    requires Consistent(rows) && row in rows
    ensures (if address == row.token.address then row.(lastUsed := now) else row) in Touched(rows, address, now)
  {
    hide Widened;
    var i :| 0 <= i < |rows| && rows[i] == row;
    assert Touched(rows, address, now)[i] == if address == row.token.address then row.(lastUsed := now) else row;
  }

  /** A row that a step keeps, with the time of its last use. */
  lemma StepKeeps(rows: seq<Row>, ttl: int, event: Event, row: Row)
    requires Consistent(rows) && row in rows && (!event.Touch? ==> event.cleanupTime - row.lastUsed <= ttl)
    ensures row.(lastUsed := LastUse(row, [event])) in Step(rows, ttl, event)
  {
    hide Consistent, Got, Touched, Unexpired;
    assert [event][..0] == [];
    match event
    case Get(raw, cleanupTime, useTime, address) => GotKeeps(rows, ttl, raw, cleanupTime, useTime, address, row);
    case GetFails(cleanupTime) => UnexpiredAreRows(rows, cleanupTime, ttl);
    case Touch(address, now) => TouchKeeps(rows, address, now, row);
  }

  /** The promise: a token that has been used in time at every clean-up is still there, with its time of last use, and
      getting its bytes again in time returns the same token at the same place. */
  lemma {:induction false} TokenStays(rows: seq<Row>, ttl: int, events: seq<Event>, row: Row)
    requires Consistent(rows) && Allocated(rows, ttl, events) && row in rows && InTime(row, ttl, events)
    ensures row.(lastUsed := LastUse(row, events)) in Run(rows, ttl, events)
  {
    hide Consistent, Allocates, Step;
    if events != [] {
      var n := |events| - 1;
      AllocatedBefore(rows, ttl, events);
      TokenStays(rows, ttl, events[..n], row);
      RunConsistent(rows, ttl, events[..n]);
      var before := row.(lastUsed := LastUse(row, events[..n]));
      StepKeeps(Run(rows, ttl, events[..n]), ttl, events[n], before);
      assert [events[n]][..0] == [];
    }
  }

  lemma SameTokenAgain(rows: seq<Row>, ttl: int, row: Row, cleanupTime: int, useTime: int, address: int)
    requires Consistent(rows) && row in rows
    ensures Got(rows, ttl, row.raw, cleanupTime, useTime, address).1 == row.token
       <==> cleanupTime - row.lastUsed <= ttl || address == row.token.address
  {
    hide Widened, Unexpired;
    UnexpiredAreRows(rows, cleanupTime, ttl);
    UnexpiredConsistent(rows, cleanupTime, ttl);
    var live := Unexpired(rows, cleanupTime, ttl);
    var i :| 0 <= i < |rows| && rows[i] == row;
    if row in live {
      var j :| 0 <= j < |live| && live[j] == row;
    } else {
      forall k | 0 <= k < |live| ensures live[k].raw != row.raw {
        assert live[k] in rows;
      }
    }
  }

  /** And exactly so: at the first clean-up that comes too late the token is gone, and its memory is in use again only
      if the new token was allocated there. */
  lemma LateTokenIsFreed(rows: seq<Row>, ttl: int, row: Row, raw: seq<byte>, cleanupTime: int, useTime: int, address: int)
    requires Consistent(rows) && row in rows && cleanupTime - row.lastUsed > ttl
    ensures var live := Unexpired(rows, cleanupTime, ttl);
            && Free(live, row.token.address)
            && (Free(Got(rows, ttl, raw, cleanupTime, useTime, address).0, row.token.address) <==>
                  IndexOf(live, raw, 0) < |live| || address != row.token.address)
  {
    hide Widened, Unexpired;
    UnexpiredAreRows(rows, cleanupTime, ttl);
    var live := Unexpired(rows, cleanupTime, ttl);
    var i :| 0 <= i < |rows| && rows[i] == row;
    forall k | 0 <= k < |live| ensures live[k].token.address != row.token.address {
      assert live[k] in rows;
    }
    var after := Got(rows, ttl, raw, cleanupTime, useTime, address).0;
    if IndexOf(live, raw, 0) == |live| {
      assert after[0].token.address == address;
      assert forall k :: 0 < k < |after| ==> after[k] == live[k - 1];
    }
  }

  /** A get may reuse the memory that its own clean-up has just freed. */
  lemma FreedMemoryIsReused(row: Row, raw: seq<byte>, ttl: int, now: int)
    requires row.token.data == Widened(row.raw) && row.raw != raw && now - row.lastUsed > ttl
    ensures var get := Get(raw, now, now, row.token.address);
            && Consistent([row]) && !Free([row], row.token.address) && Allocated([row], ttl, [get])
            && Run([row], ttl, [get]) == [Row(Token(row.token.address, Widened(raw)), raw, now)]
  {
    hide Widened;
    var get := Get(raw, now, now, row.token.address);
    assert [row][..0] == [] && [get][..0] == [];
    assert Unexpired([row], now, ttl) == [];
  }
}
