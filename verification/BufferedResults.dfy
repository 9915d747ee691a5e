/**
 A result set held in memory (core_results.cpp, sqlsrv_buffered_result_set): built once within a memory limit, then
 served by a scrolling cursor and by partial reads.
 */
module BufferedResults {
  import Wrappers
  import opened Bytes
  import opened Odbc
  import opened LobReading
  import opened RowLayout
  import opened RowFilling
  import opened PartialReads
  import opened Cursor

  const NO_FIELD := 65535
  const INT_MAX := 0x7FFF_FFFF

  datatype BuildResult = Built | LimitExceeded | DriverError

  // ---------- the memory limit over a whole result set ----------

  ghost predicate ResultPromised(meta: seq<Meta>, rows: seq<seq<Cell>>) {
    |rows| < INT_MAX && forall r :: 0 <= r < |rows| ==> RowPromised(meta, rows[r])
  }

  /** The memory in use after the first k rows. */
  function SpentOnRows(meta: seq<Meta>, rows: seq<seq<Cell>>, k: nat): nat
    requires k <= |rows| && forall r :: 0 <= r < |rows| ==> |rows[r]| == |meta|
  {
    if k == 0 then 0 else Spent(meta, rows[k - 1], |meta|, SpentOnRows(meta, rows, k - 1))
  }

  /** Every field of the first k rows is within the limit when its turn comes. */
  predicate RowsAffordable(meta: seq<Meta>, rows: seq<seq<Cell>>, k: nat, limit: nat)
    requires k <= |rows| && forall r :: 0 <= r < |rows| ==> |rows[r]| == |meta|
  {
    k > 0 ==>
      && RowsAffordable(meta, rows, k - 1, limit)
      && Affordable(meta, rows[k - 1], |meta|, SpentOnRows(meta, rows, k - 1), limit)
  }

  predicate RowsReadable(meta: seq<Meta>, rows: seq<seq<Cell>>)
    requires forall r :: 0 <= r < |rows| ==> |rows[r]| == |meta|
  {
    forall r :: 0 <= r < |rows| ==> AllReadable(meta, rows[r], |meta|)
  }

  lemma {:induction false} AffordableUpTo(meta: seq<Meta>, rows: seq<seq<Cell>>, j: nat, k: nat, limit: nat)
    requires j <= k <= |rows| && forall r :: 0 <= r < |rows| ==> |rows[r]| == |meta|
    requires RowsAffordable(meta, rows, k, limit)
    ensures RowsAffordable(meta, rows, j, limit)
  {
    if j < k {
      AffordableUpTo(meta, rows, j, k - 1, limit);
    }
  }

  lemma {:induction false} SpentAddsUp(meta: seq<Meta>, cells: seq<Cell>, k: nat, used: nat)
    requires k <= |meta| == |cells|
    ensures Spent(meta, cells, k, used) == used + Spent(meta, cells, k, 0)
  {
    hide Charge;
    if k > 0 {
      SpentAddsUp(meta, cells, k - 1, used);
    }
  }

  /** The memory in use grows by each row's own. */
  lemma RowsAddUp(meta: seq<Meta>, rows: seq<seq<Cell>>, k: nat)
    requires k < |rows| && forall r :: 0 <= r < |rows| ==> |rows[r]| == |meta|
    ensures SpentOnRows(meta, rows, k + 1) == SpentOnRows(meta, rows, k) + Spent(meta, rows[k], |meta|, 0)
  {
    SpentAddsUp(meta, rows[k], |meta|, SpentOnRows(meta, rows, k));
  }

  /** Without LOBs every row takes as much, which is the memory of its slots. */
  lemma {:induction false} RowsAreCharged(meta: seq<Meta>, rows: seq<seq<Cell>>, k: nat)
    requires k <= |rows| && forall r :: 0 <= r < |rows| ==> |rows[r]| == |meta|
    requires Packed(NullBytes(|meta|), meta) && forall i :: 0 <= i < |meta| ==> WellSized(meta[i]) && !meta[i].IsLob()
    ensures var slots := EndBefore(NullBytes(|meta|), meta, |meta|) - NullBytes(|meta|);
            SpentOnRows(meta, rows, k) <= k * slots <= SpentOnRows(meta, rows, k) + k * (7 * |meta|)
  {
    hide Spent, EndBefore, NullBytes, Packed, WellSized;
    if k > 0 {
      RowsAreCharged(meta, rows, k - 1);
      RowsAddUp(meta, rows, k - 1);
      RowIsCharged(meta, rows[k - 1], |meta|, 0);
      var slots := EndBefore(NullBytes(|meta|), meta, |meta|) - NullBytes(|meta|);
      OneMoreRow(k - 1, slots);
      OneMoreRow(k - 1, 7 * |meta|);
    }
  }

  lemma OneMoreRow(k: nat, n: int)
    ensures (k + 1) * n == k * n + n
  {
  }

  // ---------- the memory behind a column ----------

  predicate Has(row: CachedRow, m: Meta) {
    && m.End() <= |row.bytes|
    && (m.IsLob() ==> DecodeLength(row.bytes[m.offset..m.offset + POINTER_SIZE]) in row.blocks)
  }

  /** field_data with its length word: the slot, or the block its pointer leads to. */
  function FieldMemory(row: CachedRow, m: Meta): seq<byte>
    requires Has(row, m)
  {
    if m.IsLob() then row.blocks[DecodeLength(row.bytes[m.offset..m.offset + POINTER_SIZE])]
    else row.bytes[m.offset..m.End()]
  }

  lemma ShownInMemory(row: CachedRow, m: Meta, i: nat, c: Cell)
    requires Shows(row, m, i, c) && Promised(m, c)
    ensures i / 8 < |row.bytes| && NullBit(row.bytes, i) == c.isNull
    ensures !c.isNull ==> Has(row, m)
    ensures !c.isNull && !m.IsNative() ==> HoldsField(FieldMemory(row, m), Kept(m, c))
    ensures m.IsNative() ==> Kept(m, c) == c.data
    ensures !c.isNull && m.IsNative() ==> NativeSize(m.ctype) == |c.data| <= m.length
    ensures !c.isNull && m.IsNative() ==> FieldMemory(row, m)[..|c.data|] == c.data
  {
    hide HoldsField, DecodeLength, NullBit, KeptLength;
    if !c.isNull && m.IsNative() {
      assert row.bytes[m.offset..m.End()][..|c.data|] == row.bytes[m.offset..m.offset + |c.data|];
    }
  }

  /** Target types that need no character set: the field's own, binary, and hexadecimal text of binary data. */
  predicate Deliverable(ctype: CType, target: CType) {
    target == ctype || target.CBinary? || (ctype.CBinary? && target.IsString())
  }

  class BufferedResultSet {
    var meta: seq<Meta>
    var rowSize: nat
    var cache: Wrappers.Option<seq<CachedRow>>
    var current: int
    var lastFieldIndex: nat
    var readSoFar: nat
    ghost var rows: seq<seq<Cell>>

    ghost predicate Valid()
      reads this
    {
      && |meta| < MAX_COLUMNS
      && (cache.Some? ==>
            && |cache.value| == |rows| < INT_MAX && 0 <= current <= |rows| + 1
            && forall r :: 0 <= r < |rows| ==> RowPromised(meta, rows[r]) && RowShows(cache.value[r], meta, rows[r], |meta|))
      && (lastFieldIndex == NO_FIELD ==> readSoFar == 0)
      && (lastFieldIndex != NO_FIELD ==>
            cache.Some? && OnRow() && lastFieldIndex < |meta| && readSoFar <= |Field(lastFieldIndex).data|)
    }

    ghost predicate OnRow()
      reads this
    {
      cache.Some? && 1 <= current <= |rows| && |rows[current - 1]| == |meta|
    }

    /** What is kept of what the driver had in this field of the current row. */
    ghost function Field(i: nat): Cell
      requires OnRow() && i < |meta|
      reads this
    {
      rows[current - 1][i].(data := Kept(meta[i], rows[current - 1][i]))
    }

    /** How much of a field has been delivered on this row since another field was read. */
    ghost function Delivered(i: nat): nat
      reads this
    {
      if i == lastFieldIndex then readSoFar else 0
    }

    /** The layout half of the constructor. Without columns there is nothing to buffer. */
    constructor (columns: seq<Description>, utf8: bool)
      requires |columns| < MAX_COLUMNS
      ensures Valid() && cache == Wrappers.None && current == 0
      ensures |meta| == |columns| && Separate(meta, rowSize)
      ensures forall i :: 0 <= i < |meta| ==> SlotFor(meta[i], columns[i], utf8) && WellSized(meta[i])
    {
      var m, size := Layout(columns, utf8);
      meta, rowSize := m, size;
      cache, current, lastFieldIndex, readSoFar := Wrappers.None, 0, NO_FIELD, 0;
    }

    /** The filling half of the constructor. Going over the limit throws and leaves no cache. */
    method Fill(serverRows: seq<seq<Cell>>, limit: nat) returns (r: BuildResult, memUsed: nat)
      requires Valid() && cache == Wrappers.None && current == 0 && Separate(meta, rowSize)
      requires ResultPromised(meta, serverRows)
      modifies this
      ensures Valid() && meta == old(meta) && current == 0
      ensures r.Built? <==> cache.Some?
      ensures r.Built? ==> rows == serverRows && memUsed == SpentOnRows(meta, serverRows, |serverRows|) <= limit
      ensures r.Built? <==> RowsReadable(meta, serverRows) && RowsAffordable(meta, serverRows, |serverRows|, limit)
      ensures r.DriverError? ==> !RowsReadable(meta, serverRows)
      ensures r.LimitExceeded? ==> !RowsAffordable(meta, serverRows, |serverRows|, limit)
    {
      hide RowShows, Promised, Affordable, Spent, AllReadable;
      memUsed := 0;
      var filled: seq<CachedRow> := [];
      for k := 0 to |serverRows|
        invariant meta == old(meta) && forall r :: 0 <= r < |serverRows| ==> |serverRows[r]| == |meta|
        invariant |filled| == k && memUsed == SpentOnRows(meta, serverRows, k) && memUsed <= limit
        invariant RowsAffordable(meta, serverRows, k, limit)
        invariant forall r :: 0 <= r < k ==> AllReadable(meta, serverRows[r], |meta|)
        invariant forall r :: 0 <= r < k ==> RowShows(filled[r], meta, serverRows[r], |meta|)
        invariant Valid() && rowSize == old(rowSize) && cache == Wrappers.None && current == 0
      {
        var res, row;
        res, row, memUsed := FillRow(serverRows[k], meta, rowSize, memUsed, limit);
        if !res.Filled? {
          if RowsAffordable(meta, serverRows, |serverRows|, limit) {
            AffordableUpTo(meta, serverRows, k + 1, |serverRows|, limit);
          }
          r := if res.Failed? then DriverError else LimitExceeded;
          return;
        }
        filled := filled + [row];
      }
      r := Built;
      cache, rows := Wrappers.Some(filled), serverRows;
    }

    /** row_count */
    function RowCount(): (n: int)
      reads this
    {
      if cache.Some? then |cache.value| else -1
    }

    /** fetch: the position is the exact one, kept within one row of the result set. */
    method Fetch(orientation: Orientation, offset: int) returns (ok: bool)
      requires Valid() && IsLong(offset) && (cache.None? ==> current == 0)
      modifies this`current, this`lastFieldIndex, this`readSoFar
      ensures Valid() && lastFieldIndex == NO_FIELD
      ensures current == Clamp(Target(old(current), orientation, offset, RowCount()), RowCount())
      ensures ok <==> 1 <= current <= RowCount() || (cache.Some? && StaysBeforeFirst(old(current), orientation, offset))
    {
      hide RowShows, RowPromised, Wrap;
      lastFieldIndex, readSoFar := NO_FIELD, 0;
      var step, relative := offset, orientation.Relative?;
      if orientation.Next? {
        step, relative := 1, true;
      } else if orientation.Prior? {
        step, relative := -1, true;
      }
      if orientation.First? {
        current := 1;
      } else if orientation.Last? {
        current := RowCount();
      } else if orientation.Absolute? {
        current := step;
      } else {
        current := Wrap(current + step);
      }
      if current <= 0 && (step < 0 || !relative) {
        current := 0;
        return false;
      }
      if current > RowCount() || (current <= 0 && step > 0) {
        current := RowCount() + 1;
        return false;
      }
      return true;
    }

    /** What a read of a field delivers: partial pieces of a string, or a native value whole. */
    ghost function Delivery(field: nat, target: CType, capacity: int): (s: Served)
      requires Valid() && OnRow() && field < |meta| && !Field(field).isNull
      requires meta[field].IsNative() || TerminatorOf(meta[field].ctype, target) <= capacity
      reads this
    {
      var c := Field(field);
      if meta[field].IsNative() then Served(c.data, Success, |c.data|)
      else ServeUnits(c.data, Delivered(field), meta[field].ctype, target, capacity)
    }

    ghost function Terminator(field: nat, target: CType): nat
      requires field < |meta|
      reads this
    {
      if meta[field].IsNative() then 0 else TerminatorOf(meta[field].ctype, target)
    }

    /** get_data, into buffer[at..at + capacity]. */
    method GetData(field: nat, target: CType, buffer: array<byte>, at: nat, capacity: int) returns (r: SqlReturn, length: int)
      requires Valid() && OnRow() && field < |meta| && Deliverable(meta[field].ctype, target)
      requires meta[field].IsNative() ==> NativeSize(meta[field].ctype) <= capacity
      requires !Field(field).isNull && Terminator(field, target) <= capacity ==>
                 at + |Delivery(field, target, capacity).chunk| + Terminator(field, target) <= buffer.Length
      modifies this`lastFieldIndex, this`readSoFar, buffer
      ensures Valid() && lastFieldIndex == field
      ensures old(Field(field)).isNull ==> r == Success && length == SQL_NULL_DATA && buffer[..] == old(buffer[..])
      ensures !old(Field(field)).isNull && old(Terminator(field, target)) <= capacity ==>
                var s, end := old(Delivery(field, target, capacity)), at + old(Terminator(field, target));
                && r == s.r && length == s.length && buffer[at..at + |s.chunk|] == s.chunk
                && forall i :: 0 <= i < buffer.Length && !(at <= i < end + |s.chunk|) ==> buffer[i] == old(buffer[i])
      ensures !old(Field(field)).isNull && capacity < old(Terminator(field, target)) ==>
                && r == TooSmall(meta[field].ctype, target, at < buffer.Length)
                && forall i :: 0 <= i < buffer.Length && i != at ==> buffer[i] == old(buffer[i])
      ensures !old(Field(field)).isNull && !old(meta[field].IsNative()) ==>
                && length == Times(UnitOf(meta[field].ctype, target), |Field(field).data| - old(Delivered(field)))
                && readSoFar == old(Delivered(field))
                              + if capacity < old(Terminator(field, target)) then 0
                                else Delivers(Field(field).data, old(Delivered(field)), meta[field].ctype, target, capacity)
    {
      hide HoldsField, NullBit, Promised, Shows, ServeUnits, Delivers, Kept, TooSmall;
      var m, row := meta[field], cache.value[current - 1];
      ghost var c := Field(field);
      assert RowPromised(meta, rows[current - 1]) && RowShows(row, meta, rows[current - 1], |meta|);
      ShownInMemory(row, m, field, rows[current - 1][field]);
      if field != lastFieldIndex {
        lastFieldIndex, readSoFar := field, 0;
      }
      if NullBit(row.bytes, field) {
        return Success, SQL_NULL_DATA;
      }
      if m.IsNative() {
        r, length := ToNative(FieldMemory(row, m), m.ctype, buffer, at);
      } else {
        r, length, readSoFar := Deliver(FieldMemory(row, m), m.ctype, target, buffer, at, capacity, readSoFar, c.data);
      }
    }
  }

  /** to_long and to_double */
  method ToNative(slot: seq<byte>, ctype: CType, buffer: array<byte>, at: nat) returns (r: SqlReturn, length: int)
    requires NativeSize(ctype) <= |slot| && at + NativeSize(ctype) <= buffer.Length
    modifies buffer
    ensures r == Success && length == NativeSize(ctype) && buffer[at..at + NativeSize(ctype)] == slot[..NativeSize(ctype)]
    ensures forall i :: 0 <= i < buffer.Length && !(at <= i < at + NativeSize(ctype)) ==> buffer[i] == old(buffer[i])
  {
    forall i | 0 <= i < NativeSize(ctype) {
      buffer[at + i] := slot[i];
    }
    return Success, NativeSize(ctype);
  }
}
