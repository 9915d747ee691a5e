/**
 Copying a row of the result set into the cache (core_results.cpp, second half of the buffered result set's
 constructor): every field into its slot, LOBs into blocks of their own, within the memory limit.
 */
module RowFilling {
  import opened Bytes
  import opened Odbc
  import opened LobReading
  import opened RowLayout

  /** A field of the current row as the driver has it. */
  datatype Cell = Cell(isNull: bool, data: seq<byte>, reports: seq<bool>)

  /** A row in the cache. The address of a LOB's block is its key in blocks. */
  datatype CachedRow = CachedRow(bytes: seq<byte>, blocks: map<int, seq<byte>>)

  datatype FillResult = Filled | Refused | Failed

  function NativeSize(ctype: CType): nat {
    if ctype.CLong? then 4 else 8
  }

  /** What the driver promises of a field: it has the size of its type or fits the declared size. */
  predicate Promised(m: Meta, c: Cell) {
    && WellSized(m) && |c.data| < MAX_LENGTH
    && (!c.isNull ==>
          && (m.IsNative() ==> |c.data| == NativeSize(m.ctype))
          && (!m.IsNative() && !m.IsLob() ==> WORD_SIZE + |c.data| + m.ctype.Extra() <= m.length))
  }

  /** The driver keeps to the size it described. */
  predicate WithinDescription(d: Description, ctype: CType, c: Cell) {
    && |c.data| < MAX_LENGTH
    && (!c.isNull && !Unbounded(d) ==>
          if ctype.IsString() then |c.data| <= LongestValue(d, ctype) else |c.data| == LongestValue(d, ctype))
  }

  lemma DescribedIsPromised(d: Description, utf8: bool, m: Meta, c: Cell)
    requires SlotFor(m, d, utf8) && WithinDescription(d, CTypeOf(d.kind, utf8), c)
    ensures Promised(m, c)
  {
    SlotsAreWellSized(m, d, utf8);
    LongestValueFits(d, utf8);
    KindsAreKept(d.kind, utf8);
  }

  /** What the cache keeps of a field: all of it, unless the total of a LOB is named late. */
  function Kept(m: Meta, c: Cell): seq<byte> {
    if m.IsLob() then c.data[..KeptLength(|c.data|, c.reports)] else c.data
  }

  /** The driver gets through the field. */
  predicate Readable(m: Meta, c: Cell) {
    m.IsLob() && !c.isNull ==> CanBeRead(|c.data|, c.reports)
  }

  /** The slot, or the block it points to, holds the field. */
  predicate Stored(row: CachedRow, m: Meta, data: seq<byte>) {
    && m.End() <= |row.bytes|
    && if m.IsNative() then |data| <= m.length && row.bytes[m.offset..m.offset + |data|] == data
       else if m.IsLob() then
         var address := DecodeLength(row.bytes[m.offset..m.offset + POINTER_SIZE]);
         address in row.blocks && HoldsField(row.blocks[address], data)
       else HoldsField(row.bytes[m.offset..m.End()], data)
  }

  /** Column i of the row reads as what is kept of the field. */
  predicate Shows(row: CachedRow, m: Meta, i: nat, c: Cell) {
    && i / 8 < |row.bytes| && NullBit(row.bytes, i) == c.isNull
    && (!c.isNull ==> Stored(row, m, Kept(m, c)))
  }

  // ---------- memory ----------

  /** What a field adds to the memory in use. */
  function Charge(m: Meta, c: Cell): nat {
    if !m.IsLob() then m.length else if c.isNull then 0 else |Kept(m, c)|
  }

  /** What is checked against the limit on top of the memory in use; nothing is checked for a NULL LOB. */
  function Needed(m: Meta, c: Cell): nat {
    if !m.IsLob() then m.length else if c.isNull then 0 else Demand(|c.data|, c.reports)
  }

  predicate Checked(m: Meta, c: Cell) {
    !m.IsLob() || !c.isNull
  }

  /** The memory in use after the first k fields of a row. */
  function Spent(meta: seq<Meta>, cells: seq<Cell>, k: nat, used: nat): (total: nat)
    requires k <= |meta| == |cells|
    ensures total >= used
  {
    if k == 0 then used else Spent(meta, cells, k - 1, used) + Charge(meta[k - 1], cells[k - 1])
  }

  /** A row without LOBs is charged what its slots take in the row. */
  lemma {:induction false} RowIsCharged(meta: seq<Meta>, cells: seq<Cell>, k: nat, used: nat)
    requires k <= |meta| == |cells| && Packed(NullBytes(|meta|), meta)
    requires forall i :: 0 <= i < |meta| ==> WellSized(meta[i]) && !meta[i].IsLob()
    ensures var row, charged := EndBefore(NullBytes(|meta|), meta, k) - NullBytes(|meta|), Spent(meta, cells, k, used) - used;
            charged <= row <= charged + 7 * k
  {
    hide AlignTo, NullBytes;
    if k > 0 {
      RowIsCharged(meta, cells, k - 1, used);
      assert AtNextPlace(NullBytes(|meta|), meta, k - 1);
    }
  }

  /** A LOB that is read whole is charged its length, and needs less than twice its length within the limit. */
  lemma LobIsCharged(m: Meta, c: Cell)
    requires m.IsLob() && !c.isNull && !LateTotal(|c.data|, c.reports)
    ensures Charge(m, c) == |c.data| <= Needed(m, c) && (c.data != [] ==> Needed(m, c) < 2 * |c.data|)
    ensures |c.data| <= 2048 || (c.reports != [] && c.reports[0]) ==> Needed(m, c) == |c.data|
  {
    if |c.data| > INITIAL_LOB_FIELD_LEN {
      DoubledWithin(INITIAL_LOB_FIELD_LEN, |c.data|);
    }
  }

  lemma {:induction false} DoubledWithin(capacity: nat, n: nat)
    requires 0 < capacity < n
    ensures n <= DoubledTo(capacity, n) < 2 * n
    decreases n - capacity
  {
    if 2 * capacity < n {
      DoubledWithin(2 * capacity, n);
    }
  }

  /** Every one of the first k fields is within the limit when its turn comes. */
  predicate Affordable(meta: seq<Meta>, cells: seq<Cell>, k: nat, used: nat, limit: nat)
    requires k <= |meta| == |cells|
  {
    k > 0 ==>
      && Affordable(meta, cells, k - 1, used, limit)
      && (Checked(meta[k - 1], cells[k - 1]) ==>
            Spent(meta, cells, k - 1, used) + Needed(meta[k - 1], cells[k - 1]) <= limit)
  }

  lemma {:induction false} AffordableSoFar(meta: seq<Meta>, cells: seq<Cell>, j: nat, k: nat, used: nat, limit: nat)
    requires j <= k <= |meta| == |cells| && Affordable(meta, cells, k, used, limit)
    ensures Affordable(meta, cells, j, used, limit)
  {
    if j < k {
      AffordableSoFar(meta, cells, j, k - 1, used, limit);
    }
  }

  // ---------- one field ----------

  /** Writing elsewhere in the row, or adding a block, keeps a column. */
  lemma ShowsKept(before: CachedRow, after: CachedRow, m: Meta, i: nat, c: Cell)
    requires Shows(before, m, i, c) && |after.bytes| == |before.bytes|
    requires NullBit(after.bytes, i) == NullBit(before.bytes, i)
    requires forall k :: m.offset <= k < m.End() && k < |before.bytes| ==> after.bytes[k] == before.bytes[k]
    requires forall a :: a in before.blocks ==> a in after.blocks && after.blocks[a] == before.blocks[a]
    ensures Shows(after, m, i, c)
  {
    hide HoldsField, DecodeLength, NullBit, Kept;
    if !c.isNull {
      assert after.bytes[m.offset..m.End()] == before.bytes[m.offset..m.End()];
      if m.IsNative() {
        assert after.bytes[m.offset..m.offset + |Kept(m, c)|] == before.bytes[m.offset..m.offset + |Kept(m, c)|];
      }
    }
  }

  /** The row outside the slot and the bitmap. */
  twostate predicate OnlySlot(row: array<byte>, m: Meta)
    reads row
  {
    forall k :: 0 <= k < row.Length && !(m.offset <= k < m.End()) ==> row[k] == old(row[k])
  }

  /** A field of native size goes into its slot as it is. */
  method FillNative(c: Cell, m: Meta, row: array<byte>) returns (length: int)
    requires Promised(m, c) && m.IsNative() && m.End() <= row.Length
    modifies row
    ensures OnlySlot(row, m)
    ensures (length == SQL_NULL_DATA) == c.isNull
    ensures !c.isNull ==> Stored(CachedRow(row[..], map[]), m, c.data)
  {
    var column := new Column(c.isNull, c.data, 0, c.reports);
    var r;
    r, length := column.GetData(row, m.offset, m.length);
  }

  lemma SlotHolds(row: seq<byte>, m: Meta, data: seq<byte>)
    requires !m.IsNative() && !m.IsLob() && WORD_SIZE + |data| <= m.length && m.End() <= |row| && |data| < MAX_LENGTH
    requires row[m.offset..m.offset + WORD_SIZE] == EncodeLength(|data|)
    requires row[m.offset + WORD_SIZE..m.offset + WORD_SIZE + |data|] == data
    ensures Stored(CachedRow(row, map[]), m, data)
  {
    hide EncodeLength, DecodeLength;
    DecodeEncodeLength(|data|);
    var slot := row[m.offset..m.End()];
    assert slot[..WORD_SIZE] == row[m.offset..m.offset + WORD_SIZE];
    assert slot[WORD_SIZE..WORD_SIZE + |data|] == row[m.offset + WORD_SIZE..m.offset + WORD_SIZE + |data|];
  }

  /** A field of declared size goes behind its length word. */
  method FillSized(c: Cell, m: Meta, row: array<byte>) returns (length: int)
    requires Promised(m, c) && !m.IsNative() && !m.IsLob() && m.End() <= row.Length
    modifies row
    ensures OnlySlot(row, m)
    ensures (length == SQL_NULL_DATA) == c.isNull
    ensures !c.isNull ==> Stored(CachedRow(row[..], map[]), m, c.data)
  {
    hide EncodeLength, DecodeLength, Stored, HoldsField;
    var column := new Column(c.isNull, c.data, m.ctype.Extra(), c.reports);
    var r;
    r, length := column.GetData(row, m.offset + WORD_SIZE, m.length);
    ghost var data := if c.isNull then [] else c.data;
    assert row[m.offset + WORD_SIZE..m.offset + WORD_SIZE + |data|] == data;
    WriteLength(row, m.offset, length);
    assert row[m.offset + WORD_SIZE..m.offset + WORD_SIZE + |data|] == data;
    if !c.isNull {
      SlotHolds(row[..], m, c.data);
    }
  }

  /** A LOB goes into a block of its own; the slot keeps the block's address, or 0 for NULL. */
  method FillLob(c: Cell, m: Meta, address: int, row: array<byte>, memUsed: nat, memLimit: nat)
    returns (r: FillResult, length: int, block: seq<byte>)
    requires Promised(m, c) && m.IsLob() && m.End() <= row.Length && 0 < address < MAX_LENGTH
    modifies row
    ensures OnlySlot(row, m)
    ensures r.Filled? ==> length == if c.isNull then SQL_NULL_DATA else |Kept(m, c)|
    ensures r.Filled? && !c.isNull ==> Stored(CachedRow(row[..], map[address := block]), m, Kept(m, c))
    ensures r.Filled? && !c.isNull ==> memUsed + |Kept(m, c)| <= memLimit
    ensures r.Filled? <==> Readable(m, c) && (Checked(m, c) ==> memUsed + Needed(m, c) <= memLimit)
    ensures r.Failed? ==> !Readable(m, c)
    ensures r.Refused? ==> Checked(m, c) && memUsed + Needed(m, c) > memLimit
  {
    hide EncodeLength, DecodeLength, HoldsField, LateTotal, KeptLength, CanBeRead, Demand;
    KeptWithinDemand(|c.data|, c.reports);
    block := [];
    var column := new Column(c.isNull, c.data, m.ctype.Extra(), c.reports);
    var res := ReadLobField(column, memUsed, memLimit);
    match res
    case DriverFailed => return Failed, SQL_NULL_DATA, [];
    case OverLimit => return Refused, SQL_NULL_DATA, [];
    case NullLob =>
      WriteLength(row, m.offset, 0);
      return Filled, SQL_NULL_DATA, [];
    case Lob(buffer) =>
      block := buffer[..];
      FieldLength(block, Kept(m, c));
      DecodeEncodeLength(address);
      WriteLength(row, m.offset, address);
      return Filled, DecodeLength(block[..WORD_SIZE]), block;
  }

  lemma FieldLength(memory: seq<byte>, data: seq<byte>)
    requires HoldsField(memory, data)
    ensures WORD_SIZE <= |memory| && DecodeLength(memory[..WORD_SIZE]) == |data|
  {
  }

  /** One turn of the inner loop: column i of the current row. */
  method FillField(c: Cell, m: Meta, i: nat, row: array<byte>, blocks: map<int, seq<byte>>, memUsed: nat, memLimit: nat)
    returns (r: FillResult, newBlocks: map<int, seq<byte>>, newUsed: nat)
    requires Promised(m, c) && m.End() <= row.Length && i / 8 < m.offset && i + 1 < MAX_LENGTH
    requires !NullBit(row[..], i) && i + 1 !in blocks
    modifies row
    ensures forall a :: a in newBlocks <==> a in blocks || (a == i + 1 && r.Filled? && m.IsLob() && !c.isNull)
    ensures forall a :: a in blocks ==> newBlocks[a] == blocks[a]
    ensures r.Filled? ==>
              && Shows(CachedRow(row[..], newBlocks), m, i, c)
              && newUsed == memUsed + Charge(m, c) && (memUsed <= memLimit ==> newUsed <= memLimit)
    ensures r.Filled? <==> Readable(m, c) && (Checked(m, c) ==> memUsed + Needed(m, c) <= memLimit)
    ensures r.Failed? ==> !Readable(m, c)
    ensures r.Refused? ==> Checked(m, c) && memUsed + Needed(m, c) > memLimit
    ensures forall k :: 0 <= k < row.Length && k != i / 8 && !(m.offset <= k < m.End()) ==> row[k] == old(row[k])
    ensures forall j :: 0 <= j != i && j / 8 < m.offset ==> NullBit(row[..], j) == old(NullBit(row[..], j))
  {
    hide EncodeLength, DecodeLength, HoldsField, KeptLength, CanBeRead, Demand, NullBit, Stored;
    newBlocks, newUsed := blocks, memUsed;
    var length;
    ghost var before := row[..];
    if m.IsLob() {
      var block;
      r, length, block := FillLob(c, m, i + 1, row, memUsed, memLimit);
      if !r.Filled? {
        BitsKept(before, row[..], m);
        return;
      }
      if length != SQL_NULL_DATA {
        newBlocks := blocks[i + 1 := block];
        newUsed := memUsed + length;
        StoredInMore(row[..], map[i + 1 := block], newBlocks, m, Kept(m, c));
      }
    } else {
      newUsed := memUsed + m.length;
      if newUsed > memLimit {
        return Refused, blocks, newUsed;
      }
      if m.IsNative() {
        length := FillNative(c, m, row);
      } else {
        length := FillSized(c, m, row);
      }
      if !c.isNull {
        StoredInMore(row[..], map[], newBlocks, m, c.data);
      }
    }
    BitsKept(before, row[..], m);
    if length == SQL_NULL_DATA {
      SetBit(row, i);
    }
    r := Filled;
  }

  lemma BitsKept(before: seq<byte>, after: seq<byte>, m: Meta)
    requires |before| == |after| && m.End() <= |before|
    requires forall k :: 0 <= k < |before| && !(m.offset <= k < m.End()) ==> after[k] == before[k]
    ensures forall j :: 0 <= j && j / 8 < m.offset ==> NullBit(after, j) == NullBit(before, j)
  {
  }

  lemma StoredInMore(row: seq<byte>, blocks: map<int, seq<byte>>, more: map<int, seq<byte>>, m: Meta, data: seq<byte>)
    requires Stored(CachedRow(row, blocks), m, data)
    requires forall a :: a in blocks ==> a in more && more[a] == blocks[a]
    ensures Stored(CachedRow(row, more), m, data)
  {
    hide HoldsField, DecodeLength;
  }

  // ---------- one row ----------

  const MAX_COLUMNS := 0x8000

  ghost predicate RowPromised(meta: seq<Meta>, cells: seq<Cell>) {
    && |cells| == |meta| < MAX_COLUMNS
    && forall i :: 0 <= i < |meta| ==> Promised(meta[i], cells[i])
  }

  predicate AllReadable(meta: seq<Meta>, cells: seq<Cell>, k: nat)
    requires k <= |meta| == |cells|
  {
    forall i :: 0 <= i < k ==> Readable(meta[i], cells[i])
  }

  /** The first k columns of the row read as the fields. */
  ghost predicate RowShows(row: CachedRow, meta: seq<Meta>, cells: seq<Cell>, k: nat) {
    k <= |meta| == |cells| && forall i :: 0 <= i < k ==> Shows(row, meta[i], i, cells[i])
  }

  /** Filling column k leaves the columns before it as they were. */
  lemma EarlierColumnsKept(before: CachedRow, after: CachedRow, meta: seq<Meta>, cells: seq<Cell>, k: nat)
    requires k < |meta| == |cells| && |after.bytes| == |before.bytes| && Separate(meta, |before.bytes|)
    requires RowShows(before, meta, cells, k) && Shows(after, meta[k], k, cells[k])
    requires forall a :: a in before.blocks ==> a in after.blocks && after.blocks[a] == before.blocks[a]
    requires forall b :: 0 <= b < |before.bytes| && b != k / 8 && !(meta[k].offset <= b < meta[k].End()) ==>
                           after.bytes[b] == before.bytes[b]
    requires forall j :: 0 <= j != k && j / 8 < meta[k].offset ==> NullBit(after.bytes, j) == NullBit(before.bytes, j)
    ensures RowShows(after, meta, cells, k + 1)
  {
    hide Shows, NullBit;
    forall i | 0 <= i < k ensures Shows(after, meta[i], i, cells[i]) {
      assert Shows(before, meta[i], i, cells[i]);
      assert i / 8 < NullBytes(|meta|) <= meta[i].offset;
      ShowsKept(before, after, meta[i], i, cells[i]);
    }
  }

  /** One turn of the outer loop: the current row, in memory cleared to zero. */
  method FillRow(cells: seq<Cell>, meta: seq<Meta>, rowSize: nat, memUsed: nat, memLimit: nat)
    returns (r: FillResult, row: CachedRow, newUsed: nat)
    requires Separate(meta, rowSize) && RowPromised(meta, cells)
    ensures r.Filled? ==>
              && RowShows(row, meta, cells, |meta|)
              && newUsed == Spent(meta, cells, |meta|, memUsed) && (memUsed <= memLimit ==> newUsed <= memLimit)
    ensures r.Filled? <==> AllReadable(meta, cells, |meta|) && Affordable(meta, cells, |meta|, memUsed, memLimit)
    ensures r.Failed? ==> !AllReadable(meta, cells, |meta|)
    ensures r.Refused? ==> !Affordable(meta, cells, |meta|, memUsed, memLimit)
  {
    hide Shows, NullBit, Promised, Charge, Needed, Checked, Readable;
    var bytes := new byte[rowSize](_ => 0);
    var blocks: map<int, seq<byte>> := map[];
    newUsed := memUsed;
    NoNulls(bytes[..]);
    for i := 0 to |meta|
      invariant newUsed == Spent(meta, cells, i, memUsed) && (memUsed <= memLimit ==> newUsed <= memLimit)
      invariant Affordable(meta, cells, i, memUsed, memLimit) && AllReadable(meta, cells, i)
      invariant forall a :: a in blocks ==> 1 <= a <= i
      invariant forall j :: i <= j && j / 8 < NullBytes(|meta|) ==> !NullBit(bytes[..], j)
      invariant RowShows(CachedRow(bytes[..], blocks), meta, cells, i)
    {
      ghost var before := CachedRow(bytes[..], blocks);
      assert i / 8 < NullBytes(|meta|) <= meta[i].offset;
      r, blocks, newUsed := FillField(cells[i], meta[i], i, bytes, blocks, newUsed, memLimit);
      if !r.Filled? {
        if Affordable(meta, cells, |meta|, memUsed, memLimit) {
          AffordableSoFar(meta, cells, i + 1, |meta|, memUsed, memLimit);
        }
        row := CachedRow([], map[]);
        return;
      }
      EarlierColumnsKept(before, CachedRow(bytes[..], blocks), meta, cells, i);
    }
    r, row := Filled, CachedRow(bytes[..], blocks);
  }

  lemma NoNulls(row: seq<byte>)
    requires forall k :: 0 <= k < |row| ==> row[k] == 0
    ensures forall j :: 0 <= j && j / 8 < |row| ==> !NullBit(row, j)
  {
    forall j | 0 <= j && j / 8 < |row| ensures !NullBit(row, j) {
      NoBits(7 - j % 8);
    }
  }
}
