/**
 A field read from memory beside the same field read straight from the driver: for every layout, all rows and all answers
 of the driver, when each of the two comes out as the text of the field.
 */
module BufferedEqualsDirect {
  import opened Bytes
  import opened Odbc
  import opened LobReading
  import opened RowLayout
  import opened RowFilling
  import opened PartialReads
  import opened Cursor
  import opened BufferedResults
  import opened FieldReading

  /** What the result set keeps of a column, wherever its slot is. */
  function MetaOf(d: Description, utf8: bool): Meta {
    Meta(CTypeOf(d.kind, utf8), SlotLength(d, utf8), 0)
  }

  /** The driver keeps to the sizes it describes. */
  ghost predicate AllPromised(columns: seq<Description>, utf8: bool, rows: seq<seq<Cell>>) {
    && |columns| < MAX_COLUMNS && |rows| < INT_MAX
    && forall r :: 0 <= r < |rows| ==>
         |rows[r]| == |columns| && forall i :: 0 <= i < |columns| ==> WithinDescription(columns[i], CTypeOf(columns[i].kind, utf8), rows[r][i])
  }

  lemma PromisesCarryOver(columns: seq<Description>, utf8: bool, meta: seq<Meta>, rows: seq<seq<Cell>>)
    requires AllPromised(columns, utf8, rows) && |meta| == |columns|
    requires forall i :: 0 <= i < |meta| ==> SlotFor(meta[i], columns[i], utf8)
    ensures ResultPromised(meta, rows)
  {
    hide CTypeOf, SlotLength, WithinDescription, Promised, SlotFor;
    forall r | 0 <= r < |rows| ensures RowPromised(meta, rows[r]) {
      forall i | 0 <= i < |meta| ensures Promised(meta[i], rows[r][i]) {
        DescribedIsPromised(columns[i], utf8, meta[i], rows[r][i]);
      }
    }
  }

  /** The text of what is kept of a field. */
  function KeptText(d: Description, utf8: bool, c: Cell, target: CType): seq<byte> {
    TextOf(Kept(MetaOf(d, utf8), c), CTypeOf(d.kind, utf8), target)
  }

  /** The sizes of a read of a field from memory. */
  function MemorySizes(d: Description, utf8: bool, c: Cell, target: CType, room: nat): Sizes {
    Sizes(|KeptText(d, utf8, c, target)|, room, TerminatorOf(CTypeOf(d.kind, utf8), target), target.Extra())
  }

  /** The read comes out whole. */
  predicate WholeFromMemory(d: Description, utf8: bool, c: Cell, target: CType, room: nat) {
    var sizes := MemorySizes(d, utf8, c, target, room);
    sizes.FitsAtOnce() || sizes.FirstIsInitial(UnitOf(CTypeOf(d.kind, utf8), target))
  }

  /** All of the field is kept exactly when it is no LOB whose total was named late. */
  lemma AllIsKept(d: Description, utf8: bool, c: Cell, target: CType)
    ensures KeptText(d, utf8, c, target) == TextOf(c.data, CTypeOf(d.kind, utf8), target)
       <==> !(MetaOf(d, utf8).IsLob() && LateTotal(|c.data|, c.reports))
  {
    hide LateTotal, KeptLength, HexText, CTypeOf, SlotLength;
    TextLength(c.data, CTypeOf(d.kind, utf8), target);
    TextLength(Kept(MetaOf(d, utf8), c), CTypeOf(d.kind, utf8), target);
    KeptLess(c);
  }

  lemma KeptLess(c: Cell)
    ensures if LateTotal(|c.data|, c.reports) then KeptLength(|c.data|, c.reports) < |c.data|
            else c.data[..KeptLength(|c.data|, c.reports)] == c.data
  {
  }

  /** The same field through memory and from the driver. driver holds the driver's own text of the field. Each of the two
      says exactly when it comes out as that text; where both do they are equal. */
  method ReadBothWays(columns: seq<Description>, utf8: bool, rows: seq<seq<Cell>>, limit: nat, r: nat, i: nat,
                      target: CType, driver: Cell, displaySize: nat, isLong: bool)
    returns (built: BuildResult, buffered: FieldResult, direct: FieldResult)
    requires AllPromised(columns, utf8, rows) && r < |rows| && i < |columns|
    requires CTypeOf(columns[i].kind, utf8).IsString() && target.IsString() && Deliverable(CTypeOf(columns[i].kind, utf8), target)
    requires driver.isNull == rows[r][i].isNull
    requires Spells(driver.data, rows[r][i].data, CTypeOf(columns[i].kind, utf8), target)
    ensures built.Built? && driver.isNull ==> buffered == direct == NullField
    ensures built.Built? && !driver.isNull ==>
              var d, c, room := columns[i], rows[r][i], FirstRoom(displaySize, isLong);
              var sizes, hex := MemorySizes(d, utf8, c, target, room), IsHex(CTypeOf(d.kind, utf8), target);
              && MemoryAnswers(buffered, KeptText(d, utf8, c, target), sizes, UnitOf(CTypeOf(d.kind, utf8), target), hex)
              && (KeptText(d, utf8, c, target) == driver.data <==> !(MetaOf(d, utf8).IsLob() && LateTotal(|c.data|, c.reports)))
    ensures built.Built? && !driver.isNull ==>
              DriverAnswers(direct, driver.data, FirstRoom(displaySize, isLong), target.Extra(), driver.reports)
    ensures built.Built? && !driver.isNull && (target.CBinary? ==> CTypeOf(columns[i].kind, utf8).CBinary?) ==>
              var c := rows[r][i];
              var whole := !Unbounded(columns[i]) || !LateTotal(|c.data|, c.reports);
              && (whole && !isLong && 0 < displaySize && |driver.data| <= displaySize ==> buffered == direct == Value(driver.data))
              && (whole && (isLong || displaySize == 0) ==> buffered == Value(driver.data))
  {
    hide HoldsField, LateTotal, HexText, TextOf, SlotLength, CTypeOf, RowShows, RowsAffordable, RowsReadable, Promised, TerminatorOf, UnitOf, KeptLength, MemoryAnswers, DriverAnswers, Spells, WithinDescription, Unbounded;
    buffered, direct := NoMoreData, NoMoreData;
    var results := new BufferedResultSet(columns, utf8);
    PromisesCarryOver(columns, utf8, results.meta, rows);
    TextOfSpells(driver.data, rows[r][i].data, CTypeOf(columns[i].kind, utf8), target);
    OwnTerminator(columns[i], utf8, target);
    assert SlotFor(results.meta[i], columns[i], utf8);
    var used;
    built, used := results.Fill(rows, limit);
    if !built.Built? {
      return;
    }
    var ok := results.Fetch(Absolute, r + 1);
    FromMemory(results, i, target, columns[i], utf8, rows[r][i]);
    AllIsKept(columns[i], utf8, rows[r][i], target);
    buffered := GetFieldAsString(Buffered(results, i), target, displaySize, isLong);
    var column := new Column(driver.isNull, driver.data, target.Extra(), driver.reports);
    direct := GetFieldAsString(Direct(column), target, displaySize, isLong);
  }

  lemma OwnTerminator(d: Description, utf8: bool, target: CType)
    requires Deliverable(CTypeOf(d.kind, utf8), target) && target.IsString()
    ensures (target.CBinary? ==> CTypeOf(d.kind, utf8).CBinary?) ==> TerminatorOf(CTypeOf(d.kind, utf8), target) == target.Extra()
    ensures MetaOf(d, utf8).IsLob() <==> Unbounded(d)
  {
    hide CTypeOf, SlotLength;
    LongestValueFits(d, utf8);
  }

  lemma FromMemory(results: BufferedResultSet, i: nat, target: CType, d: Description, utf8: bool, c: Cell)
    requires results.Valid() && results.OnRow() && i < |results.meta| && results.lastFieldIndex == NO_FIELD
    requires SlotFor(results.meta[i], d, utf8) && results.rows[results.current - 1][i] == c
    requires CTypeOf(d.kind, utf8).IsString() && target.IsString() && Deliverable(CTypeOf(d.kind, utf8), target)
    ensures var src, ctype := Buffered(results, i), CTypeOf(d.kind, utf8);
            && src.Valid(target)
            && src.Look(target) == View(c.isNull, KeptText(d, utf8, c, target), 0, TerminatorOf(ctype, target), UnitOf(ctype, target),
                                        IsHex(ctype, target))
  {
    hide TextOf, RowShows, KeptLength, CTypeOf, SlotLength;
  }

  // ---------- reads that do not come out ----------

  /** A full CHAR(10) value read as binary: the first read is one byte short, and the second ends the process. A full
      CHAR(2100) value would be read, but not in place. */
  lemma FullCharAsBinary(c: Cell, d: Description)
    requires d.kind == Char && d.size != SIZE_UNKNOWN && |c.data| == d.size
    ensures var sizes := MemorySizes(d, false, c, CBinary, d.size);
            && (d.size == 10 ==> sizes.RoomBelowTerminator())
            && (d.size == 2100 ==> !sizes.RoomBelowTerminator() && !WholeFromMemory(d, false, c, CBinary, d.size))
  {
  }

  /** So does a full NCHAR(10) value, and a CHAR(10) value that a UTF-8 connection keeps as ten wide characters. */
  lemma FullWideCharAsBinary(c: Cell, d: Description)
    requires (d.kind == WChar || d.kind == Char) && d.size == 10 && |c.data| == 20
    ensures d.kind == WChar ==> MemorySizes(d, true, c, CBinary, 20).RoomBelowTerminator()
    ensures d.kind == Char ==> MemorySizes(d, true, c, CBinary, 10).RoomBelowTerminator()
  {
  }

  /** A VARCHAR(max) value of 3000 bytes read as binary: the first piece is a byte short of where the rest goes. */
  lemma LongCharAsBinary(c: Cell, d: Description)
    requires d.kind == LongVarChar && |c.data| == 3000 && c.reports == [true]
    ensures !WholeFromMemory(d, false, c, CBinary, INITIAL_FIELD_STRING_LEN)
    ensures !MemorySizes(d, false, c, CBinary, INITIAL_FIELD_STRING_LEN).RoomBelowTerminator()
  {
  }
}
