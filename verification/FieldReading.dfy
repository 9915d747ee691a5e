/**
 Reading a field as a string (core_stmt.cpp, get_field_as_string): the pieces the driver or the buffered result set
 delivers are put together in one block that grows as needed.
 */
module FieldReading {
  import Wrappers
  import opened Bytes
  import opened Odbc
  import opened LobReading
  import opened RowLayout
  import opened RowFilling
  import opened PartialReads
  import opened BufferedResults

  const INITIAL_FIELD_STRING_LEN := 2048
  const PADDING := 50

  /** How a read of a field ends. Dies: an assertion of the extension ends the process. Corrupts: memory behind the block
      is written. */
  datatype FieldResult = NullField | Value(bytes: seq<byte>) | NoMoreData | Failure | Dies | Corrupts

  // ---------- the driver doubles ----------

  lemma ReadContinues(before: seq<byte>, after: seq<byte>, data: seq<byte>, k: nat, m: nat)
    requires k <= m <= |data| && m <= |after| && k <= |before| && before[..k] == data[..k]
    requires forall i :: 0 <= i < k ==> after[i] == before[i]
    requires after[k..m] == data[k..m]
    ensures after[..m] == data[..m]
  {
    assert after[..k] == before[..k];
    assert after[..m] == after[..k] + after[k..m];
    assert data[..m] == data[..k] + data[k..m];
  }

  /** One turn of the loop: twice the memory, and the next call into the new half. */
  method ReadIntoDouble(column: Column, buffer: array<byte>, have: nat) returns (r: SqlReturn, bigger: array<byte>, length: int)
    requires column.Valid() && !column.isNull && !column.done
    modifies column
    ensures column.Valid() && fresh(bigger) && bigger.Length == 2 * have + column.extra + 1
    ensures r == SqlError ==> column.cuts == old(column.cuts) == |column.reports|
    ensures r == Success <==> |column.data| - old(column.pos) <= have
    ensures r == Success || r == Truncated || r == SqlError
    ensures r != Truncated ==> column.cuts == old(column.cuts)
    ensures r == Success ==> column.pos == |column.data| && length == have + |column.data| - old(column.pos)
    ensures r == Truncated ==>
              && !column.done && column.cuts == old(column.cuts) + 1 && column.pos == old(column.pos) + have
              && length == if column.reports[old(column.cuts)] then have + |column.data| - old(column.pos) else 2 * have
    ensures r != SqlError && old(column.pos) == have <= buffer.Length && buffer[..have] == column.data[..have] ==>
              bigger[..column.pos] == column.data[..column.pos]
  {
    bigger := Resize(buffer, 2 * have + column.extra + 1);
    ghost var before, k := bigger[..], column.pos;
    var chunk;
    r, chunk := column.GetData(bigger, have, have + column.extra);
    length := have + if chunk != SQL_NO_TOTAL then chunk else have;
    if r != SqlError && k == have <= buffer.Length && buffer[..have] == column.data[..have] {
      assert before[..have] == buffer[..have];
      ReadContinues(before, bigger[..], column.data, have, column.pos);
    }
  }

  /** What the loop takes for the length of n bytes, or nothing when the driver has no further answer: have is the memory so
      far, pos how much has been read, cuts how many calls were cut off. */
  function Doubled(n: nat, have: nat, pos: nat, reports: seq<bool>, cuts: nat): (length: Wrappers.Option<nat>)
    requires pos <= n && 0 < have
    decreases |reports| - cuts
  {
    if n - pos <= have then Wrappers.Some(have + n - pos)
    else if cuts >= |reports| then Wrappers.None
    else Doubled(n, if reports[cuts] then have + n - pos else 2 * have, pos + have, reports, cuts + 1)
  }

  /** The loop for a driver that does not name the total at the first cut. It counts on a first piece of the initial
      length. */
  method ReadByDoubling(column: Column, first: array<byte>) returns (ok: bool, buffer: array<byte>, length: int)
    requires column.Valid() && !column.isNull && !column.done
    requires column.cuts == 1 && !column.reports[0] && column.pos < |column.data|
    requires first.Length >= column.pos && first[..column.pos] == column.data[..column.pos]
    modifies column
    ensures column.Valid()
    ensures old(column.pos) == INITIAL_FIELD_STRING_LEN ==>
              (ok <==> LateTotal(|column.data|, column.reports) || Doublings(INITIAL_LOB_FIELD_LEN, |column.data|) <= |column.reports|)
    ensures ok ==> 0 <= length <= buffer.Length
    ensures var lengthRead := Doubled(|column.data|, INITIAL_FIELD_STRING_LEN, old(column.pos), column.reports, 1);
            lengthRead == if ok then Wrappers.Some(length) else Wrappers.None
    ensures ok && old(column.pos) == INITIAL_FIELD_STRING_LEN ==>
              if LateTotal(|column.data|, column.reports) then length > |column.data|
              else length == |column.data| && buffer[..length] == column.data
  {
    hide BlockAfter, LateTotal;
    ghost var lengthRead := Doubled(|column.data|, INITIAL_FIELD_STRING_LEN, column.pos, column.reports, 1);
    ghost var n, reports, late, aligned := |column.data|, column.reports, false, column.pos == INITIAL_FIELD_STRING_LEN;
    FirstBlock();
    length, buffer := INITIAL_FIELD_STRING_LEN, first;
    var r := Truncated;
    while r == Truncated
      invariant column.Valid() && (r != SqlError ==> r == Truncated || r == Success)
      invariant aligned && r == SqlError ==> !LateTotal(n, reports) && Doublings(INITIAL_LOB_FIELD_LEN, n) > |reports|
      invariant r == Truncated ==> !column.done && 1 <= column.cuts && column.pos < n && 0 < length
      invariant aligned && r == Truncated && !late ==>
                  && length == column.pos == BlockAfter(column.cuts - 1) && length <= buffer.Length
                  && buffer[..length] == column.data[..length]
                  && forall i :: 0 <= i < column.cuts ==> !reports[i]
      invariant late ==> aligned && LateTotal(n, reports) && r != SqlError && (r == Truncated ==> length == n && 0 < column.pos)
      invariant r == Success ==> 0 <= length <= buffer.Length && lengthRead == Wrappers.Some(length)
      invariant r == Truncated ==> lengthRead == Doubled(n, length, column.pos, reports, column.cuts)
      invariant r == SqlError ==> lengthRead == Wrappers.None
      invariant r == Success && late ==> length > n
      invariant aligned && r == Success && !late ==>
                  && !LateTotal(n, reports) && length == n && buffer[..n] == column.data
                  && Doublings(INITIAL_LOB_FIELD_LEN, n) <= |reports|
      decreases |reports| - column.cuts, r == Truncated
    {
      ghost var cuts, pos := column.cuts, column.pos;
      r, buffer, length := ReadIntoDouble(column, buffer, length);
      if aligned && !late {
        NextBlock(cuts - 1);
        DoublingsSoFar(n, cuts);
        LastBlock(n, cuts);
      }
      if aligned && !late && r == SqlError {
        NeverNamed(n, reports);
      }
      if aligned && !late && r == Success {
        NotNamedLate(n, reports, cuts);
        assert column.data[..n] == column.data;
      }
      if aligned && !late && r == Truncated {
        if reports[cuts] {
          NamedAfter(n, reports, cuts);
          late := true;
        }
      }
    }
    ok := r == Success;
  }

  lemma FirstBlock()
    ensures BlockAfter(0) == INITIAL_FIELD_STRING_LEN
  {
  }

  lemma NextBlock(i: nat)
    ensures BlockAfter(i + 1) == 2 * BlockAfter(i)
  {
  }

  lemma LastBlock(n: nat, k: nat)
    ensures Doublings(BlockAfter(k), n) == 0 <==> n <= BlockAfter(k)
  {
  }

  lemma NeverNamed(n: nat, reports: seq<bool>)
    requires forall i :: 0 <= i < |reports| ==> !reports[i]
    ensures !LateTotal(n, reports)
  {
  }

  lemma NotNamedLate(n: nat, reports: seq<bool>, cuts: nat)
    requires 0 < cuts <= |reports| && n <= 2 * BlockAfter(cuts - 1)
    requires forall i :: 0 <= i < cuts ==> !reports[i]
    ensures !LateTotal(n, reports)
  {
    BlocksGrow(cuts, if FirstNamed(reports) < cuts then cuts else FirstNamed(reports));
  }

  lemma NamedAfter(n: nat, reports: seq<bool>, cuts: nat)
    requires 0 < cuts < |reports| && reports[cuts] && 2 * BlockAfter(cuts - 1) < n && forall i :: 0 <= i < cuts ==> !reports[i]
    ensures LateTotal(n, reports)
  {
    assert FirstNamed(reports) == cuts;
  }

  // ---------- either source ----------

  type Unit = u: nat | u == 1 || u == 2 || u == 4 witness 1

  /** A field as a reader sees it: its whole text, how much of it has been delivered, the terminator behind each piece, and
      the bytes that are delivered together. */
  datatype View = View(isNull: bool, text: seq<byte>, pos: nat, extra: nat, unit: Unit, hex: bool) {
    predicate Valid() {
      pos <= |text| && extra <= 2
    }

    /** What a read with room for this many bytes of text delivers when it is cut off. */
    function Piece(room: nat): nat {
      room - room % unit
    }
  }

  /** A field in memory of which d bytes have been delivered. */
  function ViewOf(c: Cell, d: nat, ctype: CType, target: CType): View {
    View(c.isNull, TextOf(c.data, ctype, target), Times(UnitOf(ctype, target), d), TerminatorOf(ctype, target),
         UnitOf(ctype, target), IsHex(ctype, target))
  }

  /** Where a field comes from: the driver, or a result set in memory. */
  datatype Source = Direct(column: Column) | Buffered(results: BufferedResultSet, field: nat) {
    ghost function Repr(): set<object> {
      match this
      case Direct(column) => {column}
      case Buffered(results, _) => {results}
    }

    ghost predicate Valid(target: CType)
      reads Repr()
    {
      match this
      case Direct(column) => column.Valid() && !column.done && column.extra == target.Extra()
      case Buffered(results, field) =>
        && results.Valid() && results.OnRow() && field < |results.meta|
        && !results.meta[field].IsNative() && Deliverable(results.meta[field].ctype, target)
        && results.Delivered(field) <= |results.Field(field).data|
    }

    ghost function Look(target: CType): (v: View)
      requires Valid(target)
      reads Repr()
    {
      match this
      case Direct(column) => View(column.isNull, column.data, column.pos, column.extra, 1, false)
      case Buffered(results, field) =>
        ViewOf(results.Field(field), results.Delivered(field), results.meta[field].ctype, target)
    }
  }

  /** A piece of the data as text is a piece of the text. */
  lemma TextSlice(data: seq<byte>, i: nat, j: nat, ctype: CType, target: CType)
    requires i <= j <= |data|
    ensures var u := UnitOf(ctype, target);
            && |TextOf(data, ctype, target)| == Times(u, |data|)
            && Times(u, j) - Times(u, i) == Times(u, j - i) == |TextOf(data[i..j], ctype, target)|
            && Times(u, j) <= Times(u, |data|)
            && TextOf(data, ctype, target)[Times(u, i)..Times(u, j)] == TextOf(data[i..j], ctype, target)
  {
    hide HexText;
    var u := UnitOf(ctype, target);
    TextLength(data, ctype, target);
    TextLength(data[..i], ctype, target);
    TextLength(data[i..j], ctype, target);
    PiecesJoin(data, 0, i, j, ctype, target);
    PiecesJoin(data, 0, j, |data|, ctype, target);
    assert data[0..|data|] == data && data[0..i] == data[..i];
  }

  /** What a partial read of a field in memory delivers, seen on the text. */
  lemma ServedText(data: seq<byte>, d: nat, ctype: CType, target: CType, capacity: nat)
    requires d <= |data| && TerminatorOf(ctype, target) <= capacity
    ensures var u, n, s := UnitOf(ctype, target), Delivers(data, d, ctype, target, capacity), ServeUnits(data, d, ctype, target, capacity);
            var text, k, room := TextOf(data, ctype, target), Times(u, d), capacity - TerminatorOf(ctype, target);
            && k + |s.chunk| <= |text| && s.chunk == text[k..k + |s.chunk|] && |s.chunk| <= room
            && s.length == |text| - k && (s.r == Success || s.r == Truncated) && (s.r == Success <==> |text| - k <= room)
            && (s.r == Success ==> |s.chunk| == |text| - k)
            && (s.r == Truncated ==> |s.chunk| == room - room % u)
            && Times(u, d + n) == k + |s.chunk|
  {
    hide HexText, TextOf;
    var n := Delivers(data, d, ctype, target, capacity);
    TextSlice(data, d, d + n, ctype, target);
  }

  /** How a call ends whose capacity is below the terminator. */
  function EndsTooSmall(v: View, inside: bool): SqlReturn {
    if !v.hex then AssertionFails else if inside then Truncated else WritesOutside
  }

  /** A read of what v shows, with room for this many bytes of text, that ended with r: what stands in the buffer, and what
      is seen afterwards. */
  ghost predicate Reads(v: View, w: View, room: nat, r: SqlReturn, chunk: seq<byte>)
    requires v.Valid()
  {
    && (r == Success || r == Truncated) && (r == Success <==> |v.text| - v.pos <= room)
    && (r == Success ==> |v.text| - v.pos <= |chunk| && chunk[..|v.text| - v.pos] == v.text[v.pos..])
    && (r == Truncated ==>
          (var piece := v.Piece(room);
           && w == v.(pos := v.pos + piece) && w.pos <= |v.text|
           && piece <= |chunk| && chunk[..piece] == v.text[v.pos..w.pos]))
  }

  lemma ReadsFrom(c: Cell, d: nat, ctype: CType, target: CType, capacity: nat, chunk: seq<byte>)
    requires d <= |c.data| && TerminatorOf(ctype, target) <= capacity && ViewOf(c, d, ctype, target).Valid()
    requires var s := ServeUnits(c.data, d, ctype, target, capacity); |s.chunk| <= |chunk| && chunk[..|s.chunk|] == s.chunk
    ensures var v, w := ViewOf(c, d, ctype, target), ViewOf(c, d + Delivers(c.data, d, ctype, target, capacity), ctype, target);
            && Reads(v, w, capacity - v.extra, ServeUnits(c.data, d, ctype, target, capacity).r, chunk)
            && (ServeUnits(c.data, d, ctype, target, capacity).r == Success || ServeUnits(c.data, d, ctype, target, capacity).r == Truncated)
  {
    hide HexText, TextOf, Times, UnitOf, ServeUnits, Delivers, TerminatorOf, IsHex;
    ServedText(c.data, d, ctype, target, capacity);
  }

  lemma ViewIsValid(c: Cell, d: nat, ctype: CType, target: CType)
    requires d <= |c.data| && target.IsString()
    ensures var v := ViewOf(c, d, ctype, target);
            && v.Valid() && (v.hex ==> v.extra == target.Extra()) && v.isNull == c.isNull && v.hex == IsHex(ctype, target)
            && v.extra == TerminatorOf(ctype, target) && v == ViewOf(c, 0, ctype, target).(pos := v.pos)
            && |v.text| - v.pos == Times(UnitOf(ctype, target), |c.data| - d)
  {
    hide HexText, TextOf;
    TextSlice(c.data, d, |c.data|, ctype, target);
  }

  method PullBuffered(results: BufferedResultSet, field: nat, target: CType, buffer: array<byte>, at: nat, capacity: int)
    returns (r: SqlReturn, length: int)
    requires Buffered(results, field).Valid(target) && target.IsString() && Buffered(results, field).Look(target).Valid()
    requires Buffered(results, field).Look(target).extra <= capacity ==> at + capacity <= buffer.Length
    modifies results, buffer
    ensures Buffered(results, field).Valid(target) && r != SqlError
    ensures old(Buffered(results, field).Look(target)).extra <= capacity ==> r == Success || r == Truncated
    ensures var v, w := old(Buffered(results, field).Look(target)), Buffered(results, field).Look(target);
            if v.isNull then r == Success && length == SQL_NULL_DATA && w.isNull
            else
              && length == |v.text| - v.pos
              && if capacity < v.extra then r == EndsTooSmall(v, at < buffer.Length) && w == v
                 else Reads(v, w, capacity - v.extra, r, buffer[at..at + capacity])
    ensures forall i :: 0 <= i < buffer.Length && i != at && !(at <= i < at + capacity) ==> buffer[i] == old(buffer[i])
  {
    hide HexText, TextOf, ServeUnits, Delivers, RowShows, RowPromised, Promised, Times, UnitOf, TerminatorOf, NullBit, Kept, Reads, IsHex, ViewOf;
    ghost var c, ctype, d := results.Field(field), results.meta[field].ctype, results.Delivered(field);
    ViewIsValid(c, d, ctype, target);
    ghost var v := ViewOf(c, d, ctype, target);
    ghost var chunk: seq<byte> := [];
    if !c.isNull && v.extra <= capacity {
      ServedText(c.data, d, ctype, target, capacity);
      chunk := ServeUnits(c.data, d, ctype, target, capacity).chunk;
    }
    r, length := results.GetData(field, target, buffer, at, capacity);
    ViewIsValid(c, results.Delivered(field), ctype, target);
    if !c.isNull && v.extra <= capacity {
      assert buffer[at..at + capacity][..|chunk|] == buffer[at..at + |chunk|];
      ReadsFrom(c, d, ctype, target, capacity, buffer[at..at + capacity]);
    }
  }

  lemma ServeReads(data: seq<byte>, pos: nat, extra: nat, capacity: nat, reportTotal: bool, chunk: seq<byte>)
    requires pos <= |data| && extra <= capacity && extra <= 2
    requires var s := Serve(data, pos, extra, capacity, reportTotal); |s.chunk| <= |chunk| && chunk[..|s.chunk|] == s.chunk
    ensures var v, s := View(false, data, pos, extra, 1, false), Serve(data, pos, extra, capacity, reportTotal);
            && Reads(v, v.(pos := pos + |s.chunk|), capacity - extra, s.r, chunk)
            && s.length == if s.r == Success || reportTotal then |data| - pos else SQL_NO_TOTAL
  {
  }

  method PullDirect(column: Column, target: CType, buffer: array<byte>, at: nat, capacity: int) returns (r: SqlReturn, length: int)
    requires Direct(column).Valid(target) && (column.extra <= capacity ==> at + capacity <= buffer.Length) && column.extra <= 2
    modifies column, buffer
    ensures column.Valid() && (r == Truncated ==> !column.done && column.cuts == old(column.cuts) + 1)
    ensures r == SqlError && column.extra <= capacity ==>
              !column.isNull && old(column.cuts) == |column.reports| && |column.data| - old(column.pos) > capacity - column.extra
    ensures if capacity < column.extra then r == SqlError else r == Success || r == Truncated || r == SqlError
    ensures var v := old(Direct(column).Look(target));
            r != SqlError ==>
              if v.isNull then r == Success && length == SQL_NULL_DATA
              else
                && Reads(v, View(column.isNull, column.data, column.pos, column.extra, 1, false), capacity - v.extra, r, buffer[at..at + capacity])
                && length == (if r == Success || column.reports[old(column.cuts)] then |v.text| - v.pos else SQL_NO_TOTAL)
    ensures forall i :: 0 <= i < buffer.Length && !(at <= i < at + capacity) ==> buffer[i] == old(buffer[i])
  {
    hide Reads, Serve;
    ghost var k, total := column.pos, column.cuts < |column.reports| && column.reports[column.cuts];
    r, length := column.GetData(buffer, at, capacity);
    if r != SqlError && !column.isNull {
      ghost var n := column.pos - k;
      assert buffer[at..at + capacity][..n] == buffer[at..at + n];
      ServeReads(column.data, k, column.extra, capacity, total, buffer[at..at + capacity]);
    }
  }

  /** get_data on the current source. */
  method Pull(src: Source, target: CType, buffer: array<byte>, at: nat, capacity: int) returns (r: SqlReturn, length: int)
    requires src.Valid(target) && target.IsString() && src.Look(target).Valid() && buffer !in src.Repr()
    requires src.Look(target).extra <= capacity ==> at + capacity <= buffer.Length
    modifies src.Repr(), buffer
    ensures var v := old(src.Look(target));
            && (r == SqlError ==> src.Direct? && (v.extra <= capacity ==> !v.isNull && |v.text| - v.pos > capacity - v.extra))
            && (r == Truncated ==> src.Valid(target))
            && (r != SqlError && v.extra <= capacity ==> r == Success || r == Truncated)
            && (r != SqlError && v.isNull ==> r == Success && length == SQL_NULL_DATA)
            && (r != SqlError && !v.isNull ==>
                  && (length == |v.text| - v.pos || (src.Direct? && r == Truncated && length == SQL_NO_TOTAL))
                  && if capacity < v.extra then src.Buffered? && r == EndsTooSmall(v, at < buffer.Length)
                     else Reads(v, if r == Truncated then src.Look(target) else v, capacity - v.extra, r, buffer[at..at + capacity]))
    ensures src.Direct? && r == SqlError && old(src.Look(target)).extra <= capacity ==>
              old(if src.Direct? then src.column.cuts else 0) == |src.column.reports|
    ensures src.Direct? && r == Truncated ==>
              && src.column.cuts == old(if src.Direct? then src.column.cuts else 0) + 1 <= |src.column.reports|
              && (length == SQL_NO_TOTAL <==> !src.column.reports[src.column.cuts - 1])
    ensures forall i :: 0 <= i < buffer.Length && i != at && !(at <= i < at + capacity) ==> buffer[i] == old(buffer[i])
  {
    hide Reads, ViewOf;
    match src
    case Direct(column) =>
      ghost var v := src.Look(target);
      r, length := PullDirect(column, target, buffer, at, capacity);
      if r == Success && !v.isNull {
        NothingMoreToSee(v, View(column.isNull, column.data, column.pos, column.extra, 1, false), capacity - v.extra, buffer[at..at + capacity]);
      }
    case Buffered(results, field) =>
      hide HexText, TextOf, UnitOf, Times, TerminatorOf, RowShows, RowPromised, CTypeOf, SlotLength, Kept;
      ghost var v := src.Look(target);
      r, length := PullBuffered(results, field, target, buffer, at, capacity);
      if r == Success && !v.isNull {
        NothingMoreToSee(v, src.Look(target), capacity - v.extra, buffer[at..at + capacity]);
      }
  }

  lemma NothingMoreToSee(v: View, w: View, room: nat, chunk: seq<byte>)
    requires v.Valid() && Reads(v, w, room, Success, chunk)
    ensures Reads(v, v, room, Success, chunk)
  {
  }

  // ---------- get_field_as_string ----------

  /** The first capacity that is offered for data. */
  function FirstRoom(displaySize: nat, isLong: bool): nat {
    if displaySize == 0 || isLong then INITIAL_FIELD_STRING_LEN else displaySize
  }

  /** The sizes of a read: n bytes of text in a first room, with the terminator that is written and the one that was
      asked for. */
  datatype Sizes = Sizes(n: nat, room: nat, extra: nat, asked: nat) {
    predicate FitsAtOnce() {
      n + extra <= room + asked
    }

    /** The first read leaves the second one where the second one expects it. */
    predicate FirstIsInitial(unit: Unit) {
      var first := room + asked - extra;
      first - first % unit == INITIAL_FIELD_STRING_LEN
    }

    /** The room of a read is below the terminator: of the first one, or of the second, which counts on a first piece of
        the initial length. */
    predicate RoomBelowTerminator() {
      !FitsAtOnce() && (room + asked < extra || n + PADDING < INITIAL_FIELD_STRING_LEN + extra)
    }

    /** The second read starts behind its block. */
    predicate StartsOutside() {
      !FitsAtOnce() && n + PADDING < INITIAL_FIELD_STRING_LEN
    }
  }

  function SizesOf(v: View, target: CType, room: nat): Sizes {
    Sizes(|v.text|, room, v.extra, target.Extra())
  }

  /** What comes out for the length of n bytes when the driver named the total at the first cut, behind pos bytes. */
  function RestLength(n: nat, pos: nat, extra: nat, reports: seq<bool>): (length: Wrappers.Option<int>)
    requires pos <= n
  {
    if n + PADDING < INITIAL_FIELD_STRING_LEN + extra then Wrappers.None
    else if n - pos <= n - INITIAL_FIELD_STRING_LEN + PADDING - extra then Wrappers.Some(INITIAL_FIELD_STRING_LEN + n - pos)
    else if |reports| <= 1 then Wrappers.None
    else Wrappers.Some(INITIAL_FIELD_STRING_LEN + if reports[1] then n - pos else SQL_NO_TOTAL)
  }

  /** What comes out for the length of n bytes from the driver, or nothing when it fails. */
  function DriverLength(n: nat, room: nat, extra: nat, reports: seq<bool>): (length: Wrappers.Option<int>) {
    if n <= room then Wrappers.Some(n)
    else if reports == [] then Wrappers.None
    else if reports[0] then RestLength(n, room, extra, reports)
    else match Doubled(n, INITIAL_FIELD_STRING_LEN, room, reports, 1)
      case Some(length) => Wrappers.Some(length)
      case None => Wrappers.None
  }

  /** As long as no total is named the length is off by what the first piece was short of the initial length. */
  lemma {:induction false} DoubledIsOff(n: nat, have: nat, pos: nat, reports: seq<bool>, cuts: nat)
    requires pos <= n && 0 < have && forall i :: cuts <= i < |reports| ==> !reports[i]
    ensures var length := Doubled(n, have, pos, reports, cuts); length.Some? ==> length.value == have - pos + n
    decreases |reports| - cuts
  {
    if n - pos > have && cuts < |reports| {
      DoubledIsOff(n, 2 * have, pos + have, reports, cuts + 1);
    }
  }

  /** A value that is longer than its first room, which is not of the initial length, does not get its length from a driver
      that names the total at every cut or at none. */
  lemma DriverLengthIsOff(n: nat, room: nat, extra: nat, reports: seq<bool>)
    requires room < n && room != INITIAL_FIELD_STRING_LEN
    requires (forall i :: 0 <= i < |reports| ==> reports[i]) || (forall i :: 0 <= i < |reports| ==> !reports[i])
    ensures var length := DriverLength(n, room, extra, reports);
            length.Some? ==> length.value == INITIAL_FIELD_STRING_LEN - room + n != n
  {
    if reports != [] && !reports[0] {
      DoubledIsOff(n, INITIAL_FIELD_STRING_LEN, room, reports, 1);
    }
  }

  /** The rest of a field whose total is known, behind the first piece. */
  method ReadRest(src: Source, target: CType, first: array<byte>, total: nat) returns (r: SqlReturn, buffer: array<byte>, length: int)
    requires src.Valid(target) && target.IsString() && src.Look(target).Valid()
    requires !src.Look(target).isNull && first !in src.Repr() && |src.Look(target).text| == total
    requires var v := src.Look(target); v.pos <= first.Length && first[..v.pos] == v.text[..v.pos]
    modifies src.Repr()
    ensures fresh(buffer)
    ensures var v := old(src.Look(target));
            var small := total + PADDING < INITIAL_FIELD_STRING_LEN + v.extra;
            && (src.Buffered? ==>
                  && r != SqlError && (r == AssertionFails <==> !v.hex && small)
                  && (r == WritesOutside <==> v.hex && total + PADDING < INITIAL_FIELD_STRING_LEN))
            && (src.Direct? ==>
                  && r != AssertionFails && r != WritesOutside && (v.pos == INITIAL_FIELD_STRING_LEN < total ==> r != SqlError)
                  && (old(if src.Direct? then src.column.cuts else 0) == 1 <= |src.column.reports| && v.pos < total ==>
                        var lengthRead := RestLength(total, v.pos, v.extra, src.column.reports);
                        lengthRead == if r == SqlError then Wrappers.None else Wrappers.Some(length)))
            && r != NoData
            && (r == Success || r == Truncated ==>
                  && 0 <= length <= buffer.Length
                  && (src.Buffered? ==> length == INITIAL_FIELD_STRING_LEN + total - v.pos)
                  && (v.pos == INITIAL_FIELD_STRING_LEN < total ==> length == total && buffer[..length] == v.text))
  {
    hide Source.Valid, Source.Look, RestLength, View.Piece;
    ghost var v, named := src.Look(target), if src.Direct? then src.column.cuts else 0;
    buffer := Resize(first, total + PADDING + 1);
    ghost var before := buffer[..];
    var capacity, chunk := total - INITIAL_FIELD_STRING_LEN + PADDING, 0;
    r, chunk := Pull(src, target, buffer, INITIAL_FIELD_STRING_LEN, capacity);
    length := INITIAL_FIELD_STRING_LEN + chunk;
    if src.Direct? && named == 1 <= |src.column.reports| && v.pos < total {
      RestIs(v, if r == Truncated then src.Look(target) else v, capacity, src.column.reports, r, chunk,
             if capacity < 0 then [] else buffer[INITIAL_FIELD_STRING_LEN..INITIAL_FIELD_STRING_LEN + capacity]);
    }
    if r != Success && r != Truncated {
      return;
    }
    if v.pos == INITIAL_FIELD_STRING_LEN < total {
      RestIsBehind(before, buffer[..], first[..v.pos], v.text, v.pos, capacity);
    }
    buffer := ResizeText(buffer, length, length + target.Extra() + 1);
  }

  method ResizeText(buffer: array<byte>, length: nat, size: nat) returns (bigger: array<byte>)
    requires length <= size
    ensures fresh(bigger) && bigger.Length == size && (length <= buffer.Length ==> bigger[..length] == buffer[..length])
  {
    bigger := Resize(buffer, size);
  }

  /** The second read from the driver, in terms of the sizes. */
  lemma RestIs(v: View, w: View, capacity: int, reports: seq<bool>, r: SqlReturn, chunk: int, bytes: seq<byte>)
    requires v.Valid() && v.pos < |v.text| && capacity == |v.text| - INITIAL_FIELD_STRING_LEN + PADDING && |reports| >= 1
    requires capacity < v.extra ==> r == SqlError
    requires v.extra <= capacity && r == SqlError ==> |v.text| - v.pos > capacity - v.extra && |reports| == 1
    requires v.extra <= capacity && r != SqlError ==> Reads(v, w, capacity - v.extra, r, bytes)
    requires r == Success ==> chunk == |v.text| - v.pos
    requires r == Truncated ==> |reports| >= 2 && chunk == if reports[1] then |v.text| - v.pos else SQL_NO_TOTAL
    ensures RestLength(|v.text|, v.pos, v.extra, reports)
         == if r == SqlError then Wrappers.None else Wrappers.Some(INITIAL_FIELD_STRING_LEN + chunk)
  {
  }

  /** The rest was read behind the first piece. */
  lemma RestIsBehind(before: seq<byte>, after: seq<byte>, first: seq<byte>, text: seq<byte>, k: nat, capacity: nat)
    requires k <= |text| <= |after| == |before| && first == text[..k] && before[..k] == first && k + capacity <= |after|
    requires forall i :: 0 <= i < k ==> after[i] == before[i]
    requires |text| - k <= capacity && after[k..k + capacity][..|text| - k] == text[k..]
    ensures after[..|text|] == text
  {
    assert after[k..|text|] == after[k..k + capacity][..|text| - k];
    assert text[k..] == text[k..|text|];
    ReadContinues(before, after, text, k, |text|);
    assert text[..|text|] == text;
  }

  lemma NamedAtFirst(n: nat, reports: seq<bool>)
    requires reports != [] && reports[0]
    ensures !LateTotal(n, reports)
  {
  }

  lemma SourceFacts(src: Source, target: CType)
    requires src.Valid(target) && target.IsString()
    ensures src.Look(target).Valid() && (src.Look(target).hex ==> src.Look(target).extra == target.Extra())
    ensures src.Direct? ==>
              && src.column.Valid() && !src.column.done && src.column.extra == target.Extra()
              && src.Look(target) == View(src.column.isNull, src.column.data, src.column.pos, src.column.extra, 1, false)
  {
    if src.Buffered? {
      ViewIsValid(src.results.Field(src.field), src.results.Delivered(src.field), src.results.meta[src.field].ctype, target);
    }
  }

  /** The driver gets through the rest of n bytes that did not fit the initial length. */
  predicate GetsThrough(n: nat, reports: seq<bool>) {
    reports != [] && (reports[0] || LateTotal(n, reports) || Doublings(INITIAL_LOB_FIELD_LEN, n) <= |reports|)
  }

  /** A read from memory: exactly when the process dies, when memory behind the block is written, and when the pieces make up
      the field. The first piece has to have the initial length, the terminator behind it included. */
  predicate MemoryAnswers(res: FieldResult, text: seq<byte>, sizes: Sizes, unit: Unit, hex: bool) {
    && !res.Failure? && (res.Dies? <==> !hex && sizes.RoomBelowTerminator()) && (res.Corrupts? <==> hex && sizes.StartsOutside())
    && (res == Value(text) <==> sizes.FitsAtOnce() || sizes.FirstIsInitial(unit))
  }

  /** A read from the driver: exactly when it fails and what comes out for the length; and, for a value that fits its first
      room or a room of the initial length, exactly when the pieces make up the field, which the driver must not name a total
      for late. */
  predicate DriverAnswers(res: FieldResult, data: seq<byte>, room: nat, extra: nat, reports: seq<bool>) {
    var n := |data|;
    && (res.Failure? || res.Value?)
    && DriverLength(n, room, extra, reports) == (if res.Value? then Wrappers.Some(|res.bytes|) else Wrappers.None)
    && (n <= room || room == INITIAL_FIELD_STRING_LEN ==>
          && (res.Failure? <==> n > room && !GetsThrough(n, reports))
          && (res.Value? ==> (res == Value(data) <==> n <= room || !LateTotal(n, reports))))
  }

  /** A value that is read with the terminator it is kept with comes out whole when it fits the size described for it, and
      from memory when it is long or has no described size. */
  predicate DescribedIsWhole(res: FieldResult, text: seq<byte>, extra: nat, asked: nat, displaySize: nat, isLong: bool, buffered: bool) {
    extra == asked ==>
      && (!isLong && 0 < displaySize && |text| <= displaySize ==> res == Value(text))
      && (buffered && (isLong || displaySize == 0) ==> res == Value(text))
  }

  lemma WholeInMemory(text: seq<byte>, extra: nat, asked: nat, displaySize: nat, isLong: bool, unit: Unit, hex: bool)
    ensures forall res :: MemoryAnswers(res, text, Sizes(|text|, FirstRoom(displaySize, isLong), extra, asked), unit, hex) ==>
                     DescribedIsWhole(res, text, extra, asked, displaySize, isLong, true)
  {
  }

  lemma WholeFromDriver(data: seq<byte>, extra: nat, displaySize: nat, isLong: bool, reports: seq<bool>)
    ensures forall res :: DriverAnswers(res, data, FirstRoom(displaySize, isLong), extra, reports) ==>
                     DescribedIsWhole(res, data, extra, extra, displaySize, isLong, false)
  {
    hide GetsThrough, LateTotal;
  }

  /** The first read settles it. */
  lemma AnsweredAtOnce(data: seq<byte>, room: nat, extra: nat, reports: seq<bool>)
    ensures |data| <= room ==> DriverAnswers(Value(data), data, room, extra, reports)
    ensures |data| > room && reports == [] ==> DriverAnswers(Failure, data, room, extra, reports)
  {
  }

  lemma MemoryAnsweredAtOnce(text: seq<byte>, sizes: Sizes, unit: Unit, hex: bool)
    ensures sizes.FitsAtOnce() ==> MemoryAnswers(Value(text), text, sizes, unit, hex)
    ensures sizes.room + sizes.asked < sizes.extra && !hex ==> MemoryAnswers(Dies, text, sizes, unit, hex)
  {
  }

  /** The second read from memory. */
  lemma MemoryAnsweredLater(res: FieldResult, text: seq<byte>, sizes: Sizes, unit: Unit, hex: bool)
    requires !sizes.FitsAtOnce() && sizes.extra <= sizes.room + sizes.asked && sizes.n == |text| && !res.Failure?
    requires res.Dies? <==> !hex && sizes.n + PADDING < INITIAL_FIELD_STRING_LEN + sizes.extra
    requires res.Corrupts? <==> hex && sizes.n + PADDING < INITIAL_FIELD_STRING_LEN
    requires res == Value(text) <==> sizes.FirstIsInitial(unit)
    ensures MemoryAnswers(res, text, sizes, unit, hex)
  {
  }

  /** How a driver gets through what did not fit the initial length. */
  lemma ThroughByDoubling(data: seq<byte>, reports: seq<bool>)
    ensures reports != [] && !reports[0] ==>
              (GetsThrough(|data|, reports) <==>
                 LateTotal(|data|, reports) || Doublings(INITIAL_LOB_FIELD_LEN, |data|) <= |reports|)
    ensures reports != [] && reports[0] ==> GetsThrough(|data|, reports)
    ensures reports == [] ==> !GetsThrough(|data|, reports)
  {
  }

  /** What follows a first read that was cut off, with the total that it named. */
  method ReadOn(src: Source, target: CType, first: array<byte>, named: int) returns (res: FieldResult)
    requires src.Valid(target) && target.IsString() && src.Look(target).Valid() && first !in src.Repr()
    requires var v := src.Look(target);
             && !v.isNull && v.pos < |v.text| && v.pos <= first.Length && first[..v.pos] == v.text[..v.pos]
             && (named == |v.text| || (src.Direct? && named == SQL_NO_TOTAL))
             && (src.Direct? ==> src.column.cuts == 1 && (named == SQL_NO_TOTAL <==> !src.column.reports[0]))
    modifies src.Repr()
    ensures !res.NullField? && !res.NoMoreData?
    ensures var v := old(src.Look(target));
            src.Buffered? ==>
              && !res.Failure?
              && (res.Dies? <==> !v.hex && |v.text| + PADDING < INITIAL_FIELD_STRING_LEN + v.extra)
              && (res.Corrupts? <==> v.hex && |v.text| + PADDING < INITIAL_FIELD_STRING_LEN)
              && (res == Value(v.text) <==> v.pos == INITIAL_FIELD_STRING_LEN)
    ensures src.Direct? ==>
              DriverAnswers(res, src.column.data, old(src.Look(target)).pos, old(src.Look(target)).extra, src.column.reports)
  {
    hide Source.Valid, Source.Look, LateTotal, GetsThrough, RestLength, Doubled;
    ghost var v := src.Look(target);
    SourceFacts(src, target);
    if src.Direct? {
      ThroughByDoubling(v.text, src.column.reports);
    }
    var buffer, length;
    if named == SQL_NO_TOTAL {
      var ok;
      ok, buffer, length := ReadByDoubling(src.column, first);
      return if ok then Value(buffer[..length]) else Failure;
    }
    if src.Direct? {
      NamedAtFirst(named, src.column.reports);
    }
    var r;
    r, buffer, length := ReadRest(src, target, first, named);
    if r == SqlError {
      return Failure;
    }
    if r == AssertionFails {
      return Dies;
    }
    if r == WritesOutside {
      return Corrupts;
    }
    return Value(buffer[..length]);
  }

  /** get_field_as_string, for a field that has not been read. */
  method GetFieldAsString(src: Source, target: CType, displaySize: nat, isLong: bool) returns (res: FieldResult)
    requires src.Valid(target) && target.IsString() && src.Look(target).pos == 0 && (src.Direct? ==> src.column.cuts == 0)
    modifies src.Repr()
    ensures res.NullField? <==> old(src.Look(target)).isNull
    ensures !res.NoMoreData?
    ensures var v := old(src.Look(target));
            var sizes := SizesOf(v, target, FirstRoom(displaySize, isLong));
            src.Buffered? && !v.isNull ==>
              MemoryAnswers(res, v.text, sizes, v.unit, v.hex)
    ensures src.Direct? && !old(src.Look(target)).isNull ==>
              DriverAnswers(res, src.column.data, FirstRoom(displaySize, isLong), src.column.extra, src.column.reports)
    ensures var v := old(src.Look(target));
            !v.isNull ==> DescribedIsWhole(res, v.text, v.extra, target.Extra(), displaySize, isLong, src.Buffered?)
  {
    hide Source.Valid, Source.Look, Sizes.FirstIsInitial, DriverAnswers, MemoryAnswers, Sizes.FitsAtOnce, FirstRoom, DescribedIsWhole;
    ghost var v, reports := src.Look(target), if src.Direct? then src.column.reports else [];
    SourceFacts(src, target);
    WholeInMemory(v.text, v.extra, target.Extra(), displaySize, isLong, v.unit, v.hex);
    WholeFromDriver(v.text, v.extra, displaySize, isLong, reports);
    var room := FirstRoom(displaySize, isLong);
    AnsweredAtOnce(v.text, room, v.extra, reports);
    MemoryAnsweredAtOnce(v.text, SizesOf(v, target, room), v.unit, v.hex);
    var r, buffer, length := ReadFirst(src, target, room);
    if r == NoData {
      return NoMoreData;
    }
    if r == SqlError {
      return Failure;
    }
    if r == AssertionFails {
      return Dies;
    }
    if length == SQL_NULL_DATA {
      return NullField;
    }
    if r == Truncated {
      res := ReadOn(src, target, buffer, length);
      if src.Buffered? {
        MemoryAnsweredLater(res, v.text, SizesOf(v, target, room), v.unit, v.hex);
      }
    } else {
      res := Value(buffer[..length]);
    }
  }

  /** The first read, into a block of the first room. */
  method ReadFirst(src: Source, target: CType, room: nat) returns (r: SqlReturn, buffer: array<byte>, length: int)
    requires src.Valid(target) && target.IsString() && src.Look(target).pos == 0 && (src.Direct? ==> src.column.cuts == 0)
    modifies src.Repr()
    ensures fresh(buffer) && r != NoData && r != WritesOutside
    ensures var v := old(src.Look(target));
            var sizes := SizesOf(v, target, room);
            && (r == SqlError ==> src.Direct? && !v.isNull && |v.text| > room && src.column.reports == [])
            && (r == AssertionFails ==> src.Buffered? && !v.isNull && !v.hex && room + target.Extra() < v.extra)
            && (r == Success && v.isNull ==> length == SQL_NULL_DATA)
            && (r == Success && !v.isNull ==>
                  && length == |v.text| <= buffer.Length && buffer[..length] == v.text && sizes.FitsAtOnce()
                  && (src.Direct? ==> |v.text| <= room))
            && (r == Truncated ==>
                  && src.Valid(target) && !v.isNull && !sizes.FitsAtOnce() && v.extra <= room + target.Extra()
                  && (length == |v.text| || (src.Direct? && length == SQL_NO_TOTAL))
                  && (src.Direct? ==> src.column.cuts == 1 <= |src.column.reports| && (length == SQL_NO_TOTAL <==> !src.column.reports[0]))
                  && var w := src.Look(target);
                     && w == v.(pos := w.pos) && w.Valid() && w.pos < |v.text| && w.pos <= buffer.Length
                     && buffer[..w.pos] == v.text[..w.pos] && (src.Direct? ==> w.pos == room)
                     && (sizes.FirstIsInitial(v.unit) <==> w.pos == INITIAL_FIELD_STRING_LEN))
  {
    hide Source.Valid, Source.Look, Reads, Sizes.FirstIsInitial, View.Piece;
    ghost var v := src.Look(target);
    SourceFacts(src, target);
    var capacity := room + target.Extra();
    buffer := new byte[capacity + 1](_ => 0);
    r, length := Pull(src, target, buffer, 0, capacity);
    if (r == Success || r == Truncated) && length != SQL_NULL_DATA {
      FirstRead(v, if r == Truncated then src.Look(target) else v, target, room, r, buffer[0..0 + capacity]);
      if r == Truncated {
        SourceFacts(src, target);
        ghost var piece := src.Look(target).pos;
        assert buffer[..piece] == buffer[0..0 + capacity][..piece];
      } else {
        assert buffer[..length] == buffer[0..0 + capacity][..length];
      }
    }
  }

  /** The first read, in terms of the sizes. */
  lemma FirstRead(v: View, w: View, target: CType, room: nat, r: SqlReturn, chunk: seq<byte>)
    requires v.Valid() && v.pos == 0 && v.extra <= room + target.Extra() && Reads(v, w, room + target.Extra() - v.extra, r, chunk)
    ensures var sizes := SizesOf(v, target, room);
            && (r == Success <==> sizes.FitsAtOnce()) && (r == Success || r == Truncated)
            && (r == Success ==> |v.text| <= |chunk| && chunk[..|v.text|] == v.text)
            && (r == Truncated ==>
                  && w == v.(pos := w.pos) && w.pos <= |chunk| && w.pos < |v.text| && chunk[..w.pos] == v.text[..w.pos]
                  && (sizes.FirstIsInitial(v.unit) <==> w.pos == INITIAL_FIELD_STRING_LEN)
                  && (v.unit == 1 ==> w.pos == room + target.Extra() - v.extra))
  {
    assert v.text[0..] == v.text;
  }
}
