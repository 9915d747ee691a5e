/**
 The ODBC driver as the shared core sees it: SQLGetData on one column of the current row.
 A call continues where the last one stopped; a call that is cut off returns 01004 and either the
 length that was left before the call or SQL_NO_TOTAL.
 */
module Odbc {
  import opened Bytes

  const SQL_NULL_DATA := -1
  const SQL_NO_TOTAL := -4

  /** The answers of a read. The last two are no answers: an assertion of the extension ends the process, or memory
      behind the block is written. */
  datatype SqlReturn = Success | Truncated | NoData | SqlError | AssertionFails | WritesOutside

  /** C data types; the size of the terminator the driver writes behind the data. */
  datatype CType = CChar | CWChar | CBinary | CLong | CDouble {
    function Extra(): nat {
      match this
      case CChar => 1
      case CWChar => 2
      case _ => 0
    }

    predicate IsString() {
      CChar? || CWChar? || CBinary?
    }
  }

  /** What one call delivers. */
  datatype Served = Served(chunk: seq<byte>, r: SqlReturn, length: int)

  /** One call for at most capacity bytes, the terminator included, with pos bytes already delivered. */
  function Serve(data: seq<byte>, pos: nat, extra: nat, capacity: nat, reportTotal: bool): (s: Served)
    requires pos <= |data| && extra <= capacity
    ensures |s.chunk| + extra <= capacity && pos + |s.chunk| <= |data|
    ensures s.chunk == data[pos..pos + |s.chunk|] && s.r == (if |data| - pos + extra <= capacity then Success else Truncated)
  {
    var left := |data| - pos;
    if left + extra <= capacity then Served(data[pos..], Success, left)
    else Served(data[pos..pos + capacity - extra], Truncated, if reportTotal then left else SQL_NO_TOTAL)
  }

  /** A column of the current row. reports says, for each cut-off call in turn, whether the driver
      knows the total; after that many cut-off calls the connection fails. */
  class Column {
    const isNull: bool
    const data: seq<byte>
    const extra: nat
    const reports: seq<bool>
    var pos: nat
    var cuts: nat
    var done: bool

    constructor (isNull: bool, data: seq<byte>, extra: nat, reports: seq<bool>)
      ensures this.isNull == isNull && this.data == data && this.extra == extra && this.reports == reports
      ensures pos == 0 && cuts == 0 && !done
    {
      this.isNull, this.data, this.extra, this.reports := isNull, data, extra, reports;
      pos, cuts, done := 0, 0, false;
    }

    ghost predicate Valid()
      reads this
    {
      pos <= |data| && cuts <= |reports|
    }

    /** How many bytes the next call writes: its data and the terminator. */
    function Written(capacity: int): (w: nat)
      requires Valid()
      reads this
      ensures capacity >= 0 ==> w <= capacity
    {
      if capacity < extra || isNull || done then 0
      else |Serve(data, pos, extra, capacity, false).chunk| + extra
    }

    /** SQLGetData with a buffer said to hold capacity bytes at buffer[at]. */
    method GetData(buffer: array<byte>, at: nat, capacity: int) returns (r: SqlReturn, length: int)
      requires Valid() && (capacity < extra || isNull || done || at + Written(capacity) <= buffer.Length)
      modifies this, buffer
      ensures Valid()
      ensures forall i :: 0 <= i < buffer.Length && !(at <= i < at + old(Written(capacity))) ==> buffer[i] == old(buffer[i])
      ensures capacity < extra ==> r == SqlError && pos == old(pos) && cuts == old(cuts)
      ensures capacity >= extra && isNull ==> r == Success && length == SQL_NULL_DATA
      ensures capacity >= extra && !isNull && old(done) ==> r == NoData
      ensures capacity >= extra && !isNull && !old(done) ==>
                var s := Serve(data, old(pos), extra, capacity, old(cuts) < |reports| && reports[old(cuts)]);
                if s.r == Truncated && old(cuts) == |reports| then r == SqlError && pos == old(pos) && cuts == old(cuts)
                else
                  && r == s.r && length == s.length && pos == old(pos) + |s.chunk|
                  && done == (r == Success)
                  && cuts == old(cuts) + (if r == Truncated then 1 else 0)
                  && buffer[at..at + |s.chunk|] == s.chunk
    {
      length := 0;
      if capacity < extra {
        return SqlError, 0;
      }
      if isNull {
        return Success, SQL_NULL_DATA;
      }
      if done {
        return NoData, 0;
      }
      var s := Serve(data, pos, extra, capacity, cuts < |reports| && reports[cuts]);
      if s.r == Truncated && cuts == |reports| {
        return SqlError, 0;
      }
      forall i | 0 <= i < |s.chunk| {
        buffer[at + i] := s.chunk[i];
      }
      forall i | 0 <= i < extra {
        buffer[at + |s.chunk| + i] := 0;
      }
      r, length := s.r, s.length;
      pos := pos + |s.chunk|;
      done := r == Success;
      cuts := cuts + if r == Truncated then 1 else 0;
    }
  }
}
