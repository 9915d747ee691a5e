/**
 Reading a LOB column into memory while a result set is being buffered (core_results.cpp, read_lob_field).
 The buffer starts with the field's length and is doubled, or sized by the driver's total, until it holds the field.
 */
module LobReading {
  import opened Bytes
  import opened Odbc

  const INITIAL_LOB_FIELD_LEN := 2048

  datatype LobResult = NullLob | Lob(buffer: array<byte>) | OverLimit | DriverFailed

  /** The field in memory: its length in the first word, its bytes behind it. */
  predicate HoldsField(memory: seq<byte>, data: seq<byte>) {
    && WORD_SIZE + |data| <= |memory|
    && DecodeLength(memory[..WORD_SIZE]) == |data|
    && memory[WORD_SIZE..WORD_SIZE + |data|] == data
  }

  /** The size of the block after the given number of doublings. */
  function BlockAfter(doublings: nat): (size: nat)
    ensures size > 0
  {
    if doublings == 0 then INITIAL_LOB_FIELD_LEN else 2 * BlockAfter(doublings - 1)
  }

  /** The first cut-off call that names the total. */
  function FirstNamed(reports: seq<bool>): (i: nat)
    ensures i <= |reports| && (i < |reports| ==> reports[i]) && forall k :: 0 <= k < i ==> !reports[k]
  {
    if reports == [] || reports[0] then 0 else 1 + FirstNamed(reports[1..])
  }

  /** A field of n bytes is cut off without a total at first, and the driver names a total at a later cut. */
  predicate LateTotal(n: nat, reports: seq<bool>) {
    var i := FirstNamed(reports);
    0 < i < |reports| && BlockAfter(i) < n
  }

  /** How many bytes of a LOB the length word counts: a total that is named late is taken for the whole. */
  function KeptLength(n: nat, reports: seq<bool>): (kept: nat)
    ensures if LateTotal(n, reports) then kept < n else kept == n
  {
    if LateTotal(n, reports) then n - BlockAfter(FirstNamed(reports) - 1) else n
  }

  lemma {:induction false} BlocksGrow(i: nat, j: nat)
    requires i <= j
    ensures BlockAfter(i) <= BlockAfter(j)
  {
    if i < j {
      BlocksGrow(i, j - 1);
    }
  }

  function DoubledTo(capacity: nat, n: nat): (c: nat)
    requires capacity > 0
    ensures capacity <= c && n <= c
    decreases n - capacity
  {
    if n <= capacity then capacity else DoubledTo(2 * capacity, n)
  }

  /** How often a block is doubled until it holds n bytes. */
  function Doublings(capacity: nat, n: nat): nat
    requires capacity > 0
    decreases n - capacity
  {
    if n <= capacity then 0 else 1 + Doublings(2 * capacity, n)
  }

  /** As long as the block before is too small, each doubling counts. */
  lemma {:induction false} DoublingsSoFar(n: nat, k: nat)
    requires k > 0 ==> BlockAfter(k - 1) < n
    ensures Doublings(INITIAL_LOB_FIELD_LEN, n) == k + Doublings(BlockAfter(k), n)
  {
    if k > 0 {
      BlocksGrow(if k > 1 then k - 2 else 0, k - 1);
      DoublingsSoFar(n, k - 1);
    }
  }

  /** What is checked against the memory limit for a LOB of n bytes, in the end. */
  function Demand(n: nat, reports: seq<bool>): nat {
    if n <= INITIAL_LOB_FIELD_LEN || (reports != [] && reports[0]) then n
    else if LateTotal(n, reports) then 2 * KeptLength(n, reports)
    else DoubledTo(INITIAL_LOB_FIELD_LEN, n)
  }

  /** The driver gets through the field. When it names a total late, the block must not have become smaller than what
      was read, and the next cut must be one without a total. */
  predicate CanBeRead(n: nat, reports: seq<bool>) {
    if LateTotal(n, reports) then
      var i := FirstNamed(reports);
      BlockAfter(i) <= KeptLength(n, reports) && i + 1 < |reports| && !reports[i + 1]
    else n <= INITIAL_LOB_FIELD_LEN || (reports != [] && reports[0]) || Doublings(INITIAL_LOB_FIELD_LEN, n) <= |reports|
  }

  /** realloc: a block of the new size that keeps what fits. */
  method Resize(buffer: array<byte>, size: nat) returns (bigger: array<byte>)
    ensures fresh(bigger) && bigger.Length == size
    ensures forall i :: 0 <= i < size && i < buffer.Length ==> bigger[i] == buffer[i]
  {
    bigger := new byte[size](i => 0);
    forall i | 0 <= i < size && i < buffer.Length {
      bigger[i] := buffer[i];
    }
  }

  method WriteLength(buffer: array<byte>, at: nat, n: int)
    requires at + WORD_SIZE <= buffer.Length && -MAX_LENGTH <= n < MAX_LENGTH
    modifies buffer
    ensures buffer[at..at + WORD_SIZE] == EncodeLength(n)
    ensures forall i :: 0 <= i < buffer.Length && !(at <= i < at + WORD_SIZE) ==> buffer[i] == old(buffer[i])
  {
    var word := EncodeLength(n);
    forall i | 0 <= i < WORD_SIZE {
      buffer[at + i] := word[i];
    }
  }

  /** What the loop has come to: no total yet, the total named at the first cut, or a total named late and then one
      more cut without or with a total. */
  datatype Stage = Doubling | Full | Late | LateDoubled | LateAgain

  /** The sizes between two calls; recorded is what is in the length word. */
  predicate InStep(n: nat, reports: seq<bool>, stage: Stage, cuts: nat, alreadyRead: nat, toRead: nat, recorded: nat) {
    var i, kept := FirstNamed(reports), KeptLength(n, reports);
    && cuts <= |reports|
    && match stage
       case Doubling =>
         && cuts <= i && toRead == BlockAfter(cuts)
         && DoubledTo(INITIAL_LOB_FIELD_LEN, n) == DoubledTo(toRead, n)
         && Doublings(INITIAL_LOB_FIELD_LEN, n) == cuts + Doublings(toRead, n)
         && (cuts == 0 ==> alreadyRead == 0 && toRead == INITIAL_LOB_FIELD_LEN)
         && (cuts > 0 ==> alreadyRead == BlockAfter(cuts - 1) < n && INITIAL_LOB_FIELD_LEN < n)
       case Full => cuts == 1 && i == 0 && toRead == recorded == n && alreadyRead == INITIAL_LOB_FIELD_LEN < n
       case Late => LateTotal(n, reports) && cuts == i + 1 && alreadyRead == BlockAfter(i) && toRead == recorded == kept
       case LateDoubled =>
         && LateTotal(n, reports) && cuts == i + 2 && !reports[i + 1] && BlockAfter(i) <= kept
         && alreadyRead == recorded == kept && toRead == 2 * kept
       case LateAgain =>
         LateTotal(n, reports) && cuts == i + 2 && reports[i + 1] && BlockAfter(i) <= kept && toRead < alreadyRead == kept
  }

  function NextStage(reports: seq<bool>, stage: Stage, cuts: nat): Stage
    requires cuts < |reports|
  {
    if stage.Doubling? then (if !reports[cuts] then Doubling else if cuts == 0 then Full else Late)
    else if reports[cuts] then LateAgain else LateDoubled
  }

  lemma StartsInStep(n: nat, reports: seq<bool>)
    ensures InStep(n, reports, Doubling, 0, 0, INITIAL_LOB_FIELD_LEN, 0)
  {
  }

  lemma LateSizes(n: nat, reports: seq<bool>)
    requires LateTotal(n, reports)
    ensures var i := FirstNamed(reports);
            && BlockAfter(i) == 2 * BlockAfter(i - 1) < n < 2 * KeptLength(n, reports) == Demand(n, reports)
            && INITIAL_LOB_FIELD_LEN <= BlockAfter(i - 1)
  {
    BlocksGrow(0, FirstNamed(reports) - 1);
  }

  /** A cut-off call: the next size, which stays within the demand. */
  lemma StaysInStep(n: nat, reports: seq<bool>, stage: Stage, cuts: nat, alreadyRead: nat, toRead: nat, recorded: nat)
    requires InStep(n, reports, stage, cuts, alreadyRead, toRead, recorded) && alreadyRead <= toRead < n && cuts < |reports|
    ensures var next := if reports[cuts] then n - alreadyRead else 2 * toRead;
            && next <= Demand(n, reports)
            && InStep(n, reports, NextStage(reports, stage, cuts), cuts + 1, toRead, next, if reports[cuts] then next else recorded)
  {
    if stage.Doubling? && cuts > 0 && reports[cuts] {
      assert LateTotal(n, reports);
    }
    if LateTotal(n, reports) {
      LateSizes(n, reports);
      if stage.Doubling? && !reports[cuts] {
        BlocksGrow(cuts + 1, FirstNamed(reports));
      }
    }
    if stage.Doubling? {
      BlocksGrow(0, cuts);
    }
  }

  /** A field that fits has been read whole, and the demand is met. */
  lemma EndsInStep(n: nat, reports: seq<bool>, stage: Stage, cuts: nat, alreadyRead: nat, toRead: nat, recorded: nat)
    requires InStep(n, reports, stage, cuts, alreadyRead, toRead, recorded) && alreadyRead <= toRead && n <= toRead
    ensures CanBeRead(n, reports) && Demand(n, reports) == (if cuts > 0 then toRead else n)
    ensures KeptLength(n, reports) == if stage.Doubling? then n else recorded
  {
    if LateTotal(n, reports) {
      LateSizes(n, reports);
      if stage.Doubling? {
        BlocksGrow(cuts, FirstNamed(reports));
      }
    }
  }

  /** A call fails only if the field cannot be read. */
  lemma FailsInStep(n: nat, reports: seq<bool>, stage: Stage, cuts: nat, alreadyRead: nat, toRead: nat, recorded: nat)
    requires InStep(n, reports, stage, cuts, alreadyRead, toRead, recorded)
    requires toRead < alreadyRead || (cuts == |reports| && toRead < n)
    ensures !CanBeRead(n, reports)
  {
    if LateTotal(n, reports) {
      LateSizes(n, reports);
    }
    if stage.Doubling? {
      BlocksGrow(0, cuts);
    }
  }

  /** The first k bytes of the field are in the block. */
  predicate Filled(memory: seq<byte>, data: seq<byte>, k: nat) {
    k <= |data| && WORD_SIZE + k <= |memory| && memory[WORD_SIZE..WORD_SIZE + k] == data[..k]
  }

  /** A read that continues where the block ends fills more of it. */
  lemma FilledMore(before: seq<byte>, after: seq<byte>, data: seq<byte>, k: nat, m: nat)
    requires Filled(before, data, k) && |after| == |before| && k <= m <= |data| && WORD_SIZE + m <= |after|
    requires forall i :: 0 <= i < WORD_SIZE + k ==> after[i] == before[i]
    requires after[k + WORD_SIZE..m + WORD_SIZE] == data[k..m]
    ensures Filled(after, data, m)
    ensures after[..WORD_SIZE] == before[..WORD_SIZE]
  {
    assert after[WORD_SIZE..WORD_SIZE + k] == before[WORD_SIZE..WORD_SIZE + k];
    assert after[WORD_SIZE..WORD_SIZE + m] == after[WORD_SIZE..WORD_SIZE + k] + after[k + WORD_SIZE..m + WORD_SIZE];
    assert data[..m] == data[..k] + data[k..m];
  }

  lemma FilledKept(before: seq<byte>, after: seq<byte>, data: seq<byte>, k: nat)
    requires Filled(before, data, k) && WORD_SIZE + k <= |after|
    requires forall i :: WORD_SIZE <= i < |before| && i < |after| ==> after[i] == before[i]
    ensures Filled(after, data, k)
  {
    assert after[WORD_SIZE..WORD_SIZE + k] == before[WORD_SIZE..WORD_SIZE + k];
  }

  /** A block that is filled holds as much of the field as its length word counts. */
  lemma FilledHolds(memory: seq<byte>, data: seq<byte>, kept: nat)
    requires Filled(memory, data, |data|) && kept <= |data| < MAX_LENGTH
    requires memory[..WORD_SIZE] == EncodeLength(kept)
    ensures HoldsField(memory, data[..kept])
  {
    hide Decode, Encode;
    DecodeEncodeLength(kept);
    assert data[..|data|] == data;
    assert memory[WORD_SIZE..WORD_SIZE + kept] == memory[WORD_SIZE..WORD_SIZE + |data|][..kept];
  }

  /** The branch of the loop after a cut-off call: size the block by the total, or double it. */
  method Grow(buffer: array<byte>, toRead: nat, extra: nat, lastFieldLen: int, memUsed: nat, memLimit: nat,
              ghost data: seq<byte>, ghost k: nat)
    returns (ok: bool, bigger: array<byte>, newToRead: nat)
    requires lastFieldLen == SQL_NO_TOTAL || 0 <= lastFieldLen < MAX_LENGTH
    requires buffer.Length == toRead + extra + WORD_SIZE
    ensures newToRead == if lastFieldLen == SQL_NO_TOTAL then 2 * toRead else lastFieldLen
    ensures ok <==> memUsed + newToRead <= memLimit
    ensures ok ==>
              && fresh(bigger) && bigger.Length == newToRead + extra + WORD_SIZE
              && bigger[..WORD_SIZE] == (if lastFieldLen == SQL_NO_TOTAL then buffer[..WORD_SIZE] else EncodeLength(lastFieldLen))
              && (Filled(buffer[..], data, k) && k <= newToRead ==> Filled(bigger[..], data, k))
  {
    hide EncodeLength, Filled;
    bigger := buffer;
    if lastFieldLen != SQL_NO_TOTAL {
      newToRead := lastFieldLen;
      ok := memUsed + lastFieldLen <= memLimit;
      if ok {
        bigger := Resize(buffer, newToRead + extra + WORD_SIZE);
        WriteLength(bigger, 0, lastFieldLen);
      }
    } else {
      newToRead := toRead * 2;
      ok := memUsed + newToRead <= memLimit;
      if ok {
        bigger := Resize(buffer, newToRead + extra + WORD_SIZE);
      }
    }
    if ok && Filled(buffer[..], data, k) && k <= newToRead {
      FilledKept(buffer[..], bigger[..], data, k);
    }
  }

  /** The next call of SQLGetData, into the block behind what was read before. */
  method ReadMore(column: Column, buffer: array<byte>, alreadyRead: nat, toRead: nat) returns (r: SqlReturn, length: int)
    requires column.Valid() && !column.done && buffer.Length == toRead + column.extra + WORD_SIZE
    requires alreadyRead == column.pos
    modifies column, buffer
    ensures column.Valid() && buffer[..WORD_SIZE] == old(buffer[..WORD_SIZE])
    ensures r == SqlError ==>
              && column.cuts == old(column.cuts)
              && (old(column.pos) <= toRead ==> !column.isNull && column.cuts == |column.reports| && toRead < |column.data|)
    ensures r != SqlError ==> old(column.pos) <= toRead && (r == Success || r == Truncated)
    ensures r != SqlError && column.isNull ==> length == SQL_NULL_DATA
    ensures r != SqlError && !column.isNull ==>
              && (r == Success <==> |column.data| <= toRead) && column.done == (r == Success)
              && (old(Filled(buffer[..], column.data, column.pos)) ==> Filled(buffer[..], column.data, column.pos))
              && column.pos == (if r == Success then |column.data| else toRead)
              && column.cuts == old(column.cuts) + (if r == Success then 0 else 1)
              && length == if r == Success || column.reports[old(column.cuts)] then |column.data| - old(column.pos) else SQL_NO_TOTAL
  {
    hide Filled;
    ghost var k, before := alreadyRead, buffer[..];
    r, length := column.GetData(buffer, alreadyRead + WORD_SIZE, toRead - alreadyRead + column.extra);
    assert buffer[..WORD_SIZE] == before[..WORD_SIZE];
    if r != SqlError && !column.isNull && Filled(before, column.data, k) {
      FilledMore(before, buffer[..], column.data, k, column.pos);
    }
  }

  /** read_lob_field. A field that can be read within the limit comes out, whole if no total was named late. */
  method ReadLobField(column: Column, memUsed: nat, memLimit: nat) returns (res: LobResult)
    requires column.Valid() && column.pos == 0 && column.cuts == 0 && !column.done
    requires column.extra <= 2 && |column.data| < MAX_LENGTH
    modifies column
    ensures column.Valid() && (res.Lob? ==> fresh(res.buffer))
    ensures res.NullLob? <==> column.isNull
    ensures !column.isNull ==>
              var n, reports := |column.data|, column.reports;
              && (res.Lob? <==> CanBeRead(n, reports) && memUsed + Demand(n, reports) <= memLimit)
              && (res.DriverFailed? ==> !CanBeRead(n, reports))
              && (res.OverLimit? ==> memUsed + Demand(n, reports) > memLimit)
    ensures res.Lob? ==> HoldsField(res.buffer[..], column.data[..KeptLength(|column.data|, column.reports)])
  {
    hide InStep, Demand, LateTotal, KeptLength, BlockAfter, HoldsField, EncodeLength, DecodeLength, Filled, CanBeRead, NextStage;
    ghost var n, reports, stage, recorded := |column.data|, column.reports, Doubling, 0;
    var alreadyRead, toRead, fullLengthReturned := 0, INITIAL_LOB_FIELD_LEN, false;
    var buffer := new byte[INITIAL_LOB_FIELD_LEN + column.extra + WORD_SIZE](i => 0);
    var lastFieldLen := 0;
    StartsInStep(n, reports);
    NothingFilled(buffer[..], column.data);
    while true
      invariant column.Valid() && fresh(buffer) && !column.done
      invariant 0 <= recorded <= n && (fullLengthReturned <==> !stage.Doubling?)
      invariant 0 <= toRead && buffer.Length == toRead + column.extra + WORD_SIZE
      invariant alreadyRead == column.pos && (column.cuts > 0 ==> !column.isNull && memUsed + toRead <= memLimit)
      invariant column.cuts == 0 ==> alreadyRead == 0 && toRead == INITIAL_LOB_FIELD_LEN
      invariant InStep(n, reports, stage, column.cuts, alreadyRead, toRead, recorded)
      invariant alreadyRead <= toRead ==> Filled(buffer[..], column.data, alreadyRead)
      invariant fullLengthReturned ==> buffer[..WORD_SIZE] == EncodeLength(recorded)
      decreases |reports| - column.cuts
    {
      ghost var cuts := column.cuts;
      var r;
      r, lastFieldLen := ReadMore(column, buffer, alreadyRead, toRead);
      if r == SqlError || r == NoData {
        FailsInStep(n, reports, stage, cuts, alreadyRead, toRead, recorded);
        return DriverFailed;
      }
      if lastFieldLen == SQL_NULL_DATA {
        return NullLob;
      }
      if r == Success {
        EndsInStep(n, reports, stage, cuts, alreadyRead, toRead, recorded);
        if memUsed + lastFieldLen > memLimit {
          return OverLimit;
        }
        break;
      }
      StaysInStep(n, reports, stage, cuts, alreadyRead, toRead, recorded);
      ghost var before := stage;
      stage := NextStage(reports, stage, cuts);
      StageIsFull(reports, before, cuts);
      alreadyRead := toRead;
      var ok;
      ok, buffer, toRead := Grow(buffer, toRead, column.extra, lastFieldLen, memUsed, memLimit, column.data, alreadyRead);
      if !ok {
        return OverLimit;
      }
      if lastFieldLen != SQL_NO_TOTAL {
        recorded := lastFieldLen;
        fullLengthReturned := true;
      }
    }
    if !fullLengthReturned {
      ghost var before := buffer[..];
      WriteLength(buffer, 0, alreadyRead + lastFieldLen);
      recorded := alreadyRead + lastFieldLen;
      FilledKept(before, buffer[..], column.data, n);
    }
    FilledHolds(buffer[..], column.data, recorded);
    return Lob(buffer);
  }

  lemma StageIsFull(reports: seq<bool>, stage: Stage, cuts: nat)
    requires cuts < |reports|
    ensures NextStage(reports, stage, cuts).Doubling? <==> stage.Doubling? && !reports[cuts]
  {
  }

  lemma NothingFilled(memory: seq<byte>, data: seq<byte>)
    requires WORD_SIZE <= |memory|
    ensures Filled(memory, data, 0)
  {
  }

  /** The block counts no more than what was checked. */
  lemma KeptWithinDemand(n: nat, reports: seq<bool>)
    ensures KeptLength(n, reports) <= Demand(n, reports)
  {
  }

  /** A total named at the second cut: 5000 bytes cannot be read, and of 10000 bytes the block counts 7952. */
  lemma LateTotalCuts()
    ensures LateTotal(5000, [false, true]) && KeptLength(5000, [false, true]) == 2952
    ensures !CanBeRead(5000, [false, true])
    ensures CanBeRead(10000, [false, true, false]) && KeptLength(10000, [false, true, false]) == 7952
  {
    assert BlockAfter(0) == 2048 && BlockAfter(1) == 4096;
    assert [false, true][1..] == [true] && [false, true, false][1..] == [true, false];
    assert FirstNamed([true]) == 0 && FirstNamed([true, false]) == 0;
    assert FirstNamed([false, true]) == 1 && FirstNamed([false, true, false]) == 1;
  }
}
