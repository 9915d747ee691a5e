/**
 The cache of a row's fields: any sequence of requests, in any order and with repeats, sees the row.
 */
module StatementFields {
  import opened Wrappers
  import opened Cursor
  import opened StatementStates
  import opened StatementSafety
  import opened StatementDanger

  function UpTo(n: nat): (s: seq<int>)
    ensures |s| == n && forall k :: 0 <= k < n ==> s[k] == k
  {
    if n == 0 then [] else UpTo(n - 1) + [n - 1]
  }

  /** The statement is on a row whose fields up to the last one read are exactly those in the cache. */
  ghost predicate OnRow(s: State, row: seq<Field>) {
    && s.executed && s.fetchCalled && s.results.Some? && CurrentRow(s) == Some(row) && |row| == s.described
    && s.lastFieldIndex < |row| && (forall i :: i in s.fieldCache <==> 0 <= i <= s.lastFieldIndex)
    && (forall i :: 0 <= i <= s.lastFieldIndex ==> row[i] == Good(s.fieldCache[i]))
    && s.delivered == UpTo(s.lastFieldIndex + 1)
  }

  /** A fetch that lands on a row starts with nothing read. */
  lemma FetchLandsOnRow(setup: Setup, s: State, orientation: Orientation, offset: int)
    requires Consistent(setup, s) && Fetch(setup, s, orientation, offset).1 == Yes
    ensures var t := Fetch(setup, s, orientation, offset).0;
            && t.fetchCalled && t.lastFieldIndex == -1
            && (CurrentRow(t).Some? && |CurrentRow(t).value| == t.described ==> OnRow(t, CurrentRow(t).value))
            && (CurrentRow(t).None? ==>
                  setup.buffered && s.results.value.position == 0 && orientation.Relative? && offset == 0)
  {
  }

  lemma NextField(s: State, row: seq<Field>)
    requires OnRow(s, row) && s.lastFieldIndex + 1 < |row|
    ensures var i := s.lastFieldIndex + 1;
            var read := ReadField(s, i);
            if row[i].Good? then read.1 == Value(row[i].value) && OnRow(read.0, row) && read.0.lastFieldIndex == i
            else read == (s, Error)
  {
    var i := s.lastFieldIndex + 1;
    if row[i].Good? {
      var t := ReadField(s, i).0;
      assert CurrentRow(t) == Some(row);
      assert forall k :: k in t.fieldCache <==> k in s.fieldCache || k == i;
    }
  }

  lemma {:induction false} ReadUpToSeesRow(s: State, row: seq<Field>, i: nat)
    requires OnRow(s, row) && s.lastFieldIndex < i < |row|
    ensures var t := ReadUpTo(s, s.lastFieldIndex + 1, i);
            && OnRow(t.0, row) && SameStatement(s, t.0)
            && if forall k :: s.lastFieldIndex < k <= i ==> row[k].Good?
               then t.1 == Value(row[i].value) && t.0.lastFieldIndex == i
               else t.1 == Error && s.lastFieldIndex <= t.0.lastFieldIndex < i && row[t.0.lastFieldIndex + 1].Bad?
    decreases i - s.lastFieldIndex
  {
    hide OnRow, ReadField;
    InRow(s, row);
    NextField(s, row);
    ReadKeepsStatement(s, s.lastFieldIndex + 1);
    if s.lastFieldIndex + 1 < i && row[s.lastFieldIndex + 1].Good? {
      ReadUpToSeesRow(ReadField(s, s.lastFieldIndex + 1).0, row, i);
    }
  }

  lemma InRow(s: State, row: seq<Field>)
    requires OnRow(s, row)
    ensures s.lastFieldIndex < |row| == s.described && s.lastFieldIndex + 1 !in s.fieldCache
  {
  }

  lemma ReadKeepsStatement(s: State, i: nat)
    ensures SameStatement(s, ReadField(s, i).0)
  {
  }

  /** A request for any column of the row answers with its value, unless a column that still has to be read on the way
      is one the driver cannot deliver. The driver reads the columns behind the last one, each once and in order. */
  lemma FieldSeesRow(s: State, row: seq<Field>, i: nat)
    requires OnRow(s, row) && i < |row|
    ensures var t := GetField(s, i);
            && OnRow(t.0, row) && SameStatement(s, t.0) && s.delivered <= t.0.delivered
            && if forall k :: s.lastFieldIndex < k <= i ==> row[k].Good?
               then row[i].Good? && t.1 == Value(row[i].value)
               else t.1 == Error && t.0.lastFieldIndex < i && row[t.0.lastFieldIndex + 1].Bad?
  {
    hide ReadUpTo, ReadField, CurrentRow;
    if i > s.lastFieldIndex {
      if i == s.lastFieldIndex + 1 {
        OneField(s, i);
      }
      ReadUpToSeesRow(s, row, i);
      LongerLog(s.lastFieldIndex + 1, GetField(s, i).0.lastFieldIndex + 1);
    }
  }

  lemma OneField(s: State, i: nat)
    ensures ReadUpTo(s, i, i) == ReadField(s, i)
  {
  }

  lemma {:induction false} LongerLog(m: nat, n: nat)
    requires m <= n
    ensures UpTo(m) <= UpTo(n)
  {
    if m < n {
      LongerLog(m, n - 1);
    }
  }

  /** The replies to a sequence of requests. */
  function Replies(s: State, requests: seq<nat>): seq<Reply>
    decreases |requests|
  {
    if requests == [] then [] else [GetField(s, requests[0]).1] + Replies(GetField(s, requests[0]).0, requests[1..])
  }

  /** On a row the driver can deliver, any order of requests with any repeats returns each column's value. */
  lemma {:induction false} AnyOrderSeesRow(s: State, row: seq<Field>, requests: seq<nat>)
    requires OnRow(s, row) && (forall i :: 0 <= i < |row| ==> row[i].Good?)
    requires forall k :: 0 <= k < |requests| ==> requests[k] < |row|
    ensures |Replies(s, requests)| == |requests|
    ensures forall k :: 0 <= k < |requests| ==> Replies(s, requests)[k] == Value(row[requests[k]].value)
    decreases |requests|
  {
    hide OnRow, GetField;
    if requests != [] {
      FieldSeesRow(s, row, requests[0]);
      AnyOrderSeesRow(GetField(s, requests[0]).0, row, requests[1..]);
    }
  }

  /** nextRowset keeps the field cache, whatever its outcome; only a fetch clears it. */
  lemma NextRowsetKeepsCache(setup: Setup, s: State)
    ensures NextRowset(setup, s).0.fieldCache == s.fieldCache
  {
    hide NextResult;
    NextResultKeepsCache(setup, s, !setup.batchErrorContinue, setup.batchErrorContinue);
  }

  lemma NextResultKeepsCache(setup: Setup, s: State, throwOnErrors: bool, reportErrors: bool)
    ensures NextResult(setup, s, throwOnErrors, reportErrors).0.fieldCache == s.fieldCache
  {
    hide NewResultSet;
    NewResultSetKeepsCache(setup, s.(server := MoreResults(s.server)));
  }

  lemma NewResultSetKeepsCache(setup: Setup, s: State)
    ensures NewResultSet(setup, s).0.fieldCache == s.fieldCache
  {
  }

  // ---------- a fetch that fails ----------

  lemma ReadsAlike(s: State, t: State, i: nat)
    requires t == s.(fieldCache := t.fieldCache) && s.lastFieldIndex < i
    ensures var a, b := ReadField(s, i), ReadField(t, i);
            && a.1 == b.1 && b.0 == a.0.(fieldCache := b.0.fieldCache) && (a.1.Value? ==> a.0.lastFieldIndex == i)
            && (forall k :: k in a.0.fieldCache ==> k in s.fieldCache || k == i)
            && (forall k :: k in b.0.fieldCache ==> k in t.fieldCache || k == i)
  {
    hide CurrentRow;
    if s.results.Some? {
      assert CurrentRow(s) == CurrentRow(t) by {
        SameCurrentRow(s, t);
      }
    }
  }

  lemma SameCurrentRow(s: State, t: State)
    requires s.results.Some? && t.results == s.results && t.server == s.server
    ensures CurrentRow(s) == CurrentRow(t)
  {
  }

  /** Reads behind the last field do not depend on what is cached before it. */
  lemma {:induction false} CacheDoesNotMatter(s: State, t: State, from: nat, i: nat)
    requires from <= i && t == s.(fieldCache := t.fieldCache) && s.lastFieldIndex < from
    requires forall k :: k in s.fieldCache || k in t.fieldCache ==> k < from
    ensures ReadUpTo(s, from, i).1 == ReadUpTo(t, from, i).1
    decreases i - from
  {
    hide ReadField;
    ReadsAlike(s, t, from);
    if from < i && ReadField(s, from).1.Value? {
      CacheDoesNotMatter(ReadField(s, from).0, ReadField(t, from).0, from + 1, i);
    }
  }

  /** A fetch that fails behind its checks clears the cache but keeps the last field, and the handle delivers a column
      only once: exactly the columns up to the last one read can no longer be read, and any other read answers as it did
      before. */
  lemma FailedFetchLosesFields(setup: Setup, s: State, row: seq<Field>, orientation: Orientation, offset: int, i: nat)
    requires Consistent(setup, s) && OnRow(s, row) && i < |row| && Fetch(setup, s, orientation, offset).1 == Error
    ensures GetField(Fetch(setup, s, orientation, offset).0, i).1
         == if !s.pastNextResultEnd && i <= s.lastFieldIndex then Error else GetField(s, i).1
  {
    hide Wrap, Clamp, Target, ReadUpTo, UpTo;
    if !s.pastNextResultEnd {
      var t := Fetch(setup, s, orientation, offset).0;
      assert t == s.(fieldCache := map[]) && s.results.value.Live?;
      if i > s.lastFieldIndex {
        CacheDoesNotMatter(s, t, s.lastFieldIndex + 1, i);
        if i == s.lastFieldIndex + 1 {
          OneField(s, i);
          OneField(t, i);
        }
      } else if i == s.lastFieldIndex {
        assert s.delivered[i] == i;
      }
    }
  }

  /** One row of one column, read, and read again behind a fetch that a forward-only cursor refuses. */
  lemma ColumnIsLost(value: string)
    ensures var setup := Setup(false, false, false);
            var run := [DoExecute(Rowset(1, [[Good(value)]], false), [], false), DoFetch(Next, 0), DoGetField(0), DoFetch(Prior, 0)];
            && Step(setup, Reached(setup, run[..2]), DoGetField(0)).1 == Value(value)
            && Step(setup, Reached(setup, run[..3]), DoFetch(Prior, 0)).1 == Error
            && Step(setup, Reached(setup, run), DoGetField(0)).1 == Error
  {
    var setup, row := Setup(false, false, false), [Good(value)];
    var execute := DoExecute(Rowset(1, [row], false), [], false);
    var run := [execute, DoFetch(Next, 0), DoGetField(0), DoFetch(Prior, 0)];
    TwoSteps(setup, execute, DoFetch(Next, 0));
    assert run[..2] == [execute, DoFetch(Next, 0)] && run[..3] == run[..2] + [DoGetField(0)] && run == run[..3] + [DoFetch(Prior, 0)];
    OneMore(setup, run[..2], DoGetField(0));
    OneMore(setup, run[..3], DoFetch(Prior, 0));
    hide Reached;
  }

  // ---------- over runs ----------

  /** The driver's rows have as many fields as it says there are columns. */
  ghost predicate RowsFit(o: Outcome) {
    o.Rowset? ==> forall r :: 0 <= r < |o.rows| ==> |o.rows[r]| == o.columns
  }

  ghost predicate AllFit(server: Server) {
    (server.handle.At? ==> RowsFit(server.handle.outcome)) && forall o :: o in server.remaining ==> RowsFit(o)
  }

  ghost predicate RowsOf(rows: seq<seq<Field>>, n: int) {
    forall r :: 0 <= r < |rows| ==> |rows[r]| == n
  }

  predicate AtRowset(server: Server) {
    server.handle.At? && server.handle.outcome.Rowset?
  }

  /** A statement that can be fetched from has described the columns of the rows it stands on. */
  ghost predicate CountsFit(s: State) {
    s.executed && s.results.Some? && !s.pastNextResultEnd ==>
      if s.columnCount == ACTIVE_NUM_COLS_INVALID then s.described == 0 && !s.fetchCalled && !AtRowset(s.server)
      else
        && s.described == s.columnCount && (s.fetchCalled ==> s.columnCount > 0)
        && (s.columnCount > 0 ==>
              match s.results.value
              case InMemory(rows, _) => RowsOf(rows, s.columnCount)
              case Live => AtRowset(s.server) ==> s.columnCount == s.server.handle.outcome.columns)
  }

  ghost predicate Fits(s: State) {
    CountsFit(s) && AllFit(s.server)
  }

  lemma NextResultFits(setup: Setup, s: State, throwOnErrors: bool, reportErrors: bool)
    requires AllFit(s.server)
    ensures var next := NextResult(setup, s, throwOnErrors, reportErrors);
            && AllFit(next.0.server) && next.0.executed == s.executed
            && (next.1 && Fits(s) ==> CountsFit(next.0))
            && (!next.1 && !next.0.pastNextResultEnd && next.0.results.Some? ==>
                  && next.0.columnCount == ACTIVE_NUM_COLS_INVALID && next.0.described == 0 && !next.0.fetchCalled
                  && next.0.server.handle.At?
                  && (next.0.results.value.InMemory? ==>
                        AtRowset(next.0.server) && next.0.results.value.rows == next.0.server.handle.outcome.rows))
  {
    hide NewResultSet, AllFit, CountsFit, Cancel;
    var moved := s.(server := MoreResults(s.server));
    MoreResultsFit(s.server);
    NewResultSetFits(setup, moved);
    CancelFits(setup, s);
    CancelFits(setup, moved);
    CancelFits(setup, NewResultSet(setup, moved).0);
    if s.executed && !s.pastNextResultEnd && s.server.remaining != [] && s.server.remaining[0].BatchError? && Fits(s) {
      ErrorFits(s);
    }
  }

  lemma MoreResultsFit(server: Server)
    requires AllFit(server)
    ensures AllFit(MoreResults(server))
  {
  }

  lemma CancelFits(setup: Setup, s: State)
    requires AllFit(s.server)
    ensures AllFit(Cancel(setup, s).server) && Cancel(setup, s).executed == s.executed
    ensures CountsFit(s) ==> CountsFit(Cancel(setup, s))
  {
  }

  lemma NewResultSetFits(setup: Setup, s: State)
    ensures var built := NewResultSet(setup, s);
            && built.0.executed == s.executed && built.0.server == s.server && (built.1 <==> built.0.results.None?)
            && (built.1 ==> CountsFit(built.0)) && !built.0.pastNextResultEnd
            && built.0.columnCount == ACTIVE_NUM_COLS_INVALID && built.0.described == 0 && !built.0.fetchCalled
            && (!built.1 && s.server.handle.At? && built.0.results.value.InMemory? ==>
                  AtRowset(s.server) && built.0.results.value.rows == s.server.handle.outcome.rows)
  {
  }

  /** On a batch error no columns are counted any more. */
  lemma ErrorFits(s: State)
    requires CountsFit(s) && s.executed && s.server.remaining != [] && s.server.remaining[0].BatchError?
    ensures CountsFit(s.(server := MoreResults(s.server)))
  {
  }

  lemma {:induction false} DrainFits(setup: Setup, s: State, throwOnErrors: bool)
    requires AllFit(s.server) && s.executed && (Fits(s) || MidBatch(s))
    ensures Fits(Drain(setup, s, throwOnErrors).0)
    decreases |s.server.remaining|, !s.pastNextResultEnd
  {
    hide AllFit, NextResult;
    if !s.pastNextResultEnd {
      var next := NextResult(setup, s, throwOnErrors, false);
      NextResultFits(setup, s, throwOnErrors, false);
      if MidBatch(s) {
        FailsFit(setup, s, throwOnErrors);
      }
      NextResultMoves(setup, s, throwOnErrors);
      if !next.1 {
        DrainFits(setup, next.0, throwOnErrors);
      }
    }
  }

  /** Between two outcomes of a drain. */
  predicate MidBatch(s: State) {
    s.columnCount == ACTIVE_NUM_COLS_INVALID && s.described == 0 && !s.fetchCalled
  }

  lemma FailsFit(setup: Setup, s: State, throwOnErrors: bool)
    requires s.executed && !s.pastNextResultEnd && MidBatch(s)
    ensures var next := NextResult(setup, s, throwOnErrors, false); next.1 ==> CountsFit(next.0)
  {
  }

  lemma NextResultMoves(setup: Setup, s: State, throwOnErrors: bool)
    requires s.executed && !s.pastNextResultEnd
    ensures var next := NextResult(setup, s, throwOnErrors, false);
            !next.1 && !next.0.pastNextResultEnd ==> MidBatch(next.0) && |next.0.server.remaining| < |s.server.remaining|
    ensures var next := NextResult(setup, s, throwOnErrors, false);
            !next.1 && next.0.pastNextResultEnd ==> next.0.server.remaining == s.server.remaining == []
  {
  }

  lemma NextRowsetFits(setup: Setup, s: State)
    requires Fits(s)
    ensures Fits(NextRowset(setup, s).0)
  {
    hide NextResult, AllFit;
    var next := NextResult(setup, s, !setup.batchErrorContinue, setup.batchErrorContinue);
    NextResultFits(setup, s, !setup.batchErrorContinue, setup.batchErrorContinue);
    if next.0.server.handle.At? {
      HandleFits(next.0.server);
    }
  }

  lemma HandleFits(server: Server)
    requires AllFit(server) && server.handle.At?
    ensures RowsFit(server.handle.outcome)
  {
  }

  lemma CoreExecuteFits(setup: Setup, s: State, first: Outcome, rest: seq<Outcome>, noData: bool)
    requires Fits(s) && AllFit(Server(At(first, 0), rest)) && (s.executed ==> s.pastNextResultEnd)
    ensures Fits(CoreExecute(setup, s, first, rest, noData).0)
  {
  }

  lemma ExecuteFits(setup: Setup, s: State, first: Outcome, rest: seq<Outcome>, noData: bool)
    requires Fits(s) && AllFit(Server(At(first, 0), rest))
    ensures Fits(Execute(setup, s, first, rest, noData).0)
  {
    hide CoreExecute, Drain, Fits, AllFit;
    var t := s;
    if s.executed && !s.pastNextResultEnd {
      DrainEnds(setup, s, !setup.batchErrorContinue);
      FitsAll(s);
      DrainFits(setup, s, !setup.batchErrorContinue);
      t := Drain(setup, s, !setup.batchErrorContinue).0;
    }
    if !(s.executed && !s.pastNextResultEnd && Drain(setup, s, !setup.batchErrorContinue).1) {
      CoreExecuteFits(setup, t, first, rest, noData);
    }
  }

  lemma FitsAll(s: State)
    requires Fits(s)
    ensures AllFit(s.server)
  {
  }

  lemma FetchFits(setup: Setup, s: State, orientation: Orientation, offset: int)
    requires Fits(s)
    ensures Fits(Fetch(setup, s, orientation, offset).0)
  {
    hide Wrap, Clamp, Target;
  }

  lemma GetFieldFits(setup: Setup, s: State, i: nat)
    requires Fits(s)
    ensures Fits(GetField(s, i).0)
  {
    hide ReadField, ReadUpTo;
    ReadKeepsStatement(s, i);
    if s.lastFieldIndex + 1 <= i {
      ReadUpToKeepsStatement(s, s.lastFieldIndex + 1, i);
    }
  }

  lemma {:induction false} ReadUpToKeepsStatement(s: State, from: nat, i: nat)
    requires from <= i
    ensures SameStatement(s, ReadUpTo(s, from, i).0)
    decreases i - from
  {
    hide ReadField;
    ReadKeepsStatement(s, from);
    if from < i && from !in s.fieldCache && ReadField(s, from).1.Value? {
      ReadUpToKeepsStatement(ReadField(s, from).0, from + 1, i);
    }
  }

  ghost predicate RunFits(ops: seq<Operation>) {
    forall k :: 0 <= k < |ops| && ops[k].DoExecute? ==> AllFit(Server(At(ops[k].first, 0), ops[k].rest))
  }

  lemma {:induction false} EveryRunFits(setup: Setup, ops: seq<Operation>)
    requires RunFits(ops)
    ensures Fits(Reached(setup, ops))
  {
    hide Fits, AllFit, Execute, NextRowset, CloseCursor, Fetch, GetField;
    if ops == [] {
      NewStatementFits();
    } else {
      var n := |ops| - 1;
      var s := Reached(setup, ops[..n]);
      EveryRunFits(setup, ops[..n]);
      match ops[n]
      case DoExecute(first, rest, noData) => ExecuteFits(setup, s, first, rest, noData);
      case DoNextRowset => NextRowsetFits(setup, s);
      case DoCloseCursor => CloseCursorFits(setup, s);
      case DoFetch(orientation, offset) => FetchFits(setup, s, orientation, offset);
      case DoGetField(column) => GetFieldFits(setup, s, column);
    }
  }

  lemma NewStatementFits()
    ensures Fits(INITIAL)
  {
  }

  lemma CloseCursorFits(setup: Setup, s: State)
    requires Fits(s)
    ensures Fits(CloseCursor(setup, s).0)
  {
    hide Drain, Fits;
    if s.executed {
      FitsAll(s);
      DrainFits(setup, s, true);
    }
  }

  /** Over every run, whatever fails: a fetch that answers yes stands on a row of which nothing has been read, unless it
      was the relative fetch of 0 before the first row. */
  lemma EveryFetchLandsOnRow(setup: Setup, ops: seq<Operation>, orientation: Orientation, offset: int)
    requires RunFits(ops) && Fetch(setup, Reached(setup, ops), orientation, offset).1 == Yes
    ensures var t := Fetch(setup, Reached(setup, ops), orientation, offset).0;
            && t.results.Some?
            && if CurrentRow(t).Some? then OnRow(t, CurrentRow(t).value) && t.lastFieldIndex == -1
               else setup.buffered && orientation.Relative? && offset == 0 && t.results.value.position == 0
  {
    hide Fetch, Fits, Consistent;
    var s := Reached(setup, ops);
    EveryRunConsistent(setup, ops, DoNextRowset);
    EveryRunFits(setup, ops);
    FetchFits(setup, s, orientation, offset);
    FetchLandsOnRow(setup, s, orientation, offset);
    LandedRowFits(setup, s, orientation, offset);
  }

  lemma LandedRowFits(setup: Setup, s: State, orientation: Orientation, offset: int)
    requires Consistent(setup, s) && Fits(s) && Fetch(setup, s, orientation, offset).1 == Yes
    ensures var t := Fetch(setup, s, orientation, offset).0;
            && t.results.Some? && (CurrentRow(t).Some? ==> |CurrentRow(t).value| == t.described)
            && (CurrentRow(t).None? ==> t.results.value.InMemory? && t.results.value.position == 0)
  {
    hide Wrap;
  }
}
