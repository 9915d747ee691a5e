/**
 What holds over every run of a statement: no call through a missing result set, batches that are walked outcome by
 outcome, drains that end, and a field cache that agrees with the row.
 */
module StatementSafety {
  import opened Wrappers
  import opened Cursor
  import opened StatementStates

  // ---------- the missing result set ----------

  /** A fetch would call through a missing result set. */
  predicate Dangerous(s: State) {
    && s.results.None? && s.executed && !s.pastNextResultEnd && !s.pastFetchEnd
    && (s.fetchCalled || (CountColumns(s).Some? && CountColumns(s).value != 0))
  }

  /** What keeps the flags of a statement together, whatever fails. */
  predicate Consistent(setup: Setup, s: State) {
    && (s.results.None? ==> !s.fetchCalled && !s.hasRows && !s.pastFetchEnd)
    && (s.results.Some? ==> s.results.value.InMemory? == setup.buffered)
    && (!setup.buffered && s.hasRows && !s.fetchCalled ==> s.pastFetchEnd)
    && (setup.buffered ==> !s.pastFetchEnd)
  }

  lemma FetchThroughNullExactlyWhenDangerous(setup: Setup, s: State, orientation: Orientation, offset: int)
    requires Consistent(setup, s)
    ensures Fetch(setup, s, orientation, offset).1 == NullPointer <==> Dangerous(s)
  {
  }

  lemma FieldNeverThroughNull(setup: Setup, s: State, i: nat)
    requires Consistent(setup, s)
    ensures GetField(s, i).1 != NullPointer && Consistent(setup, GetField(s, i).0)
  {
    if i < s.described && i !in s.fieldCache && s.executed && i - s.lastFieldIndex >= 2 {
      ReadUpToConsistent(setup, s, s.lastFieldIndex + 1, i);
    }
  }

  lemma {:induction false} ReadUpToConsistent(setup: Setup, s: State, from: nat, i: nat)
    requires Consistent(setup, s) && from <= i
    ensures ReadUpTo(s, from, i).1 != NullPointer && SameStatement(s, ReadUpTo(s, from, i).0)
    decreases i - from
  {
    hide CurrentRow;
    if from < i && from !in s.fieldCache && ReadField(s, from).1.Value? {
      ReadUpToConsistent(setup, ReadField(s, from).0, from + 1, i);
    }
  }

  /** Everything but the last field, the cache and the log is the same. */
  predicate SameStatement(s: State, t: State) {
    t == s.(lastFieldIndex := t.lastFieldIndex, fieldCache := t.fieldCache, delivered := t.delivered)
  }

  /** Without a result set a statement is not executed, past its last result, known to have no columns, or on a handle
      that has none. */
  predicate Safe(s: State) {
    s.results.None? ==>
      || !s.executed || s.pastNextResultEnd || s.columnCount == 0
      || (s.columnCount == ACTIVE_NUM_COLS_INVALID && (s.server.handle.Idle? || s.server.handle.outcome.BatchError?))
  }

  lemma SafeIsNotDangerous(setup: Setup, s: State)
    requires Consistent(setup, s) && Safe(s)
    ensures !Dangerous(s)
  {
  }

  /** No result set that is left in the batch fails to build. */
  predicate Buildable(setup: Setup, o: Outcome) {
    o.Rowset? && setup.buffered ==> o.columns == 0 || !o.buildFails
  }

  ghost predicate AllBuildable(setup: Setup, server: Server) {
    && (server.handle.At? ==> Buildable(setup, server.handle.outcome))
    && forall o :: o in server.remaining ==> Buildable(setup, o)
  }

  lemma NewResultSetSafe(setup: Setup, s: State)
    requires AllBuildable(setup, s.server)
    ensures var built := NewResultSet(setup, s);
            && Consistent(setup, built.0) && built.0.server == s.server && built.0.executed == s.executed
            && !built.0.pastNextResultEnd && (built.1 <==> built.0.results.None?)
            && (built.1 ==> Safe(built.0) && s.server.handle.At? && s.server.handle.outcome.BatchError?)
  {
  }

  lemma CancelSafe(setup: Setup, s: State)
    requires Consistent(setup, s) && Safe(s) && AllBuildable(setup, s.server)
    ensures var t := Cancel(setup, s);
            Consistent(setup, t) && Safe(t) && AllBuildable(setup, t.server) && t.executed == s.executed && t.results == s.results
  {
  }

  lemma MoreResultsBuildable(setup: Setup, server: Server)
    requires AllBuildable(setup, server)
    ensures AllBuildable(setup, MoreResults(server))
  {
  }

  lemma NextResultSafe(setup: Setup, s: State, throwOnErrors: bool, reportErrors: bool)
    requires Consistent(setup, s) && Safe(s) && AllBuildable(setup, s.server)
    ensures var next := NextResult(setup, s, throwOnErrors, reportErrors);
            && Consistent(setup, next.0) && AllBuildable(setup, next.0.server) && next.0.executed == s.executed
            && if next.1 || next.0.pastNextResultEnd then Safe(next.0)
               else next.0.results.None? ==> reportErrors && !throwOnErrors
  {
    hide NewResultSet, AllBuildable, Cancel;
    if !s.executed || s.pastNextResultEnd {
      CancelSafe(setup, s);
    } else if s.server.remaining != [] {
      var moved := s.(server := MoreResults(s.server));
      MoreResultsBuildable(setup, s.server);
      NewResultSetSafe(setup, moved);
      CancelSafe(setup, NewResultSet(setup, moved).0);
      if moved.server.handle.outcome.BatchError? {
        CancelSafe(setup, moved);
      }
    } else {
      MoreResultsBuildable(setup, s.server);
    }
  }

  lemma {:induction false} DrainSafe(setup: Setup, s: State, throwOnErrors: bool)
    requires Consistent(setup, s) && Safe(s) && AllBuildable(setup, s.server) && s.executed
    ensures var t := Drain(setup, s, throwOnErrors).0; Consistent(setup, t) && Safe(t) && AllBuildable(setup, t.server)
    ensures Drain(setup, s, throwOnErrors).0.executed
    decreases |s.server.remaining|, !s.pastNextResultEnd
  {
    if !s.pastNextResultEnd {
      NextResultSafe(setup, s, throwOnErrors, false);
      var next := NextResult(setup, s, throwOnErrors, false);
      if !next.1 {
        DrainSafe(setup, next.0, throwOnErrors);
      }
    }
  }

  lemma NextRowsetSafe(setup: Setup, s: State)
    requires Consistent(setup, s) && Safe(s) && AllBuildable(setup, s.server)
    ensures var t := NextRowset(setup, s).0; Consistent(setup, t) && Safe(t) && AllBuildable(setup, t.server)
  {
    hide NextResult, AllBuildable;
    NextResultSafe(setup, s, !setup.batchErrorContinue, setup.batchErrorContinue);
  }

  lemma CoreExecuteSafe(setup: Setup, s: State, first: Outcome, rest: seq<Outcome>, noData: bool)
    requires Consistent(setup, s) && Safe(s) && AllBuildable(setup, Server(At(first, 0), rest))
    requires s.executed ==> s.pastNextResultEnd
    ensures var t := CoreExecute(setup, s, first, rest, noData).0; Consistent(setup, t) && Safe(t) && AllBuildable(setup, t.server)
  {
    hide NewResultSet, AllBuildable, Cancel;
    var sent := s.(server := Server(At(first, 0), rest));
    if first.BatchError? {
      CancelSafe(setup, sent);
    } else {
      NewResultSetSafe(setup, sent);
      if NewResultSet(setup, sent).1 {
        CancelSafe(setup, NewResultSet(setup, sent).0);
      }
    }
  }

  lemma ExecuteSafe(setup: Setup, s: State, first: Outcome, rest: seq<Outcome>, noData: bool)
    requires Consistent(setup, s) && Safe(s) && AllBuildable(setup, s.server)
    requires AllBuildable(setup, Server(At(first, 0), rest))
    ensures var t := Execute(setup, s, first, rest, noData).0; Consistent(setup, t) && Safe(t) && AllBuildable(setup, t.server)
  {
    hide CoreExecute, AllBuildable, Drain, Consistent, Safe;
    if s.executed && !s.pastNextResultEnd {
      DrainSafe(setup, s, !setup.batchErrorContinue);
      DrainEnds(setup, s, !setup.batchErrorContinue);
      if !Drain(setup, s, !setup.batchErrorContinue).1 {
        CoreExecuteSafe(setup, Drain(setup, s, !setup.batchErrorContinue).0, first, rest, noData);
      }
    } else {
      CoreExecuteSafe(setup, s, first, rest, noData);
    }
  }

  /** A drain that does not throw is past the last result. */
  lemma {:induction false} DrainEnds(setup: Setup, s: State, throwOnErrors: bool)
    requires s.executed
    ensures var drained := Drain(setup, s, throwOnErrors);
            && drained.0.executed && (!drained.1 ==> drained.0.pastNextResultEnd)
            && (drained.1 ==> drained.0 != s ==> |drained.0.server.remaining| <= |s.server.remaining|)
    decreases |s.server.remaining|, !s.pastNextResultEnd
  {
    if !s.pastNextResultEnd {
      var next := NextResult(setup, s, throwOnErrors, false);
      if !next.1 {
        DrainEnds(setup, next.0, throwOnErrors);
      }
    }
  }

  lemma FetchSafe(setup: Setup, s: State, orientation: Orientation, offset: int)
    requires Consistent(setup, s) && Safe(s) && AllBuildable(setup, s.server)
    ensures var t := Fetch(setup, s, orientation, offset).0; Consistent(setup, t) && Safe(t) && AllBuildable(setup, t.server)
  {
    hide Wrap, Clamp, Target, CountColumns;
    CountIsOfTheHandle(s);
  }

  lemma CountIsOfTheHandle(s: State)
    ensures s.columnCount != ACTIVE_NUM_COLS_INVALID ==> CountColumns(s) == Some(s.columnCount)
    ensures s.columnCount == ACTIVE_NUM_COLS_INVALID && s.server.handle.Idle? ==> CountColumns(s) == Some(0)
    ensures s.columnCount == ACTIVE_NUM_COLS_INVALID && s.server.handle.At? && s.server.handle.outcome.BatchError? ==>
              CountColumns(s).None?
  {
  }

  lemma FieldSafe(setup: Setup, s: State, i: nat)
    requires Consistent(setup, s) && Safe(s) && AllBuildable(setup, s.server)
    ensures var t := GetField(s, i).0; Consistent(setup, t) && Safe(t) && AllBuildable(setup, t.server)
  {
    FieldNeverThroughNull(setup, s, i);
    if i < s.described && i !in s.fieldCache && s.executed && i - s.lastFieldIndex >= 2 {
      ReadUpToConsistent(setup, s, s.lastFieldIndex + 1, i);
    }
  }

  /** Every result set that the run executes can be built. */
  ghost predicate RunBuildable(setup: Setup, ops: seq<Operation>) {
    forall k :: 0 <= k < |ops| && ops[k].DoExecute? ==> AllBuildable(setup, Server(At(ops[k].first, 0), ops[k].rest))
  }

  /** No operation leads out of safety, or calls through a missing result set. */
  lemma StepSafe(setup: Setup, s: State, op: Operation)
    requires Consistent(setup, s) && Safe(s) && AllBuildable(setup, s.server)
    requires op.DoExecute? ==> AllBuildable(setup, Server(At(op.first, 0), op.rest))
    ensures var t := Step(setup, s, op);
            t.1 != NullPointer && Consistent(setup, t.0) && Safe(t.0) && AllBuildable(setup, t.0.server)
  {
    hide Safe, AllBuildable, Execute, NextRowset, CloseCursor, Fetch, GetField;
    SafeIsNotDangerous(setup, s);
    match op
    case DoExecute(first, rest, noData) =>
      ExecuteSafe(setup, s, first, rest, noData);
      OthersReply(setup, s, first, rest, noData);
    case DoNextRowset =>
      NextRowsetSafe(setup, s);
      OthersReply(setup, s, BatchError, [], false);
    case DoCloseCursor =>
      CloseCursorSafe(setup, s);
      OthersReply(setup, s, BatchError, [], false);
    case DoFetch(orientation, offset) =>
      FetchSafe(setup, s, orientation, offset);
      FetchThroughNullExactlyWhenDangerous(setup, s, orientation, offset);
    case DoGetField(column) =>
      FieldSafe(setup, s, column);
      FieldNeverThroughNull(setup, s, column);
  }

  lemma {:induction false} RunSafe(setup: Setup, ops: seq<Operation>)
    requires RunBuildable(setup, ops)
    ensures var s := Reached(setup, ops); Consistent(setup, s) && Safe(s) && AllBuildable(setup, s.server)
  {
    hide Safe, Consistent, AllBuildable, Step;
    if ops == [] {
      NewStatementSafe(setup);
    } else {
      var n := |ops| - 1;
      RunSafe(setup, ops[..n]);
      StepSafe(setup, Reached(setup, ops[..n]), ops[n]);
    }
  }

  lemma NewStatementSafe(setup: Setup)
    ensures Consistent(setup, INITIAL) && Safe(INITIAL) && AllBuildable(setup, INITIAL.server)
  {
  }

  lemma CloseCursorSafe(setup: Setup, s: State)
    requires Consistent(setup, s) && Safe(s) && AllBuildable(setup, s.server)
    ensures var t := CloseCursor(setup, s).0; Consistent(setup, t) && Safe(t) && AllBuildable(setup, t.server)
  {
    if s.executed {
      DrainSafe(setup, s, true);
    }
  }

  /** Over every run in which result sets can be built, no operation calls through a missing result set. */
  lemma NoRunReachesNull(setup: Setup, ops: seq<Operation>, op: Operation)
    requires RunBuildable(setup, ops)
    ensures Step(setup, Reached(setup, ops), op).1 != NullPointer
  {
    hide Execute, NextRowset, CloseCursor, Fetch, GetField, Safe, Consistent, AllBuildable;
    RunSafe(setup, ops);
    if op.DoExecute? {
      OthersReply(setup, Reached(setup, ops), op.first, op.rest, op.noData);
    } else {
      StepSafe(setup, Reached(setup, ops), op);
    }
  }

  lemma OthersReply(setup: Setup, s: State, first: Outcome, rest: seq<Outcome>, noData: bool)
    ensures Execute(setup, s, first, rest, noData).1 != NullPointer
    ensures NextRowset(setup, s).1 != NullPointer && CloseCursor(setup, s).1 != NullPointer
  {
    hide Drain, NextResult, NewResultSet;
  }

  lemma OneMore(setup: Setup, ops: seq<Operation>, op: Operation)
    ensures Reached(setup, []) == INITIAL
    ensures Reached(setup, ops + [op]) == Step(setup, Reached(setup, ops), op).0
  {
    assert (ops + [op])[..|ops|] == ops;
  }
}
