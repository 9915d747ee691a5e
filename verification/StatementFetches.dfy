/**
 Which row a fetch stands on: the rows of a result set one after the other, and where each orientation lands. And when the
 other operations answer yes.
 */
module StatementFetches {
  import opened Wrappers
  import opened Cursor
  import opened StatementStates
  import opened StatementSafety
  import opened StatementBatches
  import opened StatementDanger
  import opened StatementFields

  /** PDOStatement::fetch, k times. */
  function Fetches(setup: Setup, s: State, k: nat): State {
    if k == 0 then s else Fetch(setup, Fetches(setup, s, k - 1), Next, 0).0
  }

  /** The statement can be fetched from and stands on row k of these, counted from 1: 0 is before the first, |rows| + 1 behind
      the last. */
  predicate Stands(setup: Setup, s: State, rows: seq<seq<Field>>, k: nat) {
    && s.executed && !s.pastNextResultEnd && s.columnCount > 0 && s.results.Some? && k <= |rows| + 1
    && match s.results.value
       case InMemory(cached, position) => setup.buffered && cached == rows && position == k && !s.pastFetchEnd
       case Live =>
         && !setup.buffered && AtRowset(s.server) && s.server.handle.outcome.rows == rows && s.server.handle.row == k
         && (s.pastFetchEnd <==> k == |rows| + 1) && (s.hasRows && !s.fetchCalled ==> s.pastFetchEnd)
  }

  /** A fetch that has gone to row i, counted from 0, if there is such a row. */
  predicate Lands(t: (State, Reply), rows: seq<seq<Field>>, i: int) {
    if 0 <= i < |rows| then t.1 == Yes && t.0.results.Some? && CurrentRow(t.0) == Some(rows[i]) else t.1 == No
  }

  lemma StandsOnRow(setup: Setup, s: State, rows: seq<seq<Field>>, k: nat)
    requires Stands(setup, s, rows, k)
    ensures CurrentRow(s) == if 1 <= k <= |rows| then Some(rows[k - 1]) else None
  {
  }

  /** Executing stands before the first row. */
  lemma ExecuteStandsBeforeFirst(setup: Setup, s: State, first: Outcome, rest: seq<Outcome>)
    requires Execute(setup, s, first, rest, false).1 == Yes && first.columns > 0
    ensures Stands(setup, Execute(setup, s, first, rest, false).0, first.rows, 0)
  {
    hide Drain;
  }

  /** So does moving on to the next result set. */
  lemma NextRowsetStandsBeforeFirst(setup: Setup, s: State)
    requires s.executed && !s.pastNextResultEnd && s.server.remaining != [] && NextRowset(setup, s).1 == Yes
    requires s.server.remaining[0].Rowset? && s.server.remaining[0].columns > 0
    ensures Stands(setup, NextRowset(setup, s).0, s.server.remaining[0].rows, 0)
  {
  }

  lemma NextMoves(setup: Setup, s: State, rows: seq<seq<Field>>, k: nat)
    requires Stands(setup, s, rows, k) && |rows| < LONG_MAX - 1
    ensures var t := Fetch(setup, s, Next, 0);
            && Stands(setup, t.0, rows, if k <= |rows| then k + 1 else k)
            && t.1 == if k < |rows| then Yes else if k == |rows| || setup.buffered then No else Error
  {
    hide Wrap;
    OneIsOne();
  }

  lemma OneIsOne()
    ensures Wrap(0 + 1) == 1
  {
  }

  /** From before the first row, the k-th Next answers yes and stands on the k-th row, then no once, and from then on no
      again from memory and an error on a forward-only handle. */
  lemma {:induction false} NextVisitsTheRows(setup: Setup, s: State, rows: seq<seq<Field>>, k: nat)
    requires Stands(setup, s, rows, 0) && k > 0 && |rows| < LONG_MAX - 1
    ensures var reply, t := Fetch(setup, Fetches(setup, s, k - 1), Next, 0).1, Fetches(setup, s, k);
            && Stands(setup, t, rows, if k <= |rows| then k else |rows| + 1)
            && (k <= |rows| ==> reply == Yes && CurrentRow(t) == Some(rows[k - 1]))
            && (k == |rows| + 1 ==> reply == No)
            && (k > |rows| + 1 ==> reply == if setup.buffered then No else Error)
    decreases k
  {
    hide Fetch, Stands;
    if k > 1 {
      NextVisitsTheRows(setup, s, rows, k - 1);
    }
    var at := if k - 1 <= |rows| then k - 1 else |rows| + 1;
    NextMoves(setup, Fetches(setup, s, k - 1), rows, at);
    StandsHere(setup, s, rows);
    StandsOnRow(setup, Fetches(setup, s, k), rows, if k <= |rows| then k else |rows| + 1);
  }

  lemma StandsHere(setup: Setup, s: State, rows: seq<seq<Field>>)
    requires Stands(setup, s, rows, 0)
    ensures s.results.Some?
  {
  }

  /** A scrolling cursor in memory: where each orientation lands, with rows counted from 0. An offset of LONG_MAX is one
      that wraps. */
  lemma EveryOrientationLands(setup: Setup, s: State, rows: seq<seq<Field>>, k: nat, orientation: Orientation, offset: int)
    requires setup.buffered && Stands(setup, s, rows, k) && IsLong(offset) && |rows| < LONG_MAX - 1
    ensures var t := Fetch(setup, s, orientation, offset);
            match orientation
            case Next => Lands(t, rows, k)
            case Prior => Lands(t, rows, k - 2)
            case First => Lands(t, rows, 0)
            case Last => Lands(t, rows, |rows| - 1)
            case Absolute => Lands(t, rows, offset)
            case Relative => if k == 0 && offset == 0 then t.1 == Yes && CurrentRow(t.0) == None else Lands(t, rows, k - 1 + offset)
  {
    hide Fetch, Clamp, Target, Wrap;
    FetchIsInMemory(setup, s, rows, k, orientation, offset);
    CursorLands(k, orientation, offset, |rows|);
  }

  /** The cursor itself, in row numbers. */
  lemma CursorLands(k: nat, orientation: Orientation, offset: int, n: nat)
    requires k <= n + 1 && IsLong(offset) && n < LONG_MAX - 1
    ensures var there := Clamp(Target(k, orientation, if orientation.Relative? then offset else Wrap(offset + 1), n), n);
            var i := match orientation
                     case Next => k
                     case Prior => k - 2
                     case First => 0
                     case Last => n - 1
                     case Absolute => offset
                     case Relative => k - 1 + offset;
            if 0 <= i < n then there == i + 1 else there == 0 || there == n + 1
  {
    hide Wrap;
    ZeroBasedOffset(offset, n);
  }

  lemma FetchIsInMemory(setup: Setup, s: State, rows: seq<seq<Field>>, k: nat, orientation: Orientation, offset: int)
    requires setup.buffered && Stands(setup, s, rows, k)
    ensures var step := if orientation.Relative? then offset else Wrap(offset + 1);
            var there := Clamp(Target(k, orientation, step, |rows|), |rows|);
            var t := Fetch(setup, s, orientation, offset);
            && t.0.results == Some(InMemory(rows, there)) && Stands(setup, t.0, rows, there)
            && t.1 == (if 1 <= there <= |rows| || (orientation.Relative? && offset == 0 && k == 0) then Yes else No)
  {
    hide Wrap, Target, Clamp, Fetch;
    FetchIsFetchRows(setup, s, rows, k, orientation, offset);
  }

  lemma FetchIsFetchRows(setup: Setup, s: State, rows: seq<seq<Field>>, k: nat, orientation: Orientation, offset: int)
    requires setup.buffered && Stands(setup, s, rows, k)
    ensures Fetch(setup, s, orientation, offset) == FetchRows(s.(fieldCache := map[]), rows, k, orientation, offset)
  {
    hide FetchRows;
    assert s.(fieldCache := map[]).(columnCount := s.columnCount) == s.(fieldCache := map[]);
  }

  /** A forward-only handle refuses every other orientation. */
  lemma OnlyNextOnHandle(setup: Setup, s: State, rows: seq<seq<Field>>, k: nat, orientation: Orientation, offset: int)
    requires !setup.buffered && Stands(setup, s, rows, k) && orientation != Next
    ensures Fetch(setup, s, orientation, offset).1 == Error
  {
  }

  /** A result set that is executed, fetched k times and read column by column in any order gives the k-th row. */
  lemma ExecuteFetchRead(setup: Setup, s: State, first: Outcome, rest: seq<Outcome>, k: nat, requests: seq<nat>)
    requires Consistent(setup, s) && first.Rowset? && Execute(setup, s, first, rest, false).1 == Yes && first.columns > 0
    requires RowsFit(first) && 1 <= k <= |first.rows| < LONG_MAX - 1
    requires var row := first.rows[k - 1]; forall i :: 0 <= i < |row| ==> row[i].Good?
    requires forall r :: 0 <= r < |requests| ==> requests[r] < first.columns
    ensures var t := Fetches(setup, Execute(setup, s, first, rest, false).0, k);
            && |Replies(t, requests)| == |requests|
            && forall r :: 0 <= r < |requests| ==> Replies(t, requests)[r] == Value(first.rows[k - 1][requests[r]].value)
  {
    hide Execute, Fetch, OnRow, GetField;
    var t0 := Execute(setup, s, first, rest, false).0;
    ExecuteStandsBeforeFirst(setup, s, first, rest);
    ExecuteDescribes(setup, s, first, rest);
    NextVisitsTheRows(setup, t0, first.rows, k);
    FetchesKeep(setup, t0, k - 1);
    var u := Fetches(setup, t0, k - 1);
    FetchLandsOnRow(setup, u, Next, 0);
    FetchKeeps(setup, u);
    AnyOrderSeesRow(Fetches(setup, t0, k), first.rows[k - 1], requests);
  }

  lemma ExecuteDescribes(setup: Setup, s: State, first: Outcome, rest: seq<Outcome>)
    requires Consistent(setup, s) && Execute(setup, s, first, rest, false).1 == Yes
    ensures var t := Execute(setup, s, first, rest, false).0; Consistent(setup, t) && t.described == first.columns
  {
    hide Drain;
  }

  lemma FetchKeeps(setup: Setup, s: State)
    requires Consistent(setup, s)
    ensures var t := Fetch(setup, s, Next, 0).0; Consistent(setup, t) && t.described == s.described
  {
    hide Wrap, Clamp, Target;
  }

  lemma {:induction false} FetchesKeep(setup: Setup, s: State, k: nat)
    requires Consistent(setup, s)
    ensures Consistent(setup, Fetches(setup, s, k)) && Fetches(setup, s, k).described == s.described
  {
    hide Fetch, Consistent;
    if k > 0 {
      FetchesKeep(setup, s, k - 1);
      FetchKeeps(setup, Fetches(setup, s, k - 1));
    }
  }

  /** A statement the server had no data for is executed, and has nothing to fetch. */
  lemma NoDataHasNothingToFetch(setup: Setup, s: State, first: Outcome, rest: seq<Outcome>, orientation: Orientation, offset: int)
    requires Execute(setup, s, first, rest, true).1 == Yes
    ensures var t := Execute(setup, s, first, rest, true).0; t.executed && Fetch(setup, t, orientation, offset).1 == Error
  {
    hide Drain;
  }

  /** When executing fails, whether in its drain or on the new batch, a cancel that works leaves nothing on the handle of a
      statement whose errors are thrown. */
  lemma FailedExecuteIsCancelled(setup: Setup, s: State, first: Outcome, rest: seq<Outcome>, noData: bool)
    requires s.executed && setup.cancelDrops && !setup.batchErrorContinue && Execute(setup, s, first, rest, noData).1 == Error
    ensures Execute(setup, s, first, rest, noData).0.server == Server(Idle, [])
  {
    hide CoreExecute;
    if !s.pastNextResultEnd {
      FailedDrainIsCancelled(setup, s);
    }
    var drained := if s.pastNextResultEnd then s else Drain(setup, s, true).0;
    FailedCoreExecuteIsCancelled(setup, drained, first, rest, noData);
  }

  lemma FailedCoreExecuteIsCancelled(setup: Setup, s: State, first: Outcome, rest: seq<Outcome>, noData: bool)
    ensures s.executed && setup.cancelDrops && CoreExecute(setup, s, first, rest, noData).1 == Error ==>
              CoreExecute(setup, s, first, rest, noData).0.server == Server(Idle, [])
  {
  }

  lemma {:induction false} FailedDrainIsCancelled(setup: Setup, s: State)
    requires s.executed && setup.cancelDrops
    ensures var drained := Drain(setup, s, true);
            drained.0.executed && (drained.1 ==> drained.0.server == Server(Idle, []))
    decreases |s.server.remaining|, !s.pastNextResultEnd
  {
    if !s.pastNextResultEnd && !NextResult(setup, s, true, false).1 {
      FailedDrainIsCancelled(setup, NextResult(setup, s, true, false).0);
    }
  }

  // ---------- what the operations answer ----------

  /** closeCursor answers yes exactly when there is nothing left that it cannot pass over. */
  lemma CloseCursorAnswers(setup: Setup, s: State)
    ensures CloseCursor(setup, s).1 ==
            if !s.executed || s.pastNextResultEnd || forall o :: o in s.server.remaining ==> o.Rowset? && Buildable(setup, o)
            then Yes else Error
  {
    hide Drain, Buildable;
    if s.executed {
      DrainSucceedsExactlyWhen(setup, s, true);
    }
  }

  /** Executing answers yes exactly when what is left can be passed over and the first new outcome is a result set that can
      be built. */
  lemma ExecuteAnswers(setup: Setup, s: State, first: Outcome, rest: seq<Outcome>, noData: bool)
    ensures Execute(setup, s, first, rest, noData).1 ==
            if && (!s.executed || s.pastNextResultEnd
                   || forall o :: o in s.server.remaining ==> Skipped(setup, !setup.batchErrorContinue, o))
               && first.Rowset? && Buildable(setup, first)
            then Yes else Error
  {
    hide Drain, Skipped;
    if s.executed && !s.pastNextResultEnd {
      DrainSucceedsExactlyWhen(setup, s, !setup.batchErrorContinue);
    }
  }

  /** nextRowset answers yes exactly on an outcome it can show, and no exactly behind the last. */
  lemma NextRowsetAnswers(setup: Setup, s: State)
    ensures NextRowset(setup, s).1 ==
            if !s.executed || s.pastNextResultEnd then Error
            else if s.server.remaining == [] then No
            else if Shown(setup, s.server.remaining[0]) then Yes else Error
  {
  }
}
