/**
 When a result set cannot be built: exactly which operations leave a statement whose next fetch calls through a missing
 result set.
 */
module StatementDanger {
  import opened Wrappers
  import opened Cursor
  import opened StatementStates
  import opened StatementSafety
  import opened StatementBatches

  // ---------- every run ----------

  lemma NewResultSetConsistent(setup: Setup, s: State)
    ensures Consistent(setup, NewResultSet(setup, s).0)
  {
  }

  lemma NextResultConsistent(setup: Setup, s: State, throwOnErrors: bool, reportErrors: bool)
    requires Consistent(setup, s)
    ensures Consistent(setup, NextResult(setup, s, throwOnErrors, reportErrors).0)
  {
    hide NewResultSet;
    NewResultSetConsistent(setup, s.(server := MoreResults(s.server)));
  }

  lemma {:induction false} DrainConsistent(setup: Setup, s: State, throwOnErrors: bool)
    requires Consistent(setup, s) && s.executed
    ensures Consistent(setup, Drain(setup, s, throwOnErrors).0)
    decreases |s.server.remaining|, !s.pastNextResultEnd
  {
    hide Consistent;
    if !s.pastNextResultEnd {
      NextResultConsistent(setup, s, throwOnErrors, false);
      var next := NextResult(setup, s, throwOnErrors, false);
      if !next.1 {
        DrainConsistent(setup, next.0, throwOnErrors);
      }
    }
  }

  lemma CoreExecuteConsistent(setup: Setup, s: State, first: Outcome, rest: seq<Outcome>, noData: bool)
    requires Consistent(setup, s)
    ensures Consistent(setup, CoreExecute(setup, s, first, rest, noData).0)
  {
    hide NewResultSet;
    NewResultSetConsistent(setup, s.(server := Server(At(first, 0), rest)));
  }

  lemma StepConsistent(setup: Setup, s: State, op: Operation)
    requires Consistent(setup, s)
    ensures Consistent(setup, Step(setup, s, op).0)
  {
    hide NextResult, CoreExecute, Drain, Wrap, Clamp, Target, CountColumns;
    match op
    case DoExecute(first, rest, noData) =>
      var t := s;
      if s.executed && !s.pastNextResultEnd {
        DrainConsistent(setup, s, !setup.batchErrorContinue);
        t := Drain(setup, s, !setup.batchErrorContinue).0;
      }
      CoreExecuteConsistent(setup, t, first, rest, noData);
    case DoNextRowset => NextResultConsistent(setup, s, !setup.batchErrorContinue, setup.batchErrorContinue);
    case DoCloseCursor =>
      if s.executed {
        DrainConsistent(setup, s, true);
      }
    case DoFetch(_, _) =>
    case DoGetField(column) => FieldNeverThroughNull(setup, s, column);
  }

  /** Over every run, whatever fails, an operation calls through a missing result set exactly when it is a fetch of a
      dangerous statement. */
  lemma {:induction false} EveryRunConsistent(setup: Setup, ops: seq<Operation>, op: Operation)
    ensures var s := Reached(setup, ops);
            && Consistent(setup, s) && (Step(setup, s, op).1 == NullPointer <==> op.DoFetch? && Dangerous(s))
  {
    hide Consistent, Dangerous, Execute, NextRowset, CloseCursor, Fetch, GetField;
    var s := Reached(setup, ops);
    if ops == [] {
      NewStatementSafe(setup);
    } else {
      var n := |ops| - 1;
      EveryRunConsistent(setup, ops[..n], op);
      StepConsistent(setup, Reached(setup, ops[..n]), ops[n]);
    }
    match op
    case DoFetch(orientation, offset) => FetchThroughNullExactlyWhenDangerous(setup, s, orientation, offset);
    case DoGetField(column) => FieldNeverThroughNull(setup, s, column);
    case DoExecute(first, rest, noData) => OthersReply(setup, s, first, rest, noData);
    case _ => OthersReply(setup, s, BatchError, [], false);
  }

  // ---------- one operation ----------

  /** The first outcome a drain does not step over. */
  function Stop(setup: Setup, throwOnErrors: bool, outcomes: seq<Outcome>): (o: Option<Outcome>)
    ensures o.None? <==> forall p :: p in outcomes ==> Skipped(setup, throwOnErrors, p)
    ensures o.Some? ==> o.value in outcomes && !Skipped(setup, throwOnErrors, o.value)
  {
    if outcomes == [] then None
    else if Skipped(setup, throwOnErrors, outcomes[0]) then Stop(setup, throwOnErrors, outcomes[1..])
    else Some(outcomes[0])
  }

  /** An outcome that leaves the handle on columns without a result set: it cannot be built, and no cancel that works
      follows. */
  predicate Strands(setup: Setup, throwOnErrors: bool, o: Outcome) {
    !Buildable(setup, o) && (!throwOnErrors || !setup.cancelDrops)
  }

  /** Moving on leaves a dangerous statement exactly when the next result set cannot be built and the cancel that
      follows does not clear the handle. */
  lemma NextRowsetDangerousExactlyWhen(setup: Setup, s: State)
    requires Consistent(setup, s) && Safe(s)
    ensures Dangerous(NextRowset(setup, s).0) <==>
              && s.executed && !s.pastNextResultEnd && s.server.remaining != []
              && Strands(setup, !setup.batchErrorContinue, s.server.remaining[0])
  {
  }

  lemma SkippedStaysSafe(setup: Setup, s: State, throwOnErrors: bool)
    requires Consistent(setup, s) && Safe(s) && s.executed && !s.pastNextResultEnd
    ensures var next := NextResult(setup, s, throwOnErrors, false);
            if next.1 then
              && s.server.remaining != []
              && (Dangerous(next.0) <==> Strands(setup, throwOnErrors, s.server.remaining[0]))
            else Consistent(setup, next.0) && Safe(next.0)
  {
  }

  /** A drain leaves a dangerous statement exactly when the outcome it stops at does. */
  lemma {:induction false} DrainDangerousExactlyWhen(setup: Setup, s: State, throwOnErrors: bool)
    requires Consistent(setup, s) && Safe(s) && s.executed
    ensures Dangerous(Drain(setup, s, throwOnErrors).0) <==>
              && !s.pastNextResultEnd && Stop(setup, throwOnErrors, s.server.remaining).Some?
              && Strands(setup, throwOnErrors, Stop(setup, throwOnErrors, s.server.remaining).value)
    decreases |s.server.remaining|, !s.pastNextResultEnd
  {
    hide Dangerous, Safe, Consistent, Strands, Skipped;
    if s.pastNextResultEnd {
      PastEndIsNotDangerous(s);
    } else {
      SkippedStaysSafe(setup, s, throwOnErrors);
      var next := NextResult(setup, s, throwOnErrors, false);
      if s.server.remaining != [] {
        NextResultSkips(setup, s, throwOnErrors);
      }
      if !next.1 {
        DrainDangerousExactlyWhen(setup, next.0, throwOnErrors);
      }
    }
  }

  lemma PastEndIsNotDangerous(s: State)
    ensures s.pastNextResultEnd ==> !Dangerous(s)
  {
  }

  /** Closing the cursor leaves a dangerous statement exactly when its drain stops at a result set that cannot be built
      and the cancel that follows does not clear the handle. */
  lemma CloseCursorDangerousExactlyWhen(setup: Setup, s: State)
    requires Consistent(setup, s) && Safe(s)
    ensures Dangerous(CloseCursor(setup, s).0) <==>
              && s.executed && !s.pastNextResultEnd && Stop(setup, true, s.server.remaining).Some?
              && Strands(setup, true, Stop(setup, true, s.server.remaining).value)
  {
    hide Drain, Strands;
    if s.executed {
      DrainDangerousExactlyWhen(setup, s, true);
    }
  }

  lemma CoreExecuteDangerousExactlyWhen(setup: Setup, s: State, first: Outcome, rest: seq<Outcome>, noData: bool)
    requires s.executed ==> s.pastNextResultEnd
    ensures Dangerous(CoreExecute(setup, s, first, rest, noData).0) <==> s.executed && Strands(setup, true, first)
  {
  }

  /** Executing does so exactly when the drain of what is left stops at such a result set, or, with nothing left that
      stops it, when the statement was executed before and the first result set is such a one. A first execution is not
      marked as executed. */
  lemma ExecuteDangerousExactlyWhen(setup: Setup, s: State, first: Outcome, rest: seq<Outcome>, noData: bool)
    requires Consistent(setup, s) && Safe(s)
    ensures var stop := if s.pastNextResultEnd then None else Stop(setup, !setup.batchErrorContinue, s.server.remaining);
            Dangerous(Execute(setup, s, first, rest, noData).0) <==>
              s.executed && if stop.Some? then Strands(setup, !setup.batchErrorContinue, stop.value) else Strands(setup, true, first)
  {
    hide Drain, CoreExecute, Strands, Dangerous, Safe, Consistent;
    if s.executed && !s.pastNextResultEnd {
      var throwOnErrors := !setup.batchErrorContinue;
      DrainDangerousExactlyWhen(setup, s, throwOnErrors);
      DrainSucceedsExactlyWhen(setup, s, throwOnErrors);
      DrainEnds(setup, s, throwOnErrors);
      if !Drain(setup, s, throwOnErrors).1 {
        CoreExecuteDangerousExactlyWhen(setup, Drain(setup, s, throwOnErrors).0, first, rest, noData);
      }
    } else {
      CoreExecuteDangerousExactlyWhen(setup, s, first, rest, noData);
    }
  }

  /** The other operations never do. */
  lemma OthersAreNotDangerous(setup: Setup, s: State, op: Operation)
    requires Consistent(setup, s) && Safe(s) && (op.DoFetch? || op.DoGetField?)
    ensures !Dangerous(Step(setup, s, op).0)
  {
    match op
    case DoFetch(orientation, offset) =>
      hide Wrap, Clamp, Target, CountColumns;
      CountIsOfTheHandle(s);
      CountIsOfTheHandle(Step(setup, s, op).0);
    case DoGetField(column) =>
      FieldNeverThroughNull(setup, s, column);
      if column < s.described && column !in s.fieldCache && s.executed && column - s.lastFieldIndex >= 2 {
        ReadUpToConsistent(setup, s, s.lastFieldIndex + 1, column);
      }
  }

  // ---------- runs that get there ----------

  /** A batch of two result sets whose second goes over the memory limit. */
  function TwoSets(value: string): Operation {
    DoExecute(Rowset(1, [[Good(value)]], false), [Rowset(1, [[Good(value)]], true)], false)
  }

  /** nextRowset onto the second result set fails, and a fetch then calls through a missing one. */
  lemma NextRowsetReachesNull(cancelDrops: bool, value: string)
    ensures var setup := Setup(true, true, cancelDrops);
            && Step(setup, Reached(setup, [TwoSets(value)]), DoNextRowset).1 == Error
            && Step(setup, Reached(setup, [TwoSets(value), DoNextRowset]), DoFetch(Next, 0)).1 == NullPointer
  {
    TwoSteps(Setup(true, true, cancelDrops), TwoSets(value), DoNextRowset);
  }

  /** So does a fetch behind closeCursor, without the option, when the cancel has no effect. */
  lemma CloseCursorReachesNull(value: string)
    ensures var setup := Setup(true, false, false);
            && Step(setup, Reached(setup, [TwoSets(value)]), DoCloseCursor).1 == Error
            && Step(setup, Reached(setup, [TwoSets(value), DoCloseCursor]), DoFetch(Next, 0)).1 == NullPointer
  {
    TwoSteps(Setup(true, false, false), TwoSets(value), DoCloseCursor);
  }

  /** And a fetch behind another execution, though the result set that is executed can be built. */
  lemma ExecuteReachesNull(cancelDrops: bool, value: string)
    ensures var setup, again := Setup(true, true, cancelDrops), DoExecute(Rowset(1, [], false), [], false);
            && Step(setup, Reached(setup, [TwoSets(value)]), again).1 == Error
            && Step(setup, Reached(setup, [TwoSets(value), again]), DoFetch(Next, 0)).1 == NullPointer
  {
    TwoSteps(Setup(true, true, cancelDrops), TwoSets(value), DoExecute(Rowset(1, [], false), [], false));
  }

  lemma TwoSteps(setup: Setup, a: Operation, b: Operation)
    ensures Reached(setup, [a]) == Step(setup, INITIAL, a).0
    ensures Reached(setup, [a, b]) == Step(setup, Step(setup, INITIAL, a).0, b).0
  {
    hide Step;
    OneMore(setup, [], a);
    OneMore(setup, [a], b);
    assert [] + [a] == [a] && [a] + [b] == [a, b];
  }
}
