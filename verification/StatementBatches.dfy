/**
 Walking through a batch, and draining it.
 */
module StatementBatches {
  import opened StatementStates
  import opened StatementSafety

  /** PDOStatement::nextRowset, k times. */
  function NextRowsets(setup: Setup, s: State, k: nat): State {
    if k == 0 then s else NextRowset(setup, NextRowsets(setup, s, k - 1)).0
  }

  /** The statement stands on an outcome of the batch, or on its error marker. */
  predicate StandsOn(s: State, o: Outcome) {
    && s.server.handle == At(o, 0) && (s.results.None? <==> o.BatchError?)
    && s.columnCount == (if o.BatchError? then 0 else o.columns)
    && !s.fetchCalled && !s.pastFetchEnd && !s.hasRows
  }

  /** nextRowset shows the outcome; without the option a batch error is reported instead. */
  predicate Shown(setup: Setup, o: Outcome) {
    Buildable(setup, o) && (o.BatchError? ==> setup.batchErrorContinue)
  }

  lemma NextRowsetMovesOn(setup: Setup, s: State)
    requires s.executed && !s.pastNextResultEnd && s.server.remaining != [] && Shown(setup, s.server.remaining[0])
    ensures var next := NextRowset(setup, s);
            && next.1 == Yes && next.0.executed && !next.0.pastNextResultEnd && StandsOn(next.0, s.server.remaining[0])
            && next.0.server.remaining == s.server.remaining[1..]
  {
  }

  /** Each outcome of what is left of a batch is visited once and in order. */
  lemma {:induction false} BatchIsWalkedInOrder(setup: Setup, s: State, k: nat)
    requires s.executed && !s.pastNextResultEnd && k <= |s.server.remaining|
    requires forall o :: o in s.server.remaining ==> Shown(setup, o)
    ensures var t := NextRowsets(setup, s, k);
            && t.executed && !t.pastNextResultEnd && t.server.remaining == s.server.remaining[k..]
            && (k > 0 ==> StandsOn(t, s.server.remaining[k - 1]) && NextRowset(setup, NextRowsets(setup, s, k - 1)).1 == Yes)
  {
    hide NextRowset, StandsOn;
    if k > 0 {
      BatchIsWalkedInOrder(setup, s, k - 1);
      var t := NextRowsets(setup, s, k - 1);
      assert t.server.remaining[0] == s.server.remaining[k - 1];
      NextRowsetMovesOn(setup, t);
    }
  }

  /** Behind the last outcome nextRowset answers no, and then reports an error for good. */
  lemma {:induction false} BatchEnds(setup: Setup, s: State, extra: nat)
    requires s.executed && !s.pastNextResultEnd
    requires forall o :: o in s.server.remaining ==> Shown(setup, o)
    ensures var n := |s.server.remaining|;
            && NextRowsets(setup, s, n + 1 + extra).pastNextResultEnd && NextRowsets(setup, s, n + 1 + extra).executed
            && NextRowset(setup, NextRowsets(setup, s, n + extra)).1 == if extra == 0 then No else Error
  {
    var n := |s.server.remaining|;
    if extra == 0 {
      BatchIsWalkedInOrder(setup, s, n);
    } else {
      BatchEnds(setup, s, extra - 1);
      assert n + 1 + (extra - 1) == n + extra;
    }
  }

  /** Only executing again leads away from the end of the results. */
  lemma OnlyExecuteReopens(setup: Setup, s: State, op: Operation)
    requires s.executed && s.pastNextResultEnd && !op.DoExecute?
    ensures Step(setup, s, op).0.pastNextResultEnd && Step(setup, s, op).0.executed
    ensures !op.DoGetField? && !op.DoCloseCursor? ==> Step(setup, s, op).1 == Error
  {
    if op.DoGetField? && op.column < s.described && op.column !in s.fieldCache && op.column - s.lastFieldIndex >= 2 {
      ReadUpToKeepsEnd(s, s.lastFieldIndex + 1, op.column);
    }
  }

  lemma {:induction false} ReadUpToKeepsEnd(s: State, from: nat, i: nat)
    requires from <= i
    ensures var t := ReadUpTo(s, from, i).0; t.pastNextResultEnd == s.pastNextResultEnd && t.executed == s.executed
    decreases i - from
  {
    if from < i && from !in s.fieldCache && ReadField(s, from).1.Value? {
      ReadUpToKeepsEnd(ReadField(s, from).0, from + 1, i);
    }
  }

  lemma ExecuteReopens(setup: Setup, s: State, first: Outcome, rest: seq<Outcome>, noData: bool)
    requires Execute(setup, s, first, rest, noData).1 == Yes
    ensures var t := Execute(setup, s, first, rest, noData).0;
            && t.executed && !t.pastNextResultEnd && t.results.Some? && t.server == Server(At(first, 0), rest)
            && !t.fetchCalled && t.lastFieldIndex == -1
  {
    hide Drain;
  }

  // ---------- drains ----------

  /** A drain steps over the outcome. A silent drain of a buffered statement still builds what it skips, which an error
      marker does not allow. */
  predicate Skipped(setup: Setup, throwOnErrors: bool, o: Outcome) {
    Buildable(setup, o) && (o.BatchError? ==> !throwOnErrors && !setup.buffered)
  }

  lemma {:induction false} DrainSucceedsExactlyWhen(setup: Setup, s: State, throwOnErrors: bool)
    requires s.executed
    ensures !Drain(setup, s, throwOnErrors).1 <==>
              s.pastNextResultEnd || forall o :: o in s.server.remaining ==> Skipped(setup, throwOnErrors, o)
    decreases |s.server.remaining|, !s.pastNextResultEnd
  {
    if !s.pastNextResultEnd && s.server.remaining != [] {
      var o, next := s.server.remaining[0], NextResult(setup, s, throwOnErrors, false);
      NextResultSkips(setup, s, throwOnErrors);
      if !next.1 {
        DrainSucceedsExactlyWhen(setup, next.0, throwOnErrors);
        assert s.server.remaining == [o] + next.0.server.remaining;
      }
    }
  }

  lemma NextResultSkips(setup: Setup, s: State, throwOnErrors: bool)
    requires s.executed && !s.pastNextResultEnd && s.server.remaining != []
    ensures var next := NextResult(setup, s, throwOnErrors, false);
            && (!next.1 <==> Skipped(setup, throwOnErrors, s.server.remaining[0]))
            && |next.0.server.remaining| < |s.server.remaining| && next.0.executed
            && (!next.1 ==> !next.0.pastNextResultEnd && next.0.server.remaining == s.server.remaining[1..])
  {
  }

  /** A drain that throws has still moved on, so trying again comes to an end. */
  lemma {:induction false} DrainMakesProgress(setup: Setup, s: State, throwOnErrors: bool)
    requires s.executed && !s.pastNextResultEnd
    ensures var drained := Drain(setup, s, throwOnErrors);
            drained.0.executed && if drained.1 then |drained.0.server.remaining| < |s.server.remaining| else drained.0.pastNextResultEnd
    decreases |s.server.remaining|
  {
    if s.server.remaining != [] {
      NextResultSkips(setup, s, throwOnErrors);
      var next := NextResult(setup, s, throwOnErrors, false).0;
      if !NextResult(setup, s, throwOnErrors, false).1 {
        DrainMakesProgress(setup, next, throwOnErrors);
      }
    }
  }

  /** Even with the option that lets a batch go on, a buffered statement cannot be executed again while a batch error
      is left. */
  lemma BufferedStopsAtBatchError(setup: Setup, s: State, first: Outcome, rest: seq<Outcome>, noData: bool)
    requires s.executed && !s.pastNextResultEnd && setup.buffered && BatchError in s.server.remaining
    ensures Execute(setup, s, first, rest, noData).1 == Error
  {
    assert !Skipped(setup, !setup.batchErrorContinue, BatchError);
    DrainSucceedsExactlyWhen(setup, s, !setup.batchErrorContinue);
  }
}
