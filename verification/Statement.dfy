/**
 The statement object itself (sqlsrv_stmt): its methods update its fields, and each refines the step of the same name.
 */
module Statement {
  import opened Wrappers
  import opened Cursor
  import opened StatementStates
  import opened StatementSafety

  class SqlStatement {
    const setup: Setup
    var executed: bool
    var pastNextResultEnd: bool
    var pastFetchEnd: bool
    var fetchCalled: bool
    var hasRows: bool
    var lastFieldIndex: FieldIndex
    var columnCount: int
    var currentResults: Option<Results>
    var described: nat
    var fieldCache: map<int, string>
    var server: Server
    var delivered: seq<int>

    constructor (setup: Setup)
      ensures this.setup == setup && Now() == INITIAL && Valid()
    {
      this.setup := setup;
      executed, pastNextResultEnd, pastFetchEnd, fetchCalled, hasRows := false, false, false, false, false;
      lastFieldIndex, columnCount, currentResults, described := -1, ACTIVE_NUM_COLS_INVALID, None, 0;
      fieldCache, server, delivered := map[], Server(Idle, []), [];
    }

    function Now(): State
      reads this
    {
      State(executed, pastNextResultEnd, pastFetchEnd, fetchCalled, hasRows, lastFieldIndex, columnCount, currentResults,
            described, fieldCache, server, delivered)
    }

    /** The flags belong together, a statement without a result set is safe, and what is left of the batch can be built. */
    ghost predicate Valid()
      reads this
    {
      Consistent(setup, Now()) && Safe(Now()) && AllBuildable(setup, server)
    }

    method Cancel()
      modifies this`server
      ensures Now() == StatementStates.Cancel(setup, old(Now()))
    {
      if setup.cancelDrops {
        server := Server(Idle, []);
      }
    }

    /** new_result_set */
    method NewResultSet() returns (threw: bool)
      modifies this
      ensures (Now(), threw) == StatementStates.NewResultSet(setup, old(Now()))
    {
      fetchCalled, hasRows, pastNextResultEnd, pastFetchEnd, lastFieldIndex := false, false, false, false, -1;
      columnCount := ACTIVE_NUM_COLS_INVALID;
      currentResults := None;
      described := 0;
      if setup.buffered {
        if !CanBuild(setup, server) {
          return true;
        }
        currentResults := Some(InMemory(if server.handle.At? then server.handle.outcome.rows else [], 0));
      } else {
        currentResults := Some(Live);
      }
      return false;
    }

    /** core_sqlsrv_next_result */
    method NextResult(throwOnErrors: bool, reportErrors: bool) returns (threw: bool)
      modifies this
      ensures (Now(), threw) == StatementStates.NextResult(setup, old(Now()), throwOnErrors, reportErrors)
    {
      hide StatementStates.NewResultSet;
      if !executed || pastNextResultEnd {
        if throwOnErrors {
          Cancel();
        }
        return true;
      }
      var noData := server.remaining == [];
      server := MoreResults(server);
      var failed := server.handle.At? && server.handle.outcome.BatchError?;
      if failed && throwOnErrors {
        Cancel();
        return true;
      }
      if failed && reportErrors {
        currentResults := None;
        fetchCalled, hasRows, pastFetchEnd, lastFieldIndex := false, false, false, -1;
        described := 0;
        return false;
      }
      if noData {
        pastNextResultEnd := true;
        return false;
      }
      threw := NewResultSet();
      if threw && throwOnErrors {
        Cancel();
      }
    }

    /** The loops of execute and closeCursor. */
    method Drain(throwOnErrors: bool) returns (threw: bool)
      requires executed
      modifies this
      ensures (Now(), threw) == StatementStates.Drain(setup, old(Now()), throwOnErrors)
    {
      hide StatementStates.NextResult;
      threw := false;
      while !pastNextResultEnd
        invariant executed && !threw
        invariant StatementStates.Drain(setup, old(Now()), throwOnErrors) == StatementStates.Drain(setup, Now(), throwOnErrors)
        decreases |server.remaining|, !pastNextResultEnd
      {
        NextResultGoesOn(setup, Now(), throwOnErrors);
        threw := NextResult(throwOnErrors, false);
        if threw {
          return true;
        }
      }
    }

    /** core_sqlsrv_execute */
    method CoreExecute(first: Outcome, rest: seq<Outcome>, noData: bool) returns (reply: Reply)
      modifies this
      ensures (Now(), reply) == StatementStates.CoreExecute(setup, old(Now()), first, rest, noData)
    {
      hide StatementStates.NewResultSet, StatementStates.Cancel, Described;
      server := Server(At(first, 0), rest);
      if first.BatchError? {
        if executed {
          Cancel();
        }
        return Error;
      }
      NewResultSetKeepsExecuted(setup, Now());
      var threw := NewResultSet();
      if threw {
        if executed {
          Cancel();
        }
        return Error;
      }
      executed := true;
      DescribeColumns(if noData then 0 else first.columns);
      return Yes;
    }

    /** PDO describes as many columns as there are. */
    method DescribeColumns(n: int)
      modifies this`columnCount, this`described
      ensures Now() == Described(old(Now()).(columnCount := n))
    {
      columnCount := n;
      described := if n > 0 then n else 0;
    }

    /** pdo_sqlsrv_stmt_execute */
    method Execute(first: Outcome, rest: seq<Outcome>, noData: bool) returns (reply: Reply)
      modifies this
      ensures (Now(), reply) == StatementStates.Execute(setup, old(Now()), first, rest, noData)
      ensures old(Valid()) && AllBuildable(setup, Server(At(first, 0), rest)) ==> Valid() && reply != NullPointer
    {
      hide Consistent, Safe, AllBuildable;
      if Valid() && AllBuildable(setup, Server(At(first, 0), rest)) {
        StepSafe(setup, Now(), DoExecute(first, rest, noData));
      }
      hide StatementStates.Drain, StatementStates.CoreExecute;
      if executed && !pastNextResultEnd {
        var threw := Drain(!setup.batchErrorContinue);
        if threw {
          return Error;
        }
      }
      reply := CoreExecute(first, rest, noData);
    }

    /** pdo_sqlsrv_stmt_next_rowset */
    method NextRowset() returns (reply: Reply)
      modifies this
      ensures (Now(), reply) == StatementStates.NextRowset(setup, old(Now()))
      ensures old(Valid()) ==> Valid() && reply != NullPointer
    {
      hide Consistent, Safe, AllBuildable;
      if Valid() {
        StepSafe(setup, Now(), DoNextRowset);
      }
      hide StatementStates.NextResult;
      var threw := NextResult(!setup.batchErrorContinue, setup.batchErrorContinue);
      if threw {
        return Error;
      }
      if pastNextResultEnd {
        described := 0;
        return No;
      }
      var columns := 0;
      if currentResults.Some? {
        var n := NumResultCols(server);
        if n.None? {
          return Error;
        }
        columns := n.value;
      }
      DescribeColumns(columns);
      return Yes;
    }

    /** pdo_sqlsrv_stmt_close_cursor */
    method CloseCursor() returns (reply: Reply)
      modifies this
      ensures (Now(), reply) == StatementStates.CloseCursor(setup, old(Now()))
      ensures old(Valid()) ==> Valid() && reply != NullPointer
    {
      hide Consistent, Safe, AllBuildable;
      if Valid() {
        StepSafe(setup, Now(), DoCloseCursor);
      }
      hide StatementStates.Drain;
      var threw := false;
      if executed {
        threw := Drain(true);
      }
      reply := if threw then Error else Yes;
    }

    /** core_sqlsrv_fetch */
    method Fetch(orientation: Orientation, offset: int) returns (reply: Reply)
      modifies this
      ensures (Now(), reply) == StatementStates.Fetch(setup, old(Now()), orientation, offset)
      ensures old(Valid()) ==> Valid() && reply != NullPointer
    {
      hide Consistent, Safe, AllBuildable;
      if Valid() {
        StepSafe(setup, Now(), DoFetch(orientation, offset));
      }
      hide StatementStates.FetchFrom;
      if pastNextResultEnd {
        return Error;
      }
      fieldCache := map[];
      if !executed || pastFetchEnd {
        return Error;
      }
      if !fetchCalled {
        var hasFields := columnCount;
        if columnCount == ACTIVE_NUM_COLS_INVALID {
          var n := NumResultCols(server);
          if n.None? {
            return Error;
          }
          hasFields := n.value;
          columnCount := hasFields;
        }
        if hasFields == 0 {
          return Error;
        }
      }
      if !setup.buffered && hasRows && !fetchCalled {
        fetchCalled := true;
        return Yes;
      }
      reply := MoveCursor(orientation, offset);
    }

    /** The call of the result set's fetch, and what follows it. */
    method MoveCursor(orientation: Orientation, offset: int) returns (reply: Reply)
      modifies this
      ensures (Now(), reply) == StatementStates.FetchFrom(setup, old(Now()), orientation, offset)
    {
      if currentResults.None? {
        return NullPointer;
      }
      hide FetchLive, FetchRows;
      match currentResults.value {
        case Live => reply := MoveLive(orientation);
        case InMemory(rows, position) => reply := MoveInMemory(rows, position, orientation, offset);
      }
    }

    method MoveLive(orientation: Orientation) returns (reply: Reply)
      modifies this
      ensures (Now(), reply) == FetchLive(old(Now()), orientation)
    {
      if !orientation.Next? || !server.handle.At? || server.handle.outcome.BatchError? {
        return Error;
      }
      var noData := AdvanceHandle();
      EndFetch(noData);
      return if noData then No else Yes;
    }

    method MoveInMemory(rows: seq<seq<Field>>, position: int, orientation: Orientation, offset: int) returns (reply: Reply)
      modifies this
      ensures (Now(), reply) == FetchRows(old(Now()), rows, position, orientation, offset)
    {
      hide Clamp, Target, Wrap, Landed;
      var step := if orientation.Relative? then offset else Wrap(offset + 1);
      var there := Clamp(Target(position, orientation, step, |rows|), |rows|);
      currentResults := Some(InMemory(rows, there));
      var noData := !(1 <= there <= |rows| || StaysBeforeFirst(position, orientation, step));
      EndFetch(noData);
      return if noData then No else Yes;
    }

    /** SQLFetchScroll to the next row of a forward-only cursor, which ends behind the last. */
    method AdvanceHandle() returns (noData: bool)
      requires server.handle.At? && server.handle.outcome.Rowset?
      modifies this`server, this`pastFetchEnd
      ensures var handle, count := old(server.handle), |old(server.handle).outcome.rows|;
              && noData == (handle.row >= count) && pastFetchEnd == (noData || old(pastFetchEnd))
              && server == old(server).(handle := handle.(row := if noData then count + 1 else handle.row + 1))
    {
      var count := |server.handle.outcome.rows|;
      noData := server.handle.row >= count;
      server := server.(handle := server.handle.(row := if noData then count + 1 else server.handle.row + 1));
      if noData {
        pastFetchEnd := true;
      }
    }

    /** The flags behind a fetch. */
    method EndFetch(noData: bool)
      modifies this`fetchCalled, this`lastFieldIndex, this`hasRows, this`delivered
      ensures Now() == if noData then old(Now()).(fetchCalled := false) else Landed(old(Now()))
    {
      if noData {
        fetchCalled := false;
      } else {
        fetchCalled, lastFieldIndex, hasRows, delivered := true, -1, true, [];
      }
    }

    /** core_get_field_common, and the entry in the cache */
    method ReadField(i: nat) returns (reply: Reply)
      modifies this
      ensures (Now(), reply) == StatementStates.ReadField(old(Now()), i)
    {
      if !fetchCalled || lastFieldIndex > i {
        return Error;
      }
      if currentResults.None? {
        return NullPointer;
      }
      if Drained(Now(), i) {
        return Error;
      }
      var row := CurrentRow(Now());
      if row.None? {
        return if currentResults.value.InMemory? then Dies else Error;
      }
      if i >= |row.value| || row.value[i].Bad? {
        return Error;
      }
      var value := row.value[i].value;
      delivered := delivered + [i];
      if lastFieldIndex < i {
        lastFieldIndex := i;
      }
      fieldCache := fieldCache[i := value];
      return Value(value);
    }

    /** pdo_sqlsrv_stmt_get_col_data with core_sqlsrv_get_field */
    method GetField(i: nat) returns (reply: Reply)
      modifies this
      ensures (Now(), reply) == StatementStates.GetField(old(Now()), i)
      ensures old(Valid()) ==> Valid() && reply != NullPointer
    {
      hide Consistent, Safe, AllBuildable;
      if Valid() {
        StepSafe(setup, Now(), DoGetField(i));
      }
      hide StatementStates.ReadField;
      if i >= described {
        return Dies;
      }
      if i in fieldCache {
        return Value(fieldCache[i]);
      }
      if !executed {
        return Error;
      }
      if i - lastFieldIndex >= 2 {
        ghost var from := lastFieldIndex + 1;
        for k := lastFieldIndex + 1 to i
          invariant StatementStates.ReadUpTo(old(Now()), from, i) == StatementStates.ReadUpTo(Now(), k, i)
        {
          if k in fieldCache {
            return Dies;
          }
          reply := ReadField(k);
          if !reply.Value? {
            return;
          }
        }
      }
      reply := ReadField(i);
    }
  }

  lemma NewResultSetKeepsExecuted(setup: Setup, s: State)
    ensures StatementStates.NewResultSet(setup, s).0.executed == s.executed
  {
  }

  lemma NextResultGoesOn(setup: Setup, s: State, throwOnErrors: bool)
    requires s.executed && !s.pastNextResultEnd
    ensures var next := StatementStates.NextResult(setup, s, throwOnErrors, false);
            && next.0.executed
            && (!next.1 ==> if s.server.remaining == [] then next.0.pastNextResultEnd && next.0.server.remaining == []
                            else |next.0.server.remaining| < |s.server.remaining|)
  {
  }
}
