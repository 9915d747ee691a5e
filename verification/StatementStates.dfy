/**
 The life of a statement, step by step: what each PDO operation does to the flags of sqlsrv_stmt, to the current result
 set, to the field cache and to the ODBC handle behind them (core_stmt.cpp, driven by pdo_stmt.cpp).
 */
module StatementStates {
  import opened Wrappers
  import opened Cursor

  const ACTIVE_NUM_COLS_INVALID := -99

  type FieldIndex = x: int | -1 <= x witness -1

  /** A field of a row; reading a bad one is an error of the driver. */
  datatype Field = Good(value: string) | Bad

  /** One outcome of a batch. In a buffered statement a result set may be impossible to build. */
  datatype Outcome = Rowset(columns: nat, rows: seq<seq<Field>>, buildFails: bool) | BatchError

  /** Where the ODBC handle stands. */
  datatype Handle = Idle | At(outcome: Outcome, row: nat)

  datatype Server = Server(handle: Handle, remaining: seq<Outcome>)

  /** The result set object: rows in memory, or a view of the handle. */
  datatype Results = InMemory(rows: seq<seq<Field>>, position: int) | Live

  /** Fixed for a statement. SQLCancel may drop what is left of a batch, or have no effect. */
  datatype Setup = Setup(buffered: bool, batchErrorContinue: bool, cancelDrops: bool)

  /** The fields of sqlsrv_stmt, the handle, and a log of the columns the driver delivered since the last fetch. */
  datatype State = State(
    executed: bool, pastNextResultEnd: bool, pastFetchEnd: bool, fetchCalled: bool, hasRows: bool,
    lastFieldIndex: FieldIndex, columnCount: int, results: Option<Results>, described: nat, fieldCache: map<int, string>,
    server: Server, delivered: seq<int>)

  const INITIAL := State(false, false, false, false, false, -1, ACTIVE_NUM_COLS_INVALID, None, 0, map[], Server(Idle, []), [])

  /** How an operation ends: NullPointer is a call through a missing result set, Dies an assertion of the driver. */
  datatype Reply = Yes | No | Error | Value(value: string) | NullPointer | Dies

  // ---------- the handle ----------

  /** SQLNumResultCols; an error when the handle stands on a batch error. */
  function NumResultCols(server: Server): Option<nat> {
    match server.handle
    case Idle => Some(0)
    case At(BatchError, _) => None
    case At(Rowset(columns, _, _), _) => Some(columns)
  }

  function Cancel(setup: Setup, s: State): State {
    if setup.cancelDrops then s.(server := Server(Idle, [])) else s
  }

  /** SQLMoreResults */
  function MoreResults(server: Server): Server {
    if server.remaining == [] then Server(Idle, []) else Server(At(server.remaining[0], 0), server.remaining[1..])
  }

  // ---------- new_result_set ----------

  /** The flags are reset and the old result set is gone before the new one is built. */
  function Reset(s: State): State {
    s.(fetchCalled := false, hasRows := false, pastNextResultEnd := false, pastFetchEnd := false, lastFieldIndex := -1,
       columnCount := ACTIVE_NUM_COLS_INVALID, results := None, described := 0)
  }

  predicate CanBuild(setup: Setup, server: Server) {
    setup.buffered ==>
      match server.handle
      case Idle => true
      case At(BatchError, _) => false
      case At(Rowset(columns, _, buildFails), _) => columns == 0 || !buildFails
  }

  /** The new state, and whether building the result set threw. */
  function NewResultSet(setup: Setup, s: State): (State, bool) {
    if !CanBuild(setup, s.server) then (Reset(s), true)
    else if !setup.buffered then (Reset(s).(results := Some(Live)), false)
    else (Reset(s).(results := Some(InMemory(if s.server.handle.At? then s.server.handle.outcome.rows else [], 0))), false)
  }

  // ---------- core_sqlsrv_next_result ----------

  /** The error marker: no result set, but the batch stays navigable. */
  function OnErrorMarker(s: State): State {
    s.(results := None, fetchCalled := false, hasRows := false, pastFetchEnd := false, lastFieldIndex := -1, described := 0)
  }

  function NextResult(setup: Setup, s: State, throwOnErrors: bool, reportErrors: bool): (State, bool) {
    if !s.executed || s.pastNextResultEnd then (if throwOnErrors then Cancel(setup, s) else s, true)
    else
      var moved := s.(server := MoreResults(s.server));
      if s.server.remaining == [] then (moved.(pastNextResultEnd := true), false)
      else if s.server.remaining[0].BatchError? && throwOnErrors then (Cancel(setup, moved), true)
      else if s.server.remaining[0].BatchError? && reportErrors then (OnErrorMarker(moved), false)
      else
        var built := NewResultSet(setup, moved);
        if built.1 then (if throwOnErrors then Cancel(setup, built.0) else built.0, true) else built
  }

  /** Skipping everything that is left, as execute and closeCursor do. */
  function Drain(setup: Setup, s: State, throwOnErrors: bool): (State, bool)
    requires s.executed
    decreases |s.server.remaining|, !s.pastNextResultEnd
  {
    if s.pastNextResultEnd then (s, false)
    else
      var next := NextResult(setup, s, throwOnErrors, false);
      if next.1 then next else Drain(setup, next.0, throwOnErrors)
  }

  // ---------- the operations of PDO ----------

  function Described(s: State): State {
    s.(described := if s.columnCount > 0 then s.columnCount else 0)
  }

  /** core_sqlsrv_execute; noData: the server answered SQL_NO_DATA. PDO then describes the columns. */
  function CoreExecute(setup: Setup, s: State, first: Outcome, rest: seq<Outcome>, noData: bool): (State, Reply) {
    var sent := s.(server := Server(At(first, 0), rest));
    if first.BatchError? then (if s.executed then Cancel(setup, sent) else sent, Error)
    else
      var built := NewResultSet(setup, sent);
      if built.1 then (if s.executed then Cancel(setup, built.0) else built.0, Error)
      else (Described(built.0.(executed := true, columnCount := if noData then 0 else first.columns)), Yes)
  }

  /** pdo_sqlsrv_stmt_execute */
  function Execute(setup: Setup, s: State, first: Outcome, rest: seq<Outcome>, noData: bool): (State, Reply) {
    var drained := if s.executed && !s.pastNextResultEnd then Drain(setup, s, !setup.batchErrorContinue) else (s, false);
    if drained.1 then (drained.0, Error) else CoreExecute(setup, drained.0, first, rest, noData)
  }

  /** pdo_sqlsrv_stmt_next_rowset */
  function NextRowset(setup: Setup, s: State): (State, Reply) {
    var next := NextResult(setup, s, !setup.batchErrorContinue, setup.batchErrorContinue);
    if next.1 then (next.0, Error)
    else if next.0.pastNextResultEnd then (next.0.(described := 0), No)
    else if next.0.results.None? then (Described(next.0.(columnCount := 0)), Yes)
    else match NumResultCols(next.0.server)
      case None => (next.0, Error)
      case Some(n) => (Described(next.0.(columnCount := n)), Yes)
  }

  /** pdo_sqlsrv_stmt_close_cursor */
  function CloseCursor(setup: Setup, s: State): (State, Reply) {
    if !s.executed then (s, Yes)
    else
      var drained := Drain(setup, s, true);
      (drained.0, if drained.1 then Error else Yes)
  }

  // ---------- core_sqlsrv_fetch ----------

  /** The column count as the first fetch sees it. */
  function CountColumns(s: State): Option<int> {
    if s.columnCount != ACTIVE_NUM_COLS_INVALID then Some(s.columnCount)
    else match NumResultCols(s.server)
      case None => None
      case Some(n) => Some(n)
  }

  function Landed(s: State): State {
    s.(fetchCalled := true, lastFieldIndex := -1, hasRows := true, delivered := [])
  }

  /** A forward-only cursor on the handle. */
  function FetchLive(s: State, orientation: Orientation): (State, Reply) {
    if !orientation.Next? || !s.server.handle.At? || s.server.handle.outcome.BatchError? then (s, Error)
    else if s.server.handle.row >= |s.server.handle.outcome.rows| then
      (s.(server := s.server.(handle := s.server.handle.(row := |s.server.handle.outcome.rows| + 1)),
          pastFetchEnd := true, fetchCalled := false), No)
    else (Landed(s.(server := s.server.(handle := s.server.handle.(row := s.server.handle.row + 1)))), Yes)
  }

  /** A scrolling cursor over rows in memory. */
  function FetchRows(s: State, rows: seq<seq<Field>>, position: int, orientation: Orientation, offset: int): (State, Reply) {
    var step := if orientation.Relative? then offset else Wrap(offset + 1);
    var there := Clamp(Target(position, orientation, step, |rows|), |rows|);
    var moved := s.(results := Some(InMemory(rows, there)));
    if 1 <= there <= |rows| || StaysBeforeFirst(position, orientation, step) then (Landed(moved), Yes)
    else (moved.(fetchCalled := false), No)
  }

  function FetchFrom(setup: Setup, s: State, orientation: Orientation, offset: int): (State, Reply) {
    match s.results
    case None => (s, NullPointer)
    case Some(Live) => FetchLive(s, orientation)
    case Some(InMemory(rows, position)) => FetchRows(s, rows, position, orientation, offset)
  }

  /** pdo_sqlsrv_stmt_fetch */
  function Fetch(setup: Setup, s: State, orientation: Orientation, offset: int): (State, Reply) {
    if s.pastNextResultEnd then (s, Error)
    else
      var cleared := s.(fieldCache := map[]);
      if !s.executed || s.pastFetchEnd then (cleared, Error)
      else
        var columns := if s.fetchCalled then Some(s.columnCount) else CountColumns(s);
        if columns.None? then (cleared, Error)
        else
          var counted := cleared.(columnCount := columns.value);
          if !s.fetchCalled && columns.value == 0 then (counted, Error)
          else if !setup.buffered && s.hasRows && !s.fetchCalled then (counted.(fetchCalled := true), Yes)
          else FetchFrom(setup, counted, orientation, offset)
  }

  // ---------- core_sqlsrv_get_field ----------

  /** The row the result set stands on. */
  function CurrentRow(s: State): Option<seq<Field>>
    requires s.results.Some?
  {
    match s.results.value
    case Live =>
      if s.server.handle.At? && s.server.handle.outcome.Rowset? && 1 <= s.server.handle.row <= |s.server.handle.outcome.rows|
      then Some(s.server.handle.outcome.rows[s.server.handle.row - 1]) else None
    case InMemory(rows, position) => if 1 <= position <= |rows| then Some(rows[position - 1]) else None
  }

  /** The handle has no more data for a column it has delivered on this row. */
  predicate Drained(s: State, i: nat)
    requires s.results.Some?
  {
    s.results.value.Live? && i in s.delivered
  }

  /** core_get_field_common, and the entry in the cache. */
  function ReadField(s: State, i: nat): (State, Reply) {
    if !s.fetchCalled || s.lastFieldIndex > i then (s, Error)
    else if s.results.None? then (s, NullPointer)
    else if Drained(s, i) then (s, Error)
    else match CurrentRow(s)
      case None => (s, if s.results.value.InMemory? then Dies else Error)
      case Some(row) =>
        if i >= |row| || row[i].Bad? then (s, Error)
        else (s.(lastFieldIndex := if s.lastFieldIndex < i then i else s.lastFieldIndex,
                 fieldCache := s.fieldCache[i := row[i].value], delivered := s.delivered + [i]), Value(row[i].value))
  }

  /** Fields that come before the one that was asked for are read and cached first. */
  function ReadUpTo(s: State, from: nat, i: nat): (State, Reply)
    requires from <= i
    decreases i - from
  {
    if from == i then ReadField(s, i)
    else if from in s.fieldCache then (s, Dies)
    else
      var one := ReadField(s, from);
      if !one.1.Value? then one else ReadUpTo(one.0, from + 1, i)
  }

  /** pdo_sqlsrv_stmt_get_col_data */
  function GetField(s: State, i: nat): (State, Reply) {
    if i >= s.described then (s, Dies)
    else if i in s.fieldCache then (s, Value(s.fieldCache[i]))
    else if !s.executed then (s, Error)
    else if i - s.lastFieldIndex >= 2 then ReadUpTo(s, s.lastFieldIndex + 1, i)
    else ReadField(s, i)
  }

  // ---------- runs ----------

  datatype Operation =
    | DoExecute(first: Outcome, rest: seq<Outcome>, noData: bool)
    | DoNextRowset
    | DoCloseCursor
    | DoFetch(orientation: Orientation, offset: int)
    | DoGetField(column: nat)

  function Step(setup: Setup, s: State, op: Operation): (State, Reply) {
    match op
    case DoExecute(first, rest, noData) => Execute(setup, s, first, rest, noData)
    case DoNextRowset => NextRowset(setup, s)
    case DoCloseCursor => CloseCursor(setup, s)
    case DoFetch(orientation, offset) => Fetch(setup, s, orientation, offset)
    case DoGetField(column) => GetField(s, column)
  }

  /** The state after a run of a new statement. */
  function Reached(setup: Setup, ops: seq<Operation>): State {
    if ops == [] then INITIAL else Step(setup, Reached(setup, ops[..|ops| - 1]), ops[|ops| - 1]).0
  }
}
