# A model of the msphpsql driver core

This project models the shared core of the Microsoft drivers for PHP for SQL Server, and proves what that core is for:

* **Buffered result sets and field reading.** A result set is copied into packed rows with a null bitmap and blocks of
  their own for LOBs, within a memory limit, and is then read back through a scrolling cursor and partial reads. Reading
  a field through memory gives what reading it from the driver gives (`BufferedEqualsDirect.dfy`).
* **Decimal formatting.** Two routines round in place in a char buffer; the specification is numeric, round half away
  from zero (`Numerals.dfy`, `DecimalFormat.dfy`, `DecimalParams.dfy`).
* **The statement.** Execute, fetch, column read, nextRowset and closeCursor change a handful of flags; the proofs are
  about whole runs of them: no call through a missing result set, batches walked once and in order, and a field cache
  that shows the row (`Statement*.dfy`).
* **Text codecs.** The DSN automaton and its grammar, the connection string printer, the quoter, the table-driven printf
  and the two passes of FormatMessage (`Dsn*.dfy`, `ConnString.dfy`, `Quoter.dfy`, `PrintOutput.dfy`,
  `IntegerFormat.dfy`, `FormattedPrint.dfy`, `ConversionText.dfy`, `MessageFormat.dfy`, `FormatMessage.dfy`,
  `StringMessages.dfy`).
* **UTF-8 stream parameters** sent in packets that end on character boundaries (`Utf8Stream.dfy`).
* **The access token cache**, a linked list with a clock (`TokenCache.dfy`, `TokenCacheRuns.dfy`).

`dafny verify dfyconfig.toml` checks the whole project.

## How it is built

Code of the driver that works in place is a method or a class here, with loops where the driver has loops. Each is
proved against a specification function, or against the property itself, and what the driver promises is proved about
the specification as lemmas. `Statement.SqlStatement` is the statement that is updated in place; `StatementStates` is
the same protocol as a function from state to state, on which the run properties are proved. `DsnParser.ConnStringParser`
is the automaton; `DsnGrammar` has the grammar, a text for every derivation, and the parser on values that the automaton
is proved to follow. `TokenCache.Cache` is the linked list; `TokenCacheRuns` has its rows and the runs.

What a specification function computes is in turn tied to something that does not go through it: a reader of what was
written (decimal and hexadecimal digits, literals, texts, encoded characters), the rows and values themselves, or a law
between operations.

ODBC is an abstract server. A column (`Odbc.Column`) holds its bytes and a list that says, for each cut-off call of
SQLGetData, whether the driver names the remaining total or answers SQL_NO_TOTAL; when the list ends, the driver fails.
A batch is a list of outcomes, each a result set or an error. Clocks, allocation and what a stream has ready are
parameters of the operations. C `long` and `SQLLEN` have 64 bits, `int` has 32; wrap-around is written out where the
driver can reach it.

## Where the code does not do what it should

Each of these is kept as the code has it, with the exact condition proved.

* `adjustDecimalPrecision` (core_stmt.cpp:1963-2112): when the exponent moves the point to just before the first digit
  and the rounding carries out of the digits, the carry lands on the point, as in `9.9e-1` at one decimal
  (`DecimalParams.CarryOntoPoint`). A literal without a digit before the point, cut to no decimals and not rounded up,
  vanishes, as `.4` does (`NothingIsLeft`). An integer literal whose zeros leave no room for a terminator, such as 39
  digits and `e38`, is written or read outside the 50 characters, and an infinity is searched past its end
  (`OutOfBounds`). `DecimalParams.AdjustDecimalPrecision` proves each of these exactly.
* `read_lob_field` (core_results.cpp:1472-1579) and the doubling loop of `get_field_as_string` (core_stmt.cpp:1804-1832)
  take a total named after the first cut for the total of the field, though it is only what remained. The cached block
  then counts too few bytes or the driver refuses the next call; the string gets too long (`LobReading.LateTotal`,
  `KeptLength`, `CanBeRead`, and the inputs of `LateTotalCuts`).
* A column kept as characters and read as binary keeps its own terminator behind each piece. A full `CHAR(10)` value does
  not fit its first read by that byte, and the second read, whose place is fixed at 2048, fails an assertion that ends
  the process (core_stmt.cpp:1833-1844, core_results.cpp:1298-1300); a longer value comes out with bytes in the wrong
  place (`BufferedEqualsDirect.FullCharAsBinary`, `LongCharAsBinary`). `FieldReading.GetFieldAsString` proves for every
  size when a read from memory comes out whole, when the process dies, and when the second read would start behind its
  block. From the driver the same fixed place makes the length of a value wrong that is longer than its described size
  (`DriverLength`, `DriverLengthIsOff`).
* A relative fetch of 0 before the first row reports success (core_results.cpp:683-734), and the PDO offset `LONG_MAX`
  wraps when one is added to it (`Cursor.ZeroBasedOffset`).
* When a buffered result set cannot be built, nextRowset, closeCursor or another execute can leave the statement executed
  without a result set, and the next fetch calls through it. `StatementDanger` proves for each of the three exactly when,
  from every state that is still safe, and gives a run for each.
* Executing a buffered statement again drains the old batch silently, and that drain fails at a batch error even with
  batch errors tolerated (`StatementBatches.BufferedStopsAtBatchError`).
* The comment above `pdo_sqlsrv_stmt_next_rowset` (pdo_stmt.cpp:1201-1209) says it clears the field cache; only a fetch
  does. A fetch that fails behind its first check has cleared the cache but not the number of the last field read, and a
  handle delivers a column only once: exactly the columns up to and including that one can no longer be read
  (`StatementFields.FailedFetchLosesFields`, `ColumnIsLost`).
* The time to live of tokens is twice the longest pooling time-out only while the doubling does not wrap
  (core_conn.cpp:232-266, `TokenCacheRuns.TtlCoversPooling`).
* `discard_trailing_white_spaces` (pdo_parser.cpp:96-107) looks at the character before the end of a key before it looks at
  the length. `DsnParser.ConnStringParser.ParseConnString` proves that the character before the text is read exactly when
  the text starts with `=`, as `=x` does (`DsnParser.KeyIsMissing`); the result does not depend on it.
* `calc_utf8_missing` (core_stmt.cpp:1404-1435) goes back over mid bytes without a bound, and its count wraps behind more of
  them than the first byte takes, so that the second read of a packet asks for more than the buffer has room for
  (core_stmt.cpp:2650-2652). `Utf8Stream.ScanGoesWrongExactlyWhen` has both conditions for any bytes, and `ScanGoesWrong` an
  input for each; on a UTF-8 text neither happens (`CutIsCompleted`).
* Width and precision of a format are added up in an `int` (FormattedPrint.cpp:474-509). What is printed is as wide as
  written exactly up to `INT_MAX` (`ConversionText.SpecReadsBack`, `WidthTooLarge`, `StarsAreTaken`), and
  `FormattedPrint.FormattedPrintA` and `FormatMessage.FormatMessageA` prove exactly when they come to a number beyond.

## Model

| member | source | states |
|---|---|---|
| Numerals.RoundHalfUpIsNearest | source/shared/core_stmt.cpp:2115-2155 | the rounding used as specification is the one integer within half a unit, ties going up in magnitude |
| Numerals.RoundHalfUpByNextDigit | source/shared/core_stmt.cpp:2125-2131 | looking at only the first digit dropped rounds by the whole number |
| Numerals.BumpAddsOne | source/shared/core_stmt.cpp:2133-2150 | the carry over the digits adds one to their value, with the digit carried out |
| Numerals.BumpAcrossPoint | source/shared/core_stmt.cpp:2133-2150 | the point takes no part in the carry |
| Numerals.RoundPartsRounds | source/shared/core_stmt.cpp:2115-2155 | the digits kept, carry included, are the number rounded half away from zero to the decimals asked for |
| DecimalFormat.CarryOver | source/shared/core_stmt.cpp:2133-2150 | the loop in place leaves the bumped digits between offset and the cut, reports the carry, and changes nothing else |
| DecimalFormat.RoundUpDecimalNumbers | source/shared/core_stmt.cpp:2115-2155 | in place: nothing when there is nothing to drop, otherwise the rounded digits with the carry in the place before them, terminated at the new end |
| DecimalFormat.FormatTextRounds | source/shared/core_stmt.cpp:1640-1710 | the formatted text is worth the input rounded half away from zero to the scale, or the input if no rounding is asked for; the sign stays, a digit stands before the point, and at most one char is added |
| DecimalFormat.FormatTextIdempotent | source/shared/core_stmt.cpp:1640-1710 | formatting a formatted text changes nothing |
| DecimalFormat.FieldIsFormatted | source/shared/core_stmt.cpp:1669-1692 | the text has the fewest decimals of its own, those asked for and those of the field, and is worth the number rounded half away from zero to them; with none asked for it keeps its number |
| DecimalFormat.FormatDecimalNumbers | source/shared/core_stmt.cpp:1640-1710 | the routine in place leaves in the field, terminated, the formatted text for the smaller of the places asked for and the field's scale |
| DecimalParams.AdjustDecimalPrecision | source/shared/core_stmt.cpp:1963-2112 | leaves alone what is too long or no number; a literal that comes back unchanged needs no rounding or has an exponent out of range, and a literal of no more decimals than asked for comes back unchanged; runs past the end exactly for a text without digit and point, and out of the buffer exactly when the appended zeros leave no room; otherwise the text reads as the literal rounded half away from zero if and only if the carry does not land on the point and the numeral does not vanish |
| DecimalParams.UnroundedIsAdjusted | source/shared/core_stmt.cpp:2013-2017 | a literal without exponent that needs no rounding reads as the rounded number just as it stands |
| DecimalParams.WholeNumberIsExact | source/shared/core_stmt.cpp:2046-2051 | one whose exponent makes it a whole number is its own rounding at any number of decimals |
| DecimalParams.AdjustScientific | source/shared/core_stmt.cpp:2024-2105 | the same for a literal with an exponent, whichever way the point moves |
| DecimalParams.LostIsWrong | source/shared/core_stmt.cpp:2068-2100 | a carry that lands on the point gives a text that is worth something else |
| DecimalParams.CarryOntoPoint | source/shared/core_stmt.cpp:2068-2100 | 9.9e-1 at one decimal becomes a text that is not 1.0 |
| DecimalParams.NothingIsLeft | source/shared/core_stmt.cpp:2012-2021 | .4 at no decimals becomes a blank |
| DecimalParams.OutOfBounds | source/shared/core_stmt.cpp:1991-2060 | 39 digits and e38 do not fit the buffer, and inf has nothing the scan stops at |
| Bytes.WithBitSets | source/shared/core_results.cpp:64-77 | setting a bit sets that bit and no other |
| Bytes.DecodeEncodeLength | source/shared/core_results.cpp:570-650 | a length or an address written into its word reads back |
| Odbc.Column.GetData | source/shared/core_results.cpp:1490-1500 | what is taken as given of SQLGetData: it continues where it stopped, cuts off what does not fit with its terminator, names the total or not as the driver likes, and writes nowhere else |
| LobReading.Grow | source/shared/core_results.cpp:1516-1540 | the block is sized by the named total or doubled, kept in content, and refused exactly when it goes over the limit |
| LobReading.ReadMore | source/shared/core_results.cpp:1540-1564 | the next call fills the block behind what is there, inside the allocation; it fails only when it has no room left or the driver has no further answer |
| LobReading.StaysInStep | source/shared/core_results.cpp:1516-1564 | after each cut-off call the sizes are the next doubling, the total, or those behind a late total, and never exceed the demand |
| LobReading.EndsInStep | source/shared/core_results.cpp:1516-1579 | when the field fits it can be read, the last size is the demand, and the length recorded is the one that is kept |
| LobReading.FailsInStep | source/shared/core_results.cpp:1503-1512 | a call fails only for a field that cannot be read |
| LobReading.ReadLobField | source/shared/core_results.cpp:1472-1579 | NULL exactly for NULL; a block exactly when the driver gets through the field and its demand stays within the limit, holding the field, or the part of it that a late total counts |
| LobReading.LateTotalCuts | source/shared/core_results.cpp:1541-1577 | a total named at the second cut: 5000 bytes cannot be read, of 10000 bytes 7952 are kept |
| PartialReads.SameAsDriver | source/shared/core_results.cpp:1251-1319 | a partial read from memory delivers what a driver that names the total delivers |
| PartialReads.PiecesJoin | source/shared/core_results.cpp:881-943 | successive pieces of a field as text join to the text of the whole |
| PartialReads.ToSameString | source/shared/core_results.cpp:1251-1319 | the piece copied is the next one, with its length, its return code and where the next read starts; no write outside piece and terminator; the assertion fails exactly when there is no room for the terminator |
| PartialReads.BinaryToString | source/shared/core_results.cpp:881-943 | the piece written spells the next bytes in hexadecimal digits, the high one first, whole bytes only, terminated; without room for the terminator one byte is written all the same |
| PartialReads.HexTextSpells | source/shared/core_results.cpp:881-943 | a reader that takes each pair of characters for the byte they are the digits of finds the data in the digits written, and in no other text |
| PartialReads.TextOfSpells | source/shared/core_results.cpp:736-800 | the text of a field is the one text that spells it: digits for binary data asked for as narrow or wide characters, the data itself otherwise |
| PartialReads.UnitsServedAreMost | source/shared/core_results.cpp:908-922 | a read delivers as many whole units as fit before the terminator, and no fewer |
| PartialReads.Deliver | source/shared/core_results.cpp:757-810 | each conversion that needs no character set serves its units as specified and moves on by what it delivered |
| RowLayout.Layout | source/shared/core_results.cpp:390-562 | slots are sized by column type, 8-aligned, pairwise disjoint, inside the row and clear of the null bitmap |
| RowLayout.LongestValueFits | source/shared/core_results.cpp:398-488 | the slot of a column has room for the longest value of the described size in the C type that is used, its length word and terminator, and at most one byte more; columns without a size get a pointer |
| RowLayout.KindsAreKept | source/shared/core_results.cpp:490-560 | which columns are kept as bytes, as wide characters, as numbers of native size, and as characters |
| RowLayout.PackedIsSeparate | source/shared/core_results.cpp:390-504 | placing each slot at the next aligned place behind the one before it keeps them apart |
| RowLayout.SetBit | source/shared/core_results.cpp:64-69 | one null bit is set, every other bit and byte is as before |
| RowFilling.FillNative | source/shared/core_results.cpp:567-669 | a field of native size is in its slot, only the slot is written |
| RowFilling.FillSized | source/shared/core_results.cpp:567-669 | a field of declared size is behind its length word, only the slot is written |
| RowFilling.FillLob | source/shared/core_results.cpp:594-612 | the block behind the slot's address holds what is kept of the LOB; filled exactly when the driver gets through it within the limit, and each of the two failures only for its own reason |
| RowFilling.FillField | source/shared/core_results.cpp:584-655 | the column reads back as what is kept of the field, NULL or value; only its slot and null bit change; charged to the memory used; filled exactly when the driver gets through it within the limit |
| RowFilling.EarlierColumnsKept | source/shared/core_results.cpp:584-655 | filling a column leaves the columns before it readable as they were |
| RowFilling.FillRow | source/shared/core_results.cpp:567-669 | every column of the row reads back; memory used is the sum of the charges and within the limit; filled exactly when all of it can be read and is affordable |
| RowFilling.DescribedIsPromised | source/shared/core_results.cpp:398-560 | a value within the size the driver described is one that its slot can take |
| RowFilling.RowIsCharged | source/shared/core_results.cpp:584-640 | a row without LOBs is charged what its slots take in the row, but for their alignment |
| RowFilling.LobIsCharged | source/shared/core_results.cpp:594-612 | a LOB is charged its length, and checked for that much when its total is named, for less than twice as much otherwise |
| Cursor.NextVisitsEveryRow | source/shared/core_results.cpp:683-734 | the k-th NEXT stands on row k, and behind the last row it stays there |
| Cursor.PriorUndoesNext | source/shared/core_results.cpp:683-734 | PRIOR takes NEXT back, except behind the last row |
| Cursor.RelativeIsManySteps | source/shared/core_results.cpp:683-734 | RELATIVE is so many times NEXT or PRIOR |
| Cursor.FromTheEnds | source/shared/core_results.cpp:683-734 | ABSOLUTE counts NEXTs from before the first row, FIRST is one of them, LAST is PRIOR from behind the last row |
| Cursor.ZeroBasedOffset | source/shared/core_stmt.cpp:594-596 | counting from one instead of zero lands where it should if and only if the offset is not LONG_MAX |
| BufferedResults.BufferedResultSet.constructor | source/shared/core_results.cpp:375-562 | a layout of separate slots for the columns, nothing cached yet |
| BufferedResults.BufferedResultSet.Fill | source/shared/core_results.cpp:567-669 | the cache is there exactly when the driver gets through every field and every row was affordable; then it shows the server's rows and the memory used is their sum and within the limit |
| BufferedResults.RowsAddUp | source/shared/core_results.cpp:567-640 | the memory in use grows by the charge of each row |
| BufferedResults.RowsAreCharged | source/shared/core_results.cpp:567-640 | without LOBs it is the number of rows times what their slots take, but for alignment |
| BufferedResults.BufferedResultSet.Fetch | source/shared/core_results.cpp:683-734 | the position is the exact one clamped to one row around the result set in spite of 64-bit wrap-around; success exactly on a row, or for relative 0 before the first |
| BufferedResults.BufferedResultSet.GetData | source/shared/core_results.cpp:736-817 | NULL for NULL; otherwise the next piece of the field as it is kept, from the start when another column was read before; an assertion or a stray byte exactly when the terminator does not fit |
| FieldReading.ReadByDoubling | source/shared/core_stmt.cpp:1804-1832 | behind a first piece of the initial length: the loop ends exactly when the driver gets through, with the whole field, or with a length that is too large exactly when a total was named late |
| FieldReading.ReadRest | source/shared/core_stmt.cpp:1833-1854 | the rest goes to a fixed place: the length is right and the value whole behind a first piece of the initial length, otherwise off by the difference; dies or starts behind its block exactly when the field is too short for that place |
| FieldReading.TextSlice | source/shared/core_results.cpp:881-943 | a piece of the bytes as text is that piece of the text |
| FieldReading.Pull | source/shared/core_results.cpp:736-817 | memory and driver serve a read alike: the next bytes, success exactly when the rest fits, no write outside the buffer |
| FieldReading.GetFieldAsString | source/shared/core_stmt.cpp:1712-1895 | NULL exactly for NULL; a value that fits its described size comes out whole from either source, one without a size whole from memory, when it is read with the terminator it is kept with; from memory, for every size, exactly when the value equals the whole text, when the process dies, and when memory behind the block is written; from the driver, for every size, exactly when it fails and how long the value is, and exactly when it is the field unless that is longer than a first room of another than the initial length |
| FieldReading.DriverLengthIsOff | source/shared/core_stmt.cpp:1804-1854 | a value that is longer than its first room of another than the initial length gets a length that is wrong by that difference, from a driver that names the total always or never |
| BufferedEqualsDirect.ReadBothWays | source/shared/core_stmt.cpp:1712-1895 | for a driver that keeps to the sizes it describes and spells binary data in hexadecimal digits: a result set buffered, moved to any row, and read as a string of any target that needs no character set, beside the same field from the driver; a value that fits its described size comes out whole and equal from both, and for every size and every way of naming totals each says exactly how it ends and when it comes out as the text of the field |
| BufferedEqualsDirect.AllIsKept | source/shared/core_results.cpp:1541-1577 | the text kept is the text of the field exactly when it is no LOB whose total was named late |
| BufferedEqualsDirect.FullCharAsBinary | source/shared/core_stmt.cpp:1833-1844 | a full CHAR(10) value read as binary ends the process, a full CHAR(2100) value comes out wrong |
| BufferedEqualsDirect.FullWideCharAsBinary | source/shared/core_stmt.cpp:1833-1844 | so does a full NCHAR(10) value, and a CHAR(10) value kept as wide characters by a UTF-8 connection |
| BufferedEqualsDirect.LongCharAsBinary | source/shared/core_stmt.cpp:1833-1854 | a VARCHAR(max) value of 3000 bytes read as binary comes out wrong |
| StatementSafety.FetchThroughNullExactlyWhenDangerous | source/shared/core_stmt.cpp:546-620 | a fetch calls through a missing result set if and only if the flags say so |
| StatementSafety.FieldNeverThroughNull | source/shared/core_stmt.cpp:1441-1457 | a column read never does, whatever failed before |
| StatementSafety.RunSafe | source/shared/core_stmt.cpp:196-226 | over every run in which result sets can be built, a statement without one is not executed, past the end, or without columns |
| StatementSafety.NoRunReachesNull | source/pdo_sqlsrv/pdo_stmt.cpp:535-760 | over every such run no operation calls through a missing result set |
| StatementSafety.StepSafe | source/pdo_sqlsrv/pdo_stmt.cpp:380-898 | no operation leads out of safety or calls through a missing result set |
| StatementDanger.EveryRunConsistent | source/pdo_sqlsrv/pdo_stmt.cpp:380-898 | over every run, whatever fails, an operation calls through a missing result set if and only if it is a fetch of a dangerous statement |
| StatementDanger.NextRowsetDangerousExactlyWhen | source/shared/core_stmt.cpp:967-1071 | nextRowset leaves a dangerous statement if and only if the next result set cannot be built and the cancel that follows, if any, keeps the handle on it |
| StatementDanger.DrainDangerousExactlyWhen | source/pdo_sqlsrv/pdo_stmt.cpp:397-402 | a drain does so if and only if the first outcome it cannot pass does |
| StatementDanger.CloseCursorDangerousExactlyWhen | source/pdo_sqlsrv/pdo_stmt.cpp:380-411 | closeCursor does so if and only if its drain stops at such a result set |
| StatementDanger.ExecuteDangerousExactlyWhen | source/pdo_sqlsrv/pdo_stmt.cpp:535-640 | executing does so, with or without results left, if and only if its drain stops at such a result set, or nothing stops it and the first new result set is such a one |
| StatementDanger.OthersAreNotDangerous | source/shared/core_stmt.cpp:546-620 | a fetch or a column read never does |
| StatementDanger.NextRowsetReachesNull | source/pdo_sqlsrv/pdo_stmt.cpp:1211-1259 | a run: execute, nextRowset, fetch |
| StatementDanger.CloseCursorReachesNull | source/pdo_sqlsrv/pdo_stmt.cpp:380-411 | a run: execute, closeCursor, fetch |
| StatementDanger.ExecuteReachesNull | source/pdo_sqlsrv/pdo_stmt.cpp:535-640 | a run: execute, execute of a result set that can be built, fetch |
| StatementBatches.BatchIsWalkedInOrder | source/pdo_sqlsrv/pdo_stmt.cpp:1211-1259 | nextRowset visits each outcome of the batch, result set or error marker, once and in order |
| StatementBatches.BatchEnds | source/shared/core_stmt.cpp:967-1071 | behind the last outcome it answers no, then reports an error for good |
| StatementBatches.OnlyExecuteReopens | source/shared/core_stmt.cpp:196-226 | no operation but executing leads away from the end of the results |
| StatementBatches.ExecuteReopens | source/shared/core_stmt.cpp:473-526 | a successful execute stands on the first outcome with the rest ahead and nothing fetched |
| StatementBatches.DrainSucceedsExactlyWhen | source/pdo_sqlsrv/pdo_stmt.cpp:397-402 | a drain loop ends without an error if and only if every outcome left can be passed over |
| StatementBatches.DrainMakesProgress | source/pdo_sqlsrv/pdo_stmt.cpp:548-559 | a drain that ends in an error has used up outcomes |
| StatementBatches.BufferedStopsAtBatchError | source/pdo_sqlsrv/pdo_stmt.cpp:548-559 | executing a buffered statement again fails while a batch error is left |
| StatementFields.EveryFetchLandsOnRow | source/shared/core_stmt.cpp:546-620 | over every run, whatever fails, a fetch that answers yes stands on a row whose fields were all described and of which nothing has been read, unless it was relative 0 before the first row |
| StatementFields.FieldSeesRow | source/shared/core_stmt.cpp:822-919 | a column read returns the row's value, fails exactly at a column the driver cannot deliver, reads the columns in between in order and each once, and keeps the cache equal to the columns read so far |
| StatementFields.AnyOrderSeesRow | source/shared/core_stmt.cpp:822-919 | any sequence of requests in any order with repeats returns each column's value, so the ascending-order error cannot come up |
| StatementFields.NextRowsetKeepsCache | source/pdo_sqlsrv/pdo_stmt.cpp:1201-1259 | nextRowset does not touch the field cache |
| StatementFields.FailedFetchLosesFields | source/shared/core_stmt.cpp:558-610 | behind a fetch that fails, in any orientation, exactly the columns up to and including the last one read can no longer be read, and every other read answers as before |
| StatementFields.ColumnIsLost | source/shared/core_stmt.cpp:1441-1475 | a run: a column is read, a forward-only cursor refuses to move back, and the same column can no longer be read |
| StatementFetches.ExecuteStandsBeforeFirst | source/shared/core_stmt.cpp:473-526 | executing stands before the first row of the first result set |
| StatementFetches.NextRowsetStandsBeforeFirst | source/shared/core_stmt.cpp:967-1071 | so does moving on to the next result set |
| StatementFetches.NextVisitsTheRows | source/shared/core_stmt.cpp:546-620 | in memory and on the handle, the k-th fetch answers yes and stands on the k-th row, then no, and from then on no again or, on a forward-only handle, an error |
| StatementFetches.EveryOrientationLands | source/shared/core_stmt.cpp:594-612 | in memory: the row, counted from 0, on which each orientation and offset lands, and no where there is none |
| StatementFetches.OnlyNextOnHandle | source/shared/core_stmt.cpp:594-612 | a forward-only handle refuses any other orientation |
| StatementFetches.ExecuteFetchRead | source/shared/core_stmt.cpp:822-919 | executed, fetched k times and read in any order with repeats, a result set gives the values of its k-th row |
| StatementFetches.NoDataHasNothingToFetch | source/shared/core_stmt.cpp:546-590 | a statement without data is executed and every fetch fails |
| StatementFetches.FailedExecuteIsCancelled | source/shared/core_stmt.cpp:520-532 | when executing again fails and errors are thrown, a cancel that works leaves nothing on the handle |
| StatementFetches.CloseCursorAnswers | source/pdo_sqlsrv/pdo_stmt.cpp:380-411 | closeCursor answers yes if and only if nothing is left that it cannot pass over |
| StatementFetches.ExecuteAnswers | source/pdo_sqlsrv/pdo_stmt.cpp:535-640 | executing answers yes if and only if what is left can be passed over and the first new outcome is a result set that can be built |
| StatementFetches.NextRowsetAnswers | source/pdo_sqlsrv/pdo_stmt.cpp:1211-1259 | nextRowset answers yes if and only if the next outcome can be shown, no if and only if there is none |
| Statement.SqlStatement.NewResultSet | source/shared/core_stmt.cpp:196-226 | flags reset, old result set gone, new one built or an error, as the protocol says |
| Statement.SqlStatement.NextResult | source/shared/core_stmt.cpp:967-1071 | the next outcome, the end, an error or an error marker, as the protocol says |
| Statement.SqlStatement.Drain | source/pdo_sqlsrv/pdo_stmt.cpp:397-402 | the loop ends on every batch, as the protocol says |
| Statement.SqlStatement.CoreExecute | source/shared/core_stmt.cpp:473-526 | a new batch and its first result set, as the protocol says |
| Statement.SqlStatement.Execute | source/pdo_sqlsrv/pdo_stmt.cpp:535-640 | the old batch drained, the new one executed and its columns counted, as the protocol says; a valid statement stays valid and no call goes through a missing result set |
| Statement.SqlStatement.NextRowset | source/pdo_sqlsrv/pdo_stmt.cpp:1211-1259 | moves on and recounts the columns, with none for an error marker, as the protocol says; a valid statement stays valid and no call goes through a missing result set |
| Statement.SqlStatement.CloseCursor | source/pdo_sqlsrv/pdo_stmt.cpp:380-411 | drains what is left of an executed statement, as the protocol says; a valid statement stays valid and no call goes through a missing result set |
| Statement.SqlStatement.Fetch | source/shared/core_stmt.cpp:546-620 | the checks before a fetch, the cache cleared, the move, as the protocol says; a valid statement stays valid and no call goes through a missing result set |
| Statement.SqlStatement.MoveCursor | source/shared/core_stmt.cpp:588-612 | the move and the flags behind it, in memory and on the handle |
| Statement.SqlStatement.GetField | source/shared/core_stmt.cpp:822-919 | from the cache, or by reading up to the column, as the protocol says; a valid statement stays valid and no call goes through a missing result set |
| DsnRoundTrip.AcceptedIsDerived | source/pdo_sqlsrv/pdo_parser.cpp:200-406 | an accepted text is a text of the grammar, derived by the reading returned |
| DsnRoundTrip.DerivedIsAccepted | source/pdo_sqlsrv/pdo_parser.cpp:200-406 | every text of the grammar is accepted with the reading it was derived from, so no text has two |
| DsnRoundTrip.AcceptsExactlyTheGrammar | source/pdo_sqlsrv/pdo_parser.cpp:200-406 | accepted if and only if derived |
| DsnRoundTrip.TextAsWritten | source/pdo_sqlsrv/pdo_parser.cpp:200-406 | a text as it is written, with blanks of all kinds, a name in another case, a plain and a braced value: its pairs and what is stored |
| DsnErrors.RefusedForItsFault | source/pdo_sqlsrv/pdo_parser.cpp:200-406 | a text of blanks is refused as such; any other text that is refused has well-formed pairs in front of the place complained about, and there the fault that its error names |
| DsnGrammar.MeaningHoldsValues | source/pdo_sqlsrv/pdo_parser.cpp:111-154 | under each key stands the value of its last pair, empty, plain as written, or the body in its braces, and nothing else is stored |
| DsnGrammar.LookupFindsFirst | source/pdo_sqlsrv/pdo_parser.cpp:165-188 | the option found is the first of that name, and none is found if and only if there is none |
| DsnGrammar.CaseIsIgnored | source/pdo_sqlsrv/pdo_parser.cpp:171-175 | names are the same when each character is the same or the same letter in the other case |
| DsnGrammar.TrimRightIsCut | source/pdo_sqlsrv/pdo_parser.cpp:96-107 | a key is cut down to its last character that is no blank |
| DsnParser.ConnStringParser.DiscardTrailingWhiteSpaces | source/pdo_sqlsrv/pdo_parser.cpp:96-107 | the length of the key without its trailing blanks; the character before the text is read exactly for a key without other characters at its start |
| DsnParser.ConnStringParser.ValidateKey | source/pdo_sqlsrv/pdo_parser.cpp:165-188 | the option of that name without regard to case, or the error that names the key |
| DsnParser.ConnStringParser.AddConnOption | source/pdo_sqlsrv/pdo_parser.cpp:127-154 | one more pair is stored, replacing an earlier one of the same key; a password goes to its own place |
| DsnParser.ConnStringParser.ParseConnString | source/pdo_sqlsrv/pdo_parser.cpp:200-406 | the automaton ends on every text; for every text of the grammar it ends without an error, with the value of the last pair stored under each key; for any other with the error of the grammar's parser; the character before the text is read if and only if the text starts with the equals sign |
| DsnParser.KeyIsMissing | source/pdo_sqlsrv/pdo_parser.cpp:96-107 | a text without a first key is such a text, and an error unless an option has no name |
| ConnString.IsConnOptValueEscaped | source/shared/core_conn.cpp:815-842 | true exactly when every closing brace is doubled, inside the braces of a value in braces, in the whole of any other |
| ConnString.InnerOfBraces | source/shared/core_conn.cpp:1188-1191 | a value in braces is taken for what is inside them, any other for itself |
| ConnString.Append | source/shared/core_conn.cpp:1183-1196 | name, braces if the value has none, and a semicolon are appended |
| ConnString.PrintThenParse | source/shared/core_conn.cpp:1183-1196 | what is printed is parsed back to the same keys and values, each ending at the brace the printer wrote, if and only if every value passes the escape check |
| ConnString.EveryValueStored | source/pdo_sqlsrv/pdo_parser.cpp:127-154 | with distinct keys each printed value is stored under its key, as it is when it came in braces, in braces otherwise |
| TokenCache.HashFnv1a64 | source/shared/core_sqlsrv.h:1064-1072 | the loop computes the FNV-1a hash in 64 bits |
| TokenCache.HashOfA | source/shared/core_sqlsrv.h:1064-1072 | the published hash of one character |
| TokenCache.Widen | source/shared/core_conn.cpp:169-182 | the token data are the raw bytes interleaved with zeros |
| TokenCache.Cache.InitTtl | source/shared/core_conn.cpp:232-266 | the time to live is the floor or twice the largest time-out configured, doubled in 64 bits |
| TokenCache.Cache.Unlink | source/shared/core_conn.cpp:134-147 | the list in place loses that one entry |
| TokenCache.Cache.CleanupExpired | source/shared/core_conn.cpp:134-147 | the entries within their time stay, in order, and no other |
| TokenCache.Cache.Get | source/shared/core_conn.cpp:151-194 | the entry with the same bytes, stamped, or a new one at the head; without memory no token and nothing but the clean-up |
| TokenCache.Cache.Touch | source/shared/core_conn.cpp:199-210 | the entry of that token is stamped, nothing else changes |
| TokenCache.NoEntryTwice | source/shared/core_conn.cpp:106-117 | a linked list that ends has no entry twice |
| TokenCacheRuns.TtlCoversPooling | source/shared/core_conn.cpp:232-266 | at least 120, and at least twice the largest time-out if and only if the doubling does not wrap |
| TokenCacheRuns.TtlIsLonger | source/shared/core_conn.cpp:261-265 | it is the floor or twice the time-out, whichever is longer, and the floor when the doubling wraps |
| TokenCacheRuns.RunConsistent | source/shared/core_conn.cpp:106-210 | over every run, failed gets included, no two live entries hold the same bytes or token, and every token is its bytes widened; new tokens may reuse any memory that the clean-up has freed |
| TokenCacheRuns.GotConsistent | source/shared/core_conn.cpp:151-194 | a token got is the widened form of the bytes asked for |
| TokenCacheRuns.GotIsCached | source/shared/core_conn.cpp:151-194 | what was got is in the cache, stamped, and beside it only what was there before, of other bytes, and used in time |
| TokenCacheRuns.TokenStays | source/shared/core_conn.cpp:134-210 | a token used again in time stays live over any run, with the time of its last use |
| TokenCacheRuns.SameTokenAgain | source/shared/core_conn.cpp:151-194 | asking for the same bytes returns the same token if and only if its time is not over, or its memory is used again |
| TokenCacheRuns.LateTokenIsFreed | source/shared/core_conn.cpp:134-147 | the first clean-up after its time frees it, and its memory is in use again exactly when the new token was put there |
| TokenCacheRuns.FreedMemoryIsReused | source/shared/core_conn.cpp:151-194 | a get whose own clean-up frees a token may put the new one in its place |
| Utf8Stream.CutIsTextAtBoundary | source/shared/core_stmt.cpp:1404-1435 | cutting a UTF-8 text leaves a text if and only if the cut is at a character boundary |
| Utf8Stream.CharIsEncoded | source/shared/core_stmt.cpp:1404-1435 | each character of a text is the encoding, in one to four bytes, of the number it stands for, which is no surrogate and not beyond U+10FFFF |
| Utf8Stream.EncodedIsChar | source/shared/core_stmt.cpp:1404-1435 | the encoding of each such number is a character |
| Utf8Stream.CalcUtf8Missing | source/shared/core_stmt.cpp:1404-1435 | on any bytes: the count in 64 bits behind the last byte that is no mid byte, an error when that byte starts no longer character, or a step out of the buffer |
| Utf8Stream.ScanGoesWrongExactlyWhen | source/shared/core_stmt.cpp:1404-1435 | the scan leaves the buffer if and only if it holds mid bytes only, and asks for more than three bytes if and only if more mid bytes stand behind the first byte than it takes |
| Utf8Stream.ScanGoesWrong | source/shared/core_stmt.cpp:1404-1435 | an input for each: one mid byte, and one mid byte too many |
| Utf8Stream.CutIsCompleted | source/shared/core_stmt.cpp:1404-1435 | on a packet that cuts a character of a UTF-8 text the count is one to three, lies in the text and completes the character |
| Utf8Stream.StreamParam.Read | source/shared/core_stmt.cpp:2620-2660 | what is taken as given of a stream: it delivers the next bytes, fewer only when fewer are ready |
| Utf8Stream.StreamParam.SendDataPacket | source/shared/core_stmt.cpp:2592-2676 | for any stream: a packet more, a text within the buffer, or the end, or an encoding error, or a read outside the buffer, each exactly as the bytes and what is ready decide |
| Utf8Stream.TextIsSent | source/shared/core_stmt.cpp:2616-2665 | in a UTF-8 text every packet is sent, completed to a character boundary, exactly when the rest of a cut character is ready |
| Utf8Stream.PacketGoesWrongExactlyWhen | source/shared/core_stmt.cpp:2635-2665 | a packet leads out of the buffer exactly when it is no text and is mid bytes only or ends in more of them than the first byte takes; it is sent exactly when it is a text, or becomes one with the bytes it lacks |
| Utf8Stream.StreamParam.SendAll | source/shared/core_stmt.cpp:2592-2676 | it ends on every stream, and when it ends well the packets are each valid text, fit the buffer, and join to the stream; a UTF-8 text always ends well, unless the rest of a cut character is not ready |
| Quoter.DoubleQuotes | source/pdo_sqlsrv/pdo_dbh.cpp:1934-1950 | the insertion loop in place doubles every quote and nothing else |
| Quoter.QuoteString | source/pdo_sqlsrv/pdo_dbh.cpp:1934-1983 | the literal with its prefix, which has the letter N exactly for the national set, filled into exactly the length computed; it reads back as the string to its end |
| Quoter.QuotedReadsBack | source/pdo_sqlsrv/pdo_dbh.cpp:1934-1983 | a scanner of string literals consumes the quoted string to its end and no further, and decodes it to the input |
| Quoter.QuoteBinary | source/pdo_sqlsrv/pdo_dbh.cpp:1900-1931 | 0x and two digits a byte in exactly the length computed, which decode to the input |
| Quoter.HexReadsBack | source/pdo_sqlsrv/pdo_dbh.cpp:1900-1931 | the hex text of any bytes decodes to them |
| PrintOutput.BufferOutput.WriteString | source/shared/FormattedPrint.h:140-165 | as much as fits is in the buffer, the count is -1 exactly when not all ever asked for fits, nothing is written outside |
| PrintOutput.BufferOutput.WriteChar | source/shared/FormattedPrint.h:99-114 | the same for a character |
| PrintOutput.BufferOutput.WriteMultiChar | source/shared/FormattedPrint.h:115-139 | the same for a repeated character |
| IntegerFormat.IntegerReadsBack | source/shared/FormattedPrint.cpp:765-925 | what is printed reads back, in its radix, as the argument in its width and signedness, except zero with no digits |
| IntegerFormat.MeantIsInRange | source/shared/FormattedPrint.cpp:765-795 | the value meant is in the range of 64, 32 or 16 bits that the sizes ask for, and differs from the argument by whole ranges |
| IntegerFormat.NumberInField | source/shared/FormattedPrint.cpp:861-925 | which sign or 0x stands in front of the digits, the case of the digits, and on which side the padding stands, of which characters |
| IntegerFormat.IntegerLength | source/shared/FormattedPrint.cpp:861-925 | the length is the field width or what prefix and digits need |
| IntegerFormat.IntegerDigitCount | source/shared/FormattedPrint.cpp:765-853 | as many digits as the precision or the number needs, with the octal zero only when the first digit is none |
| IntegerFormat.LongHasAtMost22Digits | source/shared/FormattedPrint.cpp:820-853 | the digits of a 64-bit number fit the room kept for them |
| IntegerFormat.FillDigits | source/shared/FormattedPrint.cpp:828-844 | the loop writes the digits from the end of the buffer and does not leave it |
| IntegerFormat.ConvertInteger | source/shared/FormattedPrint.cpp:765-853 | the prefix and the digits of an argument, with the octal zero inside the buffer |
| IntegerFormat.PaddedReadsBack | source/shared/FormattedPrint.cpp:861-925 | padding on either side, with blanks or zeros, does not change what the number reads as |
| IntegerFormat.PaddedIsField | source/shared/FormattedPrint.cpp:861-925 | the field is as wide as asked for or needed, with blanks in front or behind, or zeros behind the prefix |
| FormattedPrint.WriteJustified | source/shared/FormattedPrint.cpp:861-925 | padding, prefix and text in the order of the flags |
| FormattedPrint.PrintConversion | source/shared/FormattedPrint.cpp:540-925 | one conversion of an argument is written as specified |
| FormattedPrint.FormattedPrintA | source/shared/FormattedPrint.cpp:366-943 | the text of the format is in the buffer and its length returned if it fits, otherwise -1; -1 for an invalid format; a width or precision too large for an int is reached exactly when there is one and what stands before it fits; nothing outside is written |
| FormattedPrint.DoneComesFirst | source/shared/FormattedPrint.cpp:366-943 | what has been printed is a prefix of what will be, up to an overflow too, so output that does not fit decides the result |
| ConversionText.SpecReadsBack | source/shared/FormattedPrint.cpp:109-224 | any flags, width, precision, sizes and conversion written as a format are taken by the table as they were written, if and only if width and precision fit an int |
| ConversionText.WidthTooLarge | source/shared/FormattedPrint.cpp:474-489 | a width of 4294967301 does not |
| ConversionText.StarsAreTaken | source/shared/FormattedPrint.cpp:474-509 | stars take width and precision from the arguments in front of the one converted, a negative width to the left, a negative precision as none; the smallest int has no positive counterpart |
| ConversionText.PrintedNumberReadsBack | source/shared/FormattedPrint.cpp:366-943 | a format of one integer conversion prints a text of the width asked for or needed that reads back as the argument meant, if and only if width and precision fit an int |
| ConversionText.StringIsPrinted | source/shared/FormattedPrint.cpp:570-612 | the string at the address, or (null) without one, cut to the precision and justified, for any flags, width and precision that fit an int |
| ConversionText.CharacterIsPrinted | source/shared/FormattedPrint.cpp:533-562 | the character, justified |
| ConversionText.PointerIsPrinted | source/shared/FormattedPrint.cpp:725-735 | an address reads back from at least 16 hexadecimal digits |
| ConversionText.PlainTextIsPrinted | source/shared/FormattedPrint.cpp:424-445 | text without a percent sign is printed as it stands |
| ConversionText.PercentIsPrinted | source/shared/FormattedPrint.cpp:424-455 | two percent signs are printed as one |
| MessageFormat.SizeOfInsert | source/shared/FormattedPrint.cpp:1017-1212 | in a consistently typed format the first size found for an argument is that of each of its inserts |
| MessageFormat.SizeIsThatOfConversion | source/shared/FormattedPrint.cpp:1114-1154 | an argument is taken in 64 bits exactly when its conversion prints 64 bits of it |
| MessageFormat.PassedIsArgument | source/shared/FormattedPrint.cpp:1188-1210 | an argument is passed on as it is, or as the int that has its low bits |
| MessageFormat.EscapesOfC | source/shared/FormattedPrint.cpp:1238-1253 | the escapes are those of C, any other character stands for itself |
| FormatMessage.ScanSpec | source/shared/FormattedPrint.cpp:1080-1165 | the conversion of an insert is read by the printf table, to its end and with the size of its argument |
| FormatMessage.SizeArgs | source/shared/FormattedPrint.cpp:1017-1185 | the first pass knows the size of every argument named, in any order and with repeats |
| FormatMessage.GetFormatMessageArgs | source/shared/FormattedPrint.cpp:1017-1212 | as many arguments as the largest named are taken, each in its size; no argument list is an error exactly when one is needed |
| FormatMessage.CopySpec | source/shared/FormattedPrint.cpp:1275-1345 | the conversion is copied whole, terminated, or does not fit the block |
| FormatMessage.MoreArguments | source/shared/FormattedPrint.cpp:1350-1362 | handing over more arguments than a conversion takes makes no difference |
| FormatMessage.ArgumentFits | source/shared/FormattedPrint.cpp:1017-1383 | the second pass uses only arguments that the first pass took, in the size of the insert |
| FormatMessage.WriteInsert | source/shared/FormattedPrint.cpp:1255-1370 | the formatted argument is in the message at its place, or the insert does not fit, or its width or precision does not fit an int |
| FormatMessage.FormatMessageToBuffer | source/shared/FormattedPrint.cpp:1216-1383 | the message, terminated, or 0 when it does not fit or an insert fails; a width or precision too large for an int is reached exactly when there is one and what stands before it fits |
| FormatMessage.FormatMessageA | source/shared/FormattedPrint.cpp:1404-1450 | over both passes: the literal text with each insert replaced by its formatted argument, or 0 and never a cut-off message; the same about numbers too large |
| StringMessages.MessageOfParts | source/shared/FormattedPrint.cpp:1404-1450 | a format written from text, inserts of strings and line breaks, to its end or its end mark, is well-formed, and its message is the text around the strings |
| StringMessages.NumberInsertReadsBack | source/shared/FormattedPrint.cpp:1255-1370 | an insert of a number prints what reads back as the argument it names |

## Left out

- Foreign code: calls of ODBC, Zend and PHP, reference counts, logging and error texts are not modelled; an operation ends in a value, an error outcome or a death of the process.
- Character sets: conversions between system, wide and UTF-16 text, and number to string and string to number conversions of buffered fields, rest on library code that is not part of this model.
- Odbc.Column.GetData: a value that is copied into a slot of the cache fits the declared size; a driver that breaks this contract is not modelled.
- RowLayout.Layout: sizes are unbounded; overflow of the 32-bit row size is not modelled.
- RowFilling.FillLob: the address of a LOB's block is a number of its own per row and column, and a finished row is a value.
- BufferedResults.BufferedResultSet.Fill: a driver error while the rows are fetched is modelled at the fields read, not at SQLFetch itself.
- BufferedEqualsDirect.ReadBothWays: for columns kept as text or bytes and targets that need no character set; a number read as binary is not modelled as a string.
- DecimalFormat.FormatDecimalNumbers: the input is a sign, digits and at most one point that fit the buffer of the routine; output parameters, its other caller, are not modelled.
- DecimalParams.AdjustDecimalPrecision: what std::stold accepts is a parameter; hexadecimal literals, NaNs with digits in parentheses and exponents beyond a C int are left out.
- Statement.SqlStatement.Fetch: scrollable cursors on the server are not modelled, only forward-only ones on the handle and buffered ones in memory.
- StatementStates: SQLCancel drops the whole batch or does nothing, a setting of the model; output parameters, streams as columns, metadata and the drain in the destructor are left out.
- StatementStates.NumResultCols: an idle handle has no columns; a prepared statement whose cancel closed the cursor still reports its own, so the half of `StatementDanger.Strands` about a cancel that drops the batch holds for direct queries only.
- StatementFields.AnyOrderSeesRow: a value is read as one type; a request for another type of a cached column is not modelled.
- DsnParser.ConnStringParser.AddConnOption: password wiping and the conversion of an owner's value to the option's type are not modelled.
- The placeholder scanner for SQL text (source/pdo_sqlsrv/pdo_parser.cpp:409-464): it stops on a closing quote and then takes it for an opening one.
- The read loop of PHP streams (source/shared/core_stream.cpp): it ends by length even where a terminator forces a cut.
- TokenCache.Cache.Get: the lock, destroying the whole cache, and the 32-bit size of a token's data are not modelled.
- TokenCacheRuns.TokenStays: a connection held open longer than the time to live without a get or touch is outside its promise.
- Utf8Stream.StreamParam.SendDataPacket: the conversion to UTF-16 is taken to fail exactly on what is no UTF-8 text, and what a read outside the buffer does is not modelled.
- FormattedPrint.FormattedPrintA: floating point, wide characters, and reading arguments that were not passed have no defined outcome here.
- FormatMessage.FormatMessageA: formats in which an insert is malformed or typed in two ways, system messages and allocated buffers are not modelled; neither is '*' in an insert, where the source passes one argument twice.
- TVP parameters, data classification, attributes, option tables, error tables and module start-up: input and output, configuration or easy members.
