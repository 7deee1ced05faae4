# mysqldump core, modelled in Dafny

This project models the two pieces of string and buffer logic in a small
Go MySQL dump and restore library, and proves properties about them.

**Dump side (`dump.go`).**
- `SafeWriter`: a fixed-size `bufio.Writer` that flushes first whenever the
  room left is smaller than the incoming string (module `Writer`, class
  `SafeWriter` over an `array<char>` buffer).
- The per-column literal encoder of `writeTableData` (module `Literal`):
  - the type-name key with every `UNSIGNED` and every space removed;
  - the type switch: integers and the "zero the `id`" option, float and
    decimal text, `DATE`/`DATETIME`/`TIMESTAMP` formatting, `TIME`/`YEAR`,
    quote doubling for the character family, `0x` plus upper-case hex for
    binary, `true`/`false`, unescaped quoting for `ENUM`/`SET`/`JSON`;
  - the `unsupported type` error.
- The text of a table (module `Rows`, as functions):
  - the row statement ``INSERT INTO `t` VALUES (...);\n``;
  - the records and structure sections;
  - the `SELECT` query with its optional filter;
  - the `CREATE TABLE IF NOT EXISTS` rewrite.
- The imperative code that writes this text through the writer (module
  `Dump`): the row loop that builds `dml` with `+=`, `writeTableData` and
  `writeTableStruct`.

**Restore side (`source.go`).**
- `trim` (module `Replay`).
- `mergeInsert` (module `Merge`): a loop over a builder, proved equal to a
  reference definition, with its failures and its output shape as lemmas.
- The `Source` loop (module `Replay`):
  - a `StatementReader` class hands out the `;`-terminated statements that
    `ReadString(';')` returns;
  - statements are trimmed, and consecutive `INSERT INTO` statements are
    batched up to the merge size;
  - each statement is executed through `dbWrapper.Exec`, whose dry run
    sends nothing;
  - the run is bracketed by `USE db;` and `SET autocommit=0;` before, and
    `COMMIT;` and `SET autocommit=1;` after;
  - the loop stops at the first error.

**How the restore side is proved.** `Replay` specifies the restore as
functions:
- `Chunks`: the statements of the input;
- `Gather`, `Step` and `Plan`: what is executed after batching and merging;
- `Run`: the `Exec` calls and the error, for a database modelled by an
  abstract `rejects` predicate over the statements it was sent before;
- `Replay`: the whole run.

The method `Source` is proved to make exactly the `Exec` calls `Replay`
gives and to return its error. Lemmas over these functions state what
the restore promises. Go strings are modelled as `seq<char>`, one
character per byte.

Quirks of the code are reproduced as written:
- the always-true comma test in `mergeInsert`;
- the statement that ends a batch is read and dropped;
- the text after the last `;` is dropped;
- `ReadString(';')` knows nothing of SQL quoting, so a dumped value holding
  a `;` (such as `'a;b'`) splits its statement in two on restore
  (`Replay.ChunkShape`: each statement read ends at its only `;`);
- a failed date or time type assertion returns the still-nil error;
- each later statement given to `mergeInsert` keeps the space after its
  `VALUES`, so ``… VALUES (1,'x');`` and ``… VALUES (2,'y');`` merge to
  ``… VALUES (1,'x'), (2,'y');``;
- backslashes in values are not escaped, so a CHAR, ENUM, SET or JSON
  value holding one need not read back under MySQL's default mode, where
  a backslash escapes the next character: the CHAR value `a\` becomes
  `'a\'`, an unterminated string there. The read-back lemmas use the
  standard SQL reading, in which `''` is the only escape (MySQL with
  NO_BACKSLASH_ESCAPES);
- `mergeInsert` splits a later statement at the first `VALUES` anywhere in
  it, so when the table's name holds `VALUES` (`MYVALUES`) the merged text
  is not a valid statement.

## Model

| member | source | states |
|---|---|---|
| Writer.StagedKeepsWhole | dump.go:27-33 | staging a string that fits keeps the text in order, flushes all of the buffered text or none of it, never overflows the buffer, and leaves the string whole at the buffer's end |
| Writer.SafeWriter.constructor | dump.go:23-25 | the buffer has the requested size, or bufio's 4096 when that size is not positive; it starts empty and the destination is untouched |
| Writer.SafeWriter.Flush | dump.go:29-30 | bufio's Flush, as SafeWriter calls it there: the buffered text goes to the destination after what it already had, and the buffer is empty |
| Writer.SafeWriter.BufWriteString | dump.go:32 | returns the length of s; destination text plus buffered text grows by exactly s; a string that fits the room left is appended to the buffer without touching the destination |
| Dump.NewDumpWriter | dump.go:168 | Dump's writer is a fresh, empty SafeWriter of BufferSize = 1 << 20 characters over its destination |
| Writer.SafeWriter.WriteString | dump.go:27-33 | returns the length of s; destination plus buffer grows by exactly s; for a string no longer than the buffer, the new destination and buffer are the staging of s: a flush first exactly when the room left is smaller than s |
| Literal.ByteText | dump.go:409-415 | string(bs) has one character per byte, with the byte's code |
| Literal.TypeKey | dump.go:400-401 | the switch key: the declared type with every UNSIGNED and then every space removed; TypeKeyHasNoSpace and TypeKeyIntUnsigned state what it yields |
| Literal.TypeKeyHasNoSpace | dump.go:400-401 | the dispatch key never contains a space |
| Literal.TypeKeyIntUnsigned | dump.go:400-401 | "INT UNSIGNED" dispatches as "INT" |
| Literal.Hex | dump.go:460 | %X of a byte slice has two hexadecimal digits per byte |
| Literal.HexRoundTrip | dump.go:460 | reading the hex digits in pairs gives back the bytes |
| Literal.HexExample | dump.go:460 | the bytes 0xDE 0xAD give "DEAD" |
| Literal.DoubleQuotes | dump.go:458 | doubling quotes never shortens the text |
| Literal.DoubleQuotesLength | dump.go:458 | doubling quotes adds exactly one character per quote in the text |
| Literal.EscapedLiteralReadsBack | dump.go:458 | a text with its quotes doubled, between quotes, reads back as exactly the text in the standard SQL reading (MySQL with NO_BACKSLASH_ESCAPES) |
| Literal.DoubleQuotesRoundTrip | dump.go:458 | SQL's reading of the doubled text plus a closing quote gives back exactly the original string |
| Literal.PlainQuotedReads | dump.go:461-462 | text without a quote, quoted as is, reads back as itself in the standard SQL reading |
| Literal.UnescapedQuotingReadsBack | dump.go:461-462 | quoting without escaping, as ENUM, SET and JSON do, reads back as the text, in the standard SQL reading, exactly when the text holds no quote |
| Literal.FormatS | dump.go:457-470 | fmt's %s of a scanned value: bytes as text, a time's String() text, fmt's bad-verb text otherwise; CharLiteralReadsBack, QuotedKindsLiteral and TimeBytes use it |
| Literal.FormatX | dump.go:460 | fmt's %X of a scanned value: the hex of the bytes, or of a time's String() text; BinaryLiteral and BinaryTimeLiteral state its meaning |
| Literal.Encode | dump.go:393-475 | the literal of one column value, one branch per case of the switch; EncodeOutcome, ZeroIdOnly, IntegerLiteral, CharLiteralReadsBack, QuotedKindsLiteral, PlainKindsLiteral, BinaryLiteral, BinaryTimeLiteral, DateLiteral and DateTimeLiteral state what each branch gives |
| Literal.EncodeOutcome | dump.go:393-475 | a nil value is NULL whatever the type; the switch fails exactly on an unknown key, which the error names; it gives up without a literal exactly on a DATE/DATETIME/TIMESTAMP value that is not a time or a TIME/YEAR value that is not bytes |
| Literal.ZeroIdOnly | dump.go:403-412 | the "zero the id" option changes only byte-text values of integer columns named exactly "id", and turns them into 0 |
| Literal.IntegerLiteral | dump.go:403-412 | integer columns give byte text verbatim and other integers in decimal, even for "id" |
| Literal.CharLiteralReadsBack | dump.go:457-458 | a character-family literal always exists and reads back, in the standard SQL reading, as exactly the value's %s text |
| Literal.MySqlReadingAgrees | dump.go:457-462 | on text without a backslash, MySQL's default reading of a literal agrees with the standard one, so the read-back lemmas hold under MySQL's default mode for such values |
| Literal.BackslashBreaksCharLiteral | dump.go:457-458 | backslashes are not escaped: the CHAR value `a\` becomes `'a\'`, which the standard reading gives back and MySQL's default mode reads as an unterminated string |
| Literal.QuotedKindsLiteral | dump.go:461-470 | an ENUM, SET or JSON value becomes its %s text quoted as is, which reads back exactly when the text holds no quote |
| Literal.PlainKindsLiteral | dump.go:443-468 | a BOOL value becomes true or false after the bool; a TIME value its bytes quoted, reading back exactly when they hold no quote; a YEAR value its bytes bare |
| Literal.BinaryLiteral | dump.go:459-460 | a binary literal is "0x" then 2 digits per byte (length 2 + 2n) that decode back to the bytes |
| Literal.TimeBytes | dump.go:460 | the bytes %X prints for a time.Time are exactly those of its String() text |
| Literal.BinaryTimeLiteral | dump.go:459-460 | a time in a binary column gives the same literal as the bytes of its String() text, so BinaryLiteral's shape and round trip hold for it |
| Literal.PadFixed | dump.go:428 | a zero-padded field has its width and reads back as its value |
| Literal.DateTextFields | dump.go:428 | the date text is YYYY-MM-DD, ten characters, and each field reads back as the date's field |
| Literal.ClockTextFields | dump.go:435 | the clock text is HH:MM:SS, eight characters, and each field reads back as the time's field |
| Literal.DateLiteral | dump.go:422-428 | a DATE value becomes the twelve characters 'YYYY-MM-DD' |
| Literal.DateTimeLiteral | dump.go:429-442 | a DATETIME or TIMESTAMP value becomes the 21 characters 'YYYY-MM-DD HH:MM:SS' |
| Text.TrimLeftNewlines | source.go:225 | no longer than its input and never starts with a newline |
| Text.TrimLeftNewlinesDrops | source.go:225 | the result is a suffix of the input, and what it drops is all newlines |
| Text.TrimLeftSpaceDrops | source.go:226 | left trimming keeps a suffix and drops only white space |
| Text.TrimRightSpaceDrops | source.go:226 | right trimming keeps a prefix and drops only white space |
| Text.TrimSpace | source.go:226 | the result neither starts nor ends with white space |
| Text.TrimSpaceSlice | source.go:226 | TrimSpace gives a contiguous slice of its input, starting after the leading white space |
| Text.TrimSpaceTail | source.go:226 | everything after that slice is white space |
| Text.TrimSpaceBlank | dump.go:348 | TrimSpace gives "" exactly when the text is all white space |
| Text.TrimSpaceKeepsLast | source.go:226 | TrimSpace keeps a last character that is not white space |
| Text.TrimLeftNewlinesKeepsLast | source.go:225 | dropping the leading newlines keeps a last character that is not a newline |
| Text.TrimPrefix | source.go:214 | strips the prefix exactly when the text has it; otherwise the text is unchanged |
| Text.TrimSuffix | source.go:215 | strips the suffix exactly when the text has it; otherwise the text is unchanged |
| Text.IndexOf | source.go:209 | the first occurrence, and None exactly when there is none |
| Text.RemoveAllChar | dump.go:401 | removing every space leaves no space and keeps every other character |
| Text.RemoveAllAbsent | dump.go:400 | removing a pattern that does not occur changes nothing |
| Text.NatTextValue | dump.go:411 | the decimal text of a number reads back as the number |
| Text.PadValue | dump.go:428 | a padded number reads back as the number and has the pad width when it fits |
| Rows.SelectQuery | dump.go:346-352 | the records query of a table with its optional filter; SelectQueryFilter states when the filter is added |
| Rows.CreateTableSql | dump.go:270 | the structure text with its first CREATE TABLE made conditional; CreateTableSqlInverse states the rewrite |
| Rows.SelectQueryFilter | dump.go:346-352 | a blank filter adds nothing; any other filter is appended verbatim after " where " |
| Rows.CreateTableSqlInverse | dump.go:270 | only the first "CREATE TABLE" gains " IF NOT EXISTS"; the text is 14 characters longer and removing those characters gives back the original |
| Rows.Statement | dump.go:391-482 | the statement of one row from its column outcomes, or the first column that stops it; ScanRowFirstStop, RowStopsAt, PartialRowDone and Dump.RenderRow carry its meaning |
| Rows.FirstStop | dump.go:393-475 | the first column, at or after a start, that does not become a literal, with every column before it a literal |
| Rows.ScanRowFirstStop | dump.go:393-479 | the row loop halts at the first column that is not a literal, and otherwise yields every literal in column order |
| Rows.ScanHaltKept | dump.go:471-474 | once a prefix of the row halts, the whole row halts the same way |
| Rows.PartialRowStep | dump.go:477-479 | each literal extends the statement by the literal, plus a comma unless it is the row's last |
| Rows.PartialRowDone | dump.go:482 | the closing ");\n" completes the statement as the prefix plus the comma-joined literals |
| Rows.StopCause | dump.go:471-474 | a row stops only at a column that did not become a literal |
| Rows.JoinCommaSnoc | dump.go:477-479 | one more literal adds a comma before it unless it is the first |
| Rows.NullScan | dump.go:394-395 | a row of NULL literals scans to all NULLs |
| Rows.NullRow | dump.go:394-395 | a row of nil values renders as NULLs joined by commas, whatever the column types |
| Rows.RowStopsAt | dump.go:393-475 | a row stops at the first column the switch does not turn into a literal, with that column's outcome |
| Rows.Collect | dump.go:379-484 | the statements of the rows before the first stopping row, in fetch order, and that row's stop; all rows' statements when none stops |
| Rows.CollectStopAt | dump.go:379-484 | rows with statements, then a stopping row, collect to those statements and that stop |
| Rows.CollectAllRows | dump.go:379-484 | rows that all have statements collect to all of them and no stop |
| Rows.Records | dump.go:379-488 | the records section from the collected statements and stop: header, statements, then the closing text and flush or the stop's error; TableDataStops and TableDataComplete state both outcomes |
| Rows.TableData | dump.go:379-488 | the records section of a table's rows; TableDataStops, TableDataComplete, TableStopsAt, UnsupportedTypeEndsTable and ConversionFailureIsSilent state it |
| Rows.TableDataStops | dump.go:379-484 | rows rendered one by one up to a stopping row give the table's outcome for that stop |
| Rows.TableDataComplete | dump.go:379-488 | rows rendered one by one to the end give the table's outcome with every statement |
| Rows.TableStopsAt | dump.go:379-484 | the table's text ends with the statements of the rows before the first stopping row |
| Rows.UnsupportedTypeEndsTable | dump.go:471-474 | an unknown type key ends the table with "unsupported type: key", the earlier rows' statements, nothing of that row, and no flush |
| Rows.ConversionFailureIsSilent | dump.go:422-456 | a date or time value of the wrong Go type ends the table with the nil error, no closing blank lines and no flush |
| Dump.RenderRow | dump.go:391-482 | the row loop yields the row's statement: the prefix, the literals joined by commas, ");\n"; or the first column that stops it |
| Dump.WriteBanner | dump.go:342-344 | the writer's text grows by a rule, the title and a rule |
| Dump.WriteRows | dump.go:379-484 | writes the statements of the rows in fetch order, up to the first row that stops, and reports that stop |
| Dump.WriteTableData | dump.go:335-491 | the header, then on a rejected query the query's error; otherwise the table's text, error and flush; the query is the SELECT for table and filter |
| Dump.WriteTableStruct | dump.go:316-333 | the structure header, then the rewritten CREATE TABLE, ";" and two blank-line pairs; or the query's error |
| Merge.ValuesTail | source.go:209-215 | a later statement's contribution, after its first VALUES; ValuesTailShape and ValuesTailAfter state it |
| Merge.Merged | source.go:196-221 | the reference merge of a batch, errors included; MergeFailures, MergedPieces, MergeSameTable and MergeInsert carry its meaning |
| Merge.TailsAt | source.go:204-218 | the contributions are those of every later statement, in order, and exist exactly when every one has a VALUES |
| Merge.MergeFailures | source.go:196-212 | "no input provided" exactly on an empty list; "missing VALUES" exactly when a statement after the first has none; the first is never checked |
| Merge.ValuesTailShape | source.go:209-215 | a statement contributes exactly when it has a VALUES: the text after its first VALUES, less a trailing ";" |
| Merge.MergedPieces | source.go:196-221 | the merged statement is the first less its ";", a comma and a contribution per later statement, then ";" |
| Merge.MergeSingle | source.go:201-219 | one statement merges into itself less its ";" plus ";": a ";"-terminated one comes back unchanged |
| Merge.ValuesTailAfter | source.go:209-215 | a statement whose first VALUES follows a head contributes what follows that VALUES, less a trailing ";" |
| Merge.NoValuesInHead | source.go:209 | when the head holds no VALUES, no VALUES starts inside it, even one running into the VALUES after it |
| Merge.MergeSameTable | source.go:190-221 | statements into one table whose head holds no VALUES merge into one statement with all their value lists in order after one VALUES, as in the doc comment |
| Merge.ValuesInTableName | source.go:209-215 | in a table named MYVALUES, the first VALUES is the one in the name, so the contribution is "` VALUES (2)" |
| Merge.MergeTwo | source.go:196-221 | two statements merge into the first less its ";", a comma, the second's contribution and ";" |
| Merge.MergeValuesInTableName | source.go:196-221 | two rows of the table MYVALUES merge into "INSERT INTO `MYVALUES` VALUES (1),` VALUES (2);", which is not a valid statement |
| Merge.MergeInsert | source.go:196-222 | the builder loop gives exactly the reference merge, error cases included |
| Replay.Trim | source.go:224-228 | the result neither starts nor ends with white space |
| Text.TrimSpaceTidy | source.go:226 | TrimSpace leaves text that is already trimmed unchanged |
| Replay.TrimIdempotent | source.go:224-228 | trim changes nothing the second time |
| Replay.NextSemicolon | source.go:117 | the ";" found lies at or after the read position, inside the input |
| Replay.NextSemicolonFirst | source.go:117 | ReadString stops at the first ";" after the position, and finds none exactly when there is none |
| Replay.Chunks | source.go:116-124 | the ";"-terminated statements ReadString(';') returns in turn; NextSemicolonFirst, ChunkShape, RemainderIgnored and RemainderDropped state them |
| Replay.ChunkShape | source.go:117 | every statement read ends with its ";" and holds no other |
| Replay.NextSemicolonPrefix | source.go:117-121 | text without ";" after the input does not move the next ";" |
| Replay.RemainderIgnored | source.go:117-121 | text without ";" after the input adds no statement |
| Replay.StatementReader.constructor | source.go:108 | the reader starts at the start of the input |
| Replay.StatementReader.ReadString | source.go:117-124 | returns the next ";"-terminated statement and advances past it; at the end, io.EOF with the rest of the input and no statement left |
| Replay.TrimAll | source.go:128 | trimming keeps one statement per statement read |
| Replay.TrimAllElements | source.go:128 | the k-th trimmed statement is the trim of the k-th statement read |
| Replay.Gather | source.go:137-159 | the inner loop over trimmed statements; GatherShape states what it keeps and reads |
| Replay.Plan | source.go:126-166 | the statements executed after batching and merging, or the merge error; PlanErrors, NoMergePlan, StepBatch and NonInsertSwallowed state it |
| Replay.Step | source.go:135-166 | each turn reads at least one statement and no more than remain |
| Replay.GatherShape | source.go:137-159 | the inner loop keeps a prefix of INSERT INTO statements, at most its room; it reads one more exactly when that one is not an INSERT INTO, and otherwise stopped at the room or the input's end |
| Replay.AcceptedCons | source.go:168-172 | statements are accepted exactly when the first is and the rest are after it |
| Replay.Run | source.go:168-172 | the Exec calls and the error of executing statements in order; RunDry and RunOutcome state it |
| Replay.Replay | source.go:66-188 | the whole restore: the script bracketed by USE, autocommit and COMMIT, run through Exec; ScriptBrackets, ScriptFirstFailure, DryRunReachesCommit and Source carry its meaning |
| Replay.RunDry | source.go:54-63 | a dry run calls Exec with every statement and fails none |
| Replay.RunOutcome | source.go:168-172 | Exec is called with a prefix of the statements: all of them when the database accepts all; otherwise up to the first rejected one, whose error is returned, all before it accepted |
| Replay.PlanErrors | source.go:161-165 | the only error batching can stop with is mergeInsert's missing VALUES, and only when merging |
| Replay.NoMergePlan | source.go:135 | with a merge size of at most 1, every trimmed statement is executed as read |
| Replay.StepBatch | source.go:135-166 | a batch starts at an INSERT INTO, holds 1 to merge-size statements, all INSERT INTO and in input order, and is merged; one more is read exactly when it is not an INSERT INTO |
| Replay.NonInsertSwallowed | source.go:153-158 | the non-INSERT statement that ends a batch is read but never executed |
| Replay.TrimKeepsLast | source.go:224-228 | trim keeps a last character that is not white space |
| Replay.TrimKeepsSemicolon | source.go:224-228 | trim keeps the ";" that ends a statement |
| Replay.TrimAllKeepsSemicolons | source.go:128 | statements ending with ";" still do once trimmed |
| Replay.StatementsEndWithSemicolon | source.go:117-128 | every statement Source reads ends with ";" once trimmed |
| Replay.RemainderDropped | source.go:117-121 | text after the last ";" is never executed |
| Replay.ScriptBrackets | source.go:100-187 | the run always starts with USE db; Exec is called with a prefix of the script; no error exactly when merging did not fail and every statement was accepted (or the run was dry), and then it ran SET autocommit=0 first and COMMIT, SET autocommit=1 last |
| Replay.ScriptFirstFailure | source.go:168-185 | a rejected statement is the last Exec call, every one before it was accepted, and the run was not dry |
| Replay.DryRunReachesCommit | source.go:54-63 | a dry run calls Exec with the whole script and reaches the commit unless merging fails; without merging it executes every statement and commits |
| Replay.DbWrapper.constructor | source.go:45-52 | no Exec call yet; the database has been sent only its history |
| Replay.DbWrapper.Exec | source.go:54-63 | records the call; a dry run sends nothing and returns no error; otherwise the statement is sent and the database's verdict returned |
| Replay.ReadStatement | source.go:117-131 | the next statement trimmed, with the reader past it; end of input exactly when no statement is left |
| Replay.ReadBatch | source.go:137-159 | the batch is the first statement plus the statements Gather keeps, and the reader is past what Gather reads |
| Replay.NextStatement | source.go:117-166 | the statement or merge error of the turn's Step, with the reader past the statements it reads |
| Replay.Turn | source.go:117-172 | a turn keeps the run on course to Replay: it ends at end of input without a call, ends with the run's own error, or goes on with fewer statements left |
| Replay.RunStatements | source.go:116-173 | the loop keeps the run on course to Replay and ends with the run's error or with every statement read |
| Replay.Source | source.go:66-188 | the Exec calls and the returned error are exactly those Replay gives for the input |
| Replay.Finish | source.go:175-187 | COMMIT; then SET autocommit=1;, stopping at the first rejection |

## Left out

- The database itself (`sql.Open`, `Query`, `Scan`, `Columns`, `ColumnTypes`, `QueryRow`) is foreign I/O. Parameters stand in for it:
  - `WriteTableData` takes the columns and the rows a query returns, or None when the query fails;
  - `WriteTableStruct` takes what SHOW CREATE TABLE shows, or None;
  - the replay takes a `rejects` predicate over the statements sent before.
- The database's own error messages are not modelled; only the statement that failed is recorded.
- `GetDBNameFromDNS`, the connection setup and `SetConnMaxLifetime` are left out. The database name is a parameter of `Source`.
- `getDBs`, `getAllTables`, the `With*` option closures and the orchestration in `Dump` (dump.go:128-261) are left out. They sequence database results. The text `Dump` writes itself is left out with them:
  - the header banner with the start time (dump.go:174-178), which reads the clock;
  - ``USE `db`;\n`` for each database (dump.go:222) and ``DROP TABLE IF EXISTS `t`;\n`` for each table when dropping is on (dump.go:228), which depend on the database and table lists;
  - the footer with the elapsed time (dump.go:254-257), which reads the clock.
- The `writeViaBuf` goroutine and its channels are left out. Their point is concurrency, so writes are modelled as sequential and in fetch order.
  - The model does not capture the race in the source: `done` can be taken before a pending row, and the closing "\n\n" at dump.go:486 is written while the goroutine may still be writing.
  - After a stopping row the goroutine is never told to stop, so that flush never happens; `TableResult.flushed` records whether it was requested.
- Literal.Encode: requires the value to be renderable. The following are excluded:
  - the float path `%f` of a value that is not bytes (floating-point formatting);
  - %d of a time.Time in an integer column (fmt's dump of the struct's internal fields). %X of a time.Time is modelled: fmt prints the hexadecimal of its String() text;
  - a BOOL column holding a value that is not a bool (a runtime panic).
  `Rows.RowRenderable` carries this to `Dump.RenderRow`, `Dump.WriteRows` and `Dump.WriteTableData`. It is required of every value, including those after the first stopping column or row, which the source never encodes: a row such as a DATE column holding bytes followed by a BOOL column holding an integer stops at the DATE column in the source but is outside the model.
- Literal.DateText: time.Time is modelled by its calendar fields in UTC.
  - Time zones and fractions of a second are not modelled. Any year is rendered as Go does: a sign when negative, then at least four digits.
  - Literal.DateTextFields, Literal.DateLiteral and Literal.DateTimeLiteral state their fixed widths only for years 0..9999 and valid month, day and clock fields.
- Writer.SafeWriter.BufWriteString: models bufio's copy-and-flush path only. The direct write of a long string to an empty buffer, when the destination has a WriteString method, is not modelled; it ends with the same text in the destination and buffer combined.
- Write errors and Flush errors are discarded by the source and are not modelled.
- Read errors other than io.EOF are not modelled: the input is a string.
- Replay.Trim: trim's error result is always nil and is not modelled.
- White space is ASCII white space, one character per byte. Multi-byte Unicode spaces that Go's TrimSpace also removes are not modelled.
- Logging (`log.Printf`, the debug log of each query) and the timing text are instrumentation and are left out. The statements the debug option would log are `DbWrapper.calls`.
