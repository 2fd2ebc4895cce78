# SQL Relay: a verified model

SQL Relay is a connection pool and proxy for databases. This project models six pieces of it whose code is
self-contained and easy to get wrong, and proves what they promise for every input, every run or every
reachable state. `dafny verify dfyconfig.toml` checks all of it.

The models take the source's own form: loops over buffers are methods with loops, objects whose methods update
fields are classes, and each method is proved against a specification that is then the subject of the theorems.

## What is modelled

**Bind variables** (`BindVariables`, `BindVariableTheorems`, `BindVariableKinds`, `WholeBindVariable`;
`src/common/bindvariables.h`).
The scanner with four states that counts bind variables, the one that rewrites them to `NULL`, and the test for a
string that is one variable and nothing else. `LabelAt` says of every position of a query whether it is text,
quoted, the head of a marker or its body; both scanners are proved to agree with it, although they change state
without consuming input. Rewriting is exact: the query is texts and markers in turn, the result is the texts with
`NULL` between them, and a second pass finds nothing. The counters are 16 bits wide; they count right up to
131071 characters, and a query of 131072 characters is given for which they don't.

**sqlrsh's text** (`JsonText`, `JsonRoundTrip`, `JsonNumber`, `JsonDisplay`, `JsonDocuments`, `JsonReadBack`,
`JsonTheorems`, `CsvDisplay`, `Timeouts`, `CommandSplitter`, `SplitterTheorems`, `ScriptRunner`, `Wildcards`,
`ResultCursor`; `src/cmdline/sqlrsh.cpp`). The json, jsonl and csv writers are undone by readers written from
sections 2 to 7 of RFC 8259 and section 2 of RFC 4180 (the csv reader takes a line feed for a line break, as the
writer writes one). The number test accepts exactly the grammar of section 6 of RFC 8259. Timeouts are parsed to
the value rounded half up, stated with real numbers. Splitting a text into commands conserves it. Of nested
scripts, each failed command is counted once, and where a run ends is stated on the commands that were executed.

**The DB2 cursor** (`Db2Fetch`, `Db2Buffers`, `Db2Lob`; `src/connections/db2.cpp`). Block fetching does what a
cursor that holds one row at a time does, for any mix of skipped and fetched rows. The column buffers are
allocated, bound and freed right over every sequence of prepare, execute and close, any call of which may fail.
The LOB reader's two counters are followed over every history of reads. DB2 itself is a small class that answers
in any way its documentation and the source's comments allow.

**Oracle logins** (`OracleCrypto`, `OracleO5logon`, `OracleO3logon`; `src/auths/oracle_userlist.cpp`). Ciphers and
hashes are arbitrary functions, of which only sizes and the inverse law of the ciphers are known. The rest is as in
the source: padding, salt, pad digit, rotation, hexadecimal, the choice of a key half, and the recovery of the
session key by a server that keeps no state.

**The configuration filter** (`ConfigFilter`, `ConfigTheorems`, `ConfigDocument`; `src/configs/xmldom.cpp`). Handlers
that see one parser event at a time, with five flags, keep the one instance that was asked for. What they do is
proved for every document, whether or not instances hold instances, and for files, directories and lists of urls.

**Firebird logins** (`FirebirdLogin`; `src/auths/firebird_userlist.cpp`). Dequoting is the inverse of quoting.

## Where the source says something else than it does

- The help text (`src/cmdline/sqlrsh.cpp:7145-7152`) says that what the timeout commands print can be given back to
  the setter unchanged. A timeout that is off is printed as `-1`, which the setter rejects. `PrintedParsesIff`.
- A comment (`src/common/bindvariables.h:324-326`) says that the kind of bind variable that is rewritten is the one
  that would have been counted. In ` :a+?` the counter, with both kinds enabled, finds a colon and takes the question
  mark for a part of its name, and the rewriter rewrites the question mark. `ScansAgreeIff` says for which queries one
  scan for all kinds sees what one scan for each kind sees, and `SameKindAsCounted` that the comment holds for these.
- A comment (`src/auths/firebird_userlist.cpp:175-177`) says that a single-quoted login is upcased only if all of
  what was inside the quotes was symbol characters. A doubled quote isn't one, but skips the check.
  `SingleQuotedWordingIff` gives the exact condition.
- The splitter never looks at a single quote that directly follows a double quote that closes.
  `QuotingLawIff` proves that this is exactly what separates it from the rule that a delimiter counts when an even
  number of quotes precede it.
- The loop of the LOB reader that reads in chunks (`src/connections/db2.cpp:3725-3768`) starts each chunk at the
  same position. `OneChunkIff` proves that a read is right, whatever the LOB holds, iff it takes one chunk, and that
  a length that fits in a `SQLINTEGER` never takes more.
- The LOB reader keeps its two counters apart after a read at a new offset that failed, and after one for which the
  buffer was too small. `InRangeReadIff` proves exactly which later reads are wrong, and `ReadField` that the reader
  does what that theorem is about.
- The configuration filter finds the wanted instance inside another one but loses it, and of one that holds another
  it loses what comes after that other one. `LoadedIsTheInstance` says of every document what is loaded, and
  `WholeIsLoadedIff` when that is the whole instance.
- The bindings that DB2 has of a wider statement's columns still name its buffers after those have been freed.
  `OpenEntriesAreLiveIff` and `ClosedEntriesAreLiveIff` say when there are such bindings.
- Normalising a Firebird login twice isn't normalising it once; `IdempotentIff` says for which logins it is.

## Model

| member | source | states |
|---|---|---|
| BindVariables.CountBindVariables | src/common/bindvariables.h:167-305 | the scanner counts, for each kind, the heads among the positions' labels, modulo 65536, and returns the first count that isn't 0 in the order `$`, `?`, `:`, `@` |
| BindVariables.SubstituteNullForBindVariables | src/common/bindvariables.h:311-451 | of the enabled kinds with a count that is not 0, in the order `$`, `?`, `:`, `@`, the first one's markers are replaced and counted; without any the query is copied, and without a query or a buffer nothing is written |
| BindVariables.SubstituteOneKind | src/common/bindvariables.h:353-451 | one kind's scan writes the texts as they are and NULL for each marker, and counts them in 16 bits |
| BindVariables.OneKindCounted | src/common/bindvariables.h:291-304 | with one kind enabled the answer is that kind's count |
| BindVariables.FirstCountedIsChosen | src/common/bindvariables.h:322-351 | the kind that is rewritten is the one that is counted and to which no other that is counted is preferred |
| BindVariables.TextConsumed | src/common/bindvariables.h:191-234 | one character of text or quoted text keeps the scanner's state the label of its position, backslashes included |
| BindVariables.MarkerDecided | src/common/bindvariables.h:236-265 | the state that consumes nothing decides between a marker and text as the label does |
| BindVariableTheorems.RewritingIsExact | src/common/bindvariables.h:311-451 | every query is texts and markers in turn, each marker starting outside quotes at a delimiter that may start one and ending right before the first character that ends it or at the end; the output is the texts with NULL between them, their number is what the counter reports for the kind alone, and a second pass for the kind copies its input |
| BindVariableTheorems.Mirror | src/common/bindvariables.h:311-451 | position by position, the output is labelled as the query is, NULLs being text, so no text turns into a marker by being rewritten |
| BindVariableTheorems.NothingLeft | src/common/bindvariables.h:311-451 | the output holds no marker of the kind |
| BindVariableTheorems.MarkersTakeRoom | src/common/bindvariables.h:167-305 | twice the number of markers of all kinds is at most the length |
| BindVariableTheorems.CountersDoNotWrap | src/common/bindvariables.h:167-305 | up to 131071 characters, so for the default maximum query size, the answer is the true number of markers of the first kind present |
| BindVariableTheorems.CountersWrapAt131072 | src/common/bindvariables.h:167-305 | one character more and 65536 question marks are counted as none |
| BindVariableTheorems.OneKindAgreement | src/common/bindvariables.h:291-351 | when marker characters of one enabled kind at most occur, counting and rewriting with all kinds enabled agree with that kind alone |
| BindVariableKinds.MarkerStartsIff | src/common/bindvariables.h:14-31 | outside quotes a marker starts exactly after one of the nineteen characters that may precede one, at an enabled delimiter that isn't `:=` or `@@` |
| BindVariableKinds.EndOfMarkerIsCopied | src/common/bindvariables.h:48-54 | a marker goes on up to one of the eleven characters that end one, or `:=`, and that is copied |
| BindVariableKinds.LiteralIsQuoted | src/common/bindvariables.h:213-234 | a string literal is quoted from its opening quote to its first unescaped one, and no further |
| BindVariableKinds.ScansAgreeIff | src/common/bindvariables.h:167-351 | all along a query, one scan for all kinds sees what a scan for each kind sees iff no marker's name holds a quote, or what would start a marker of another enabled kind |
| BindVariableKinds.SameKindAsCounted | src/common/bindvariables.h:324-351 | for such a query the kind that is rewritten is the one that was counted, with the same number |
| BindVariableKinds.CountedIsNotRewritten | src/common/bindvariables.h:324-351 | an example for which it isn't |
| BindVariableKinds.QuestionMarkIsPreferred | src/common/bindvariables.h:324-351 | an example: of a question mark and an at sign the question mark is rewritten |
| WholeBindVariable.IsDollarQuotedLiteral | src/common/bindvariables.h:62-96 | true iff the content opens with a tag whose first closing recurrence is the content's end |
| WholeBindVariable.FindWholeBindVariable | src/common/bindvariables.h:104-163 | the span is found iff the string is whitespace, one marker with its name, and whitespace, and isn't a dollar-quoted literal |
| WholeBindVariable.WholeMarkerIsUnique | src/common/bindvariables.h:104-163 | there is one such span at most |
| WholeBindVariable.WholeMarkerIs | src/common/bindvariables.h:36-39 | which characters make up the span, and which may be around it |
| WholeBindVariable.WholeMarkerCountsOnce | src/common/bindvariables.h:104-163 | a space and that span are one marker to the counter, and are rewritten to a space and NULL |
| JsonDisplay.JsonEscapeString | src/cmdline/sqlrsh.cpp:3269-3323 | runs written whole between escapes add up to the escape of each character in turn |
| JsonDisplay.JsonWriteString | src/cmdline/sqlrsh.cpp:3259-3267 | a string in quotes, a null pointer as an empty one |
| JsonDisplay.JsonWriteValue | src/cmdline/sqlrsh.cpp:3376-3400 | the text is the JSON value of the field: null, a boolean, a number only if the bytes are one, else a string |
| JsonDisplay.JsonDisplayHeader | src/cmdline/sqlrsh.cpp:3172-3205 | the column list that opens a document or is a line of its own |
| JsonDocuments.JsonDisplayRow | src/cmdline/sqlrsh.cpp:3993-4050 | a row is written whole, or the end is found at exactly the last row, though rows come in blocks of any size |
| JsonDocuments.JsonWriteStats | src/cmdline/sqlrsh.cpp:4104-4125 | the statistics are members of one JSON object, with the elapsed time or without |
| JsonDocuments.JsonDisplayResultSet | src/cmdline/sqlrsh.cpp:3982-4069 | every row the server has, then the end of the document, with or without statistics |
| JsonReadBack.DocumentIsWritten | src/cmdline/sqlrsh.cpp:3982-4069 | header, rows and end put together are the serialization of one JSON object, and a newline |
| JsonReadBack.LinesAreWritten | src/cmdline/sqlrsh.cpp:3982-4069 | in jsonl they are the serializations of an object for the columns, one for each row, and one for the statistics |
| JsonTheorems.JsonDisplayCurrentResultSet | src/cmdline/sqlrsh.cpp:4127-4133 | header and rows, as displayed, are that object or those lines |
| JsonTheorems.JsonReadsBack | src/cmdline/sqlrsh.cpp:3982-4069 | a reader accepts every document and gets, by name, the columns with their types, each field's bytes or null, and the statistics, from any result set, with no columns or no rows too; a field is a JSON number iff it was fetched as one and its bytes are one, and a boolean iff it was fetched as one |
| JsonTheorems.JsonlReadsBack | src/cmdline/sqlrsh.cpp:3982-4069 | read line by line, the first line holds the columns, line k + 1 the names, kinds and bytes of row k, and the last one the statistics |
| JsonTheorems.NoNewlineInValue | src/cmdline/sqlrsh.cpp:3269-3323 | no value has a newline in its text, so lines are lines |
| JsonRoundTrip.StringReadsBack | src/cmdline/sqlrsh.cpp:3259-3323 | any bytes, escaped and quoted, are read back as they were |
| JsonRoundTrip.TextReadsBack | src/cmdline/sqlrsh.cpp:3259-3400 | the serialization of every well-formed value is read back as that value |
| JsonNumber.JsonIsNumber | src/cmdline/sqlrsh.cpp:3327-3374 | true iff the bytes belong to the number grammar of section 6 of RFC 8259 |
| JsonNumber.GreedyScanIsExact | src/cmdline/sqlrsh.cpp:3327-3374 | a scan that takes all the digits it can finds a derivation iff the grammar has one |
| CsvDisplay.CsvFieldNeedsQuotes | src/cmdline/sqlrsh.cpp:3226-3242 | quotes are needed iff a character would break the record or the text isn't a number |
| CsvDisplay.CsvEscapeField | src/cmdline/sqlrsh.cpp:3244-3257 | runs written up to each double quote add up to the text with those doubled |
| CsvDisplay.CsvWriteField | src/cmdline/sqlrsh.cpp:3207-3224 | a null is written as nothing, other fields with quotes where needed |
| CsvDisplay.CsvDisplayHeader | src/cmdline/sqlrsh.cpp:3151-3170 | with columns, their names are a record |
| CsvDisplay.CsvDisplayResultSet | src/cmdline/sqlrsh.cpp:3927-3980 | every row is a record |
| CsvDisplay.CsvDisplayCurrentResultSet | src/cmdline/sqlrsh.cpp:4127-4133 | with column names and rows the output is a header record and a record for each row |
| CsvDisplay.CsvReadsBack | src/cmdline/sqlrsh.cpp:3927-3980 | a reader recovers the names and every row and field exactly, nulls apart from empty strings, for every number test that rejects the empty string |
| CsvDisplay.CsvReadsBackIff | src/cmdline/sqlrsh.cpp:3226-3242 | for every result set and number test the reader recovers the names and every row and field iff the test rejects the empty string or no name or field is one |
| CsvDisplay.EmptyStringNeedsTheTest | src/cmdline/sqlrsh.cpp:3226-3242 | a number test makes every result set read back iff it rejects the empty string |
| CsvDisplay.RecordReadsBack | src/cmdline/sqlrsh.cpp:3927-3980 | one record is read back as its fields, and what follows it is left |
| CsvDisplay.BareIff | src/cmdline/sqlrsh.cpp:3226-3242 | of the records as they are read, a field has no quotes iff it is a null, or a number of under twelve characters, none of which breaks a record |
| ResultCursor.ClientCursor.GetField | src/cmdline/sqlrsh.cpp:3997-4014 | a field of a row is that of the row by its number, whatever blocks the server sends, and is missing only past the last row |
| Timeouts.ParseTimeout | src/cmdline/sqlrsh.cpp:6048-6117 | succeeds iff the text is a timeout whose rounded value fits in 2147483647 seconds and a fraction, and then seconds and microseconds are that value |
| Timeouts.ParseFraction | src/cmdline/sqlrsh.cpp:6077-6100 | six digits by weight and a seventh that rounds make the fraction rounded half up to a microsecond, for any number of digits |
| Timeouts.TimeoutIsUnique | src/cmdline/sqlrsh.cpp:6048-6117 | a text is a timeout in one way at most |
| Timeouts.PrintThenParse | src/cmdline/sqlrsh.cpp:4541-4554 | what is printed for a timeout that is on parses to the same two numbers |
| Timeouts.PrintedParsesIff | src/cmdline/sqlrsh.cpp:7145-7152 | what is printed parses iff the timeout is on |
| CommandSplitter.GetCommandFromFileOrString | src/cmdline/sqlrsh.cpp:1226-1334 | leading whitespace is passed, the command goes into the buffer up to its delimiter or the end, and the source is left right after it |
| CommandSplitter.HandleQuote | src/cmdline/sqlrsh.cpp:1267-1321 | a quote that closes takes the next character along, and stays open if that is a quote too |
| SplitterTheorems.GetCommands | src/cmdline/sqlrsh.cpp:1195-1224 | called until it fails, with delimiters that may change, it gives the commands of the text in order |
| SplitterTheorems.SplittingConserves | src/cmdline/sqlrsh.cpp:1195-1334 | whitespace, commands and delimiters concatenate back to the text, for every text and sequence of delimiters |
| SplitterTheorems.FileAndStringAgree | src/cmdline/sqlrsh.cpp:1226-1334 | a file and a string with the same text give the same commands |
| SplitterTheorems.CommandEndsOutsideQuotes | src/cmdline/sqlrsh.cpp:1226-1334 | without double quotes, or with no single quote right after one that closes, a command ends at the first delimiter that an even number of quotes of each kind precede, and only there |
| SplitterTheorems.QuotingLawIff | src/cmdline/sqlrsh.cpp:1267-1329 | that rule holds all along a text iff no single quote directly follows a double quote that closes |
| SplitterTheorems.QuotingLawExample | src/cmdline/sqlrsh.cpp:1267-1329 | a text for which it doesn't: a semicolon inside quotes ends the command |
| ScriptRunner.Shell.RunScript | src/cmdline/sqlrsh.cpp:1135-1193 | the state and the code after a script, with pings, nested scripts and a continueonerror that changes on the way |
| ScriptRunner.Shell.RunCommands | src/cmdline/sqlrsh.cpp:1195-1224 | the same over a command list |
| ScriptRunner.Shell.ReportErrorCount | src/cmdline/sqlrsh.cpp:1114-1133 | the code is 4 iff the count is positive, else what it was, and the count is reported when it says more than one error message does |
| ScriptRunner.Shell.UserRcFile | src/cmdline/sqlrsh.cpp:1068-1090 | the rc file's failures leave the count as it was |
| ScriptRunner.Shell.RunMain | src/cmdline/sqlrsh.cpp:7815-7852 | after a run of a script, a command list or one query the exit code says whether any executed command failed or the script could not be opened, and of a script or a list the count is the number of those commands; the rc file counts for nothing |
| ScriptRunner.EachFailureCountsOnce | src/cmdline/sqlrsh.cpp:1092-1193 | for every tree of scripts, every sequence of pings and every change of continueonerror, each executed command that failed counts once, and a script that could be opened succeeds iff none did |
| ScriptRunner.CommandsAreCountedOnce | src/cmdline/sqlrsh.cpp:1135-1193 | the same for any list of commands, after any code |
| ScriptRunner.CommandsStopAtFailure | src/cmdline/sqlrsh.cpp:1163-1180 | with continueonerror off for good, exactly the commands up to the first failure are executed, through any nesting |
| ScriptRunner.CommandsRunThrough | src/cmdline/sqlrsh.cpp:1102-1112 | with it on for good and a server that stays up, all of them are |
| ScriptRunner.CommandsAreTraced | src/cmdline/sqlrsh.cpp:1092-1193 | every run is a list of steps, one for each command that was taken, in order: a command that failed is followed by a ping iff the option, as all that was executed before left it, is on, and the run ends exactly at a failure without a ping that was answered; afterwards the option is what the last executed command for it says |
| ScriptRunner.SameSteps | src/cmdline/sqlrsh.cpp:1092-1193 | there is one such list only, so this fixes what is executed, through any nesting |
| ScriptRunner.RunIsItsSteps | src/cmdline/sqlrsh.cpp:1135-1193 | if these are the steps, then the run executes just what they do |
| ScriptRunner.TurnedOffStops | src/cmdline/sqlrsh.cpp:2150-2151 | an example: a script that turns continueonerror off stops at its first failure |
| Wildcards.GetWild | src/cmdline/sqlrsh.cpp:2944-2965 | nothing iff there are fewer than two quotes, else what lies between the first and the last, doubled quotes made one |
| Wildcards.QuoteThenGetWild | src/cmdline/sqlrsh.cpp:2944-2965 | every pattern, quoted with its quotes doubled, comes out as it was |
| Db2Fetch.Cursor.FetchRow | src/connections/db2.cpp:3583-3638 | there is a row iff not all rows have been passed over, and it is the next one, in the slot of its number modulo the block size; an error is reported only when DB2 failed |
| Db2Fetch.Cursor.FetchBlock | src/connections/db2.cpp:3593-3636 | a block has as many rows as have good statuses, and success without a row is the end |
| Db2Fetch.Cursor.SkipRow | src/connections/db2.cpp:3575-3581 | passes over one row, if there is one |
| Db2Fetch.Cursor.GetField | src/connections/db2.cpp:3640-3659 | a column of the row that was fetched |
| Db2Fetch.Drive | src/connections/db2.cpp:3575-3663 | any mix of skipRow, and of fetchRow, getField and nextRow, does what a cursor that holds one row at a time does, between any calls to DB2 that fail |
| Db2Fetch.WithoutFailures | src/connections/db2.cpp:3575-3663 | when no call fails, the outcomes are those of that cursor from the start |
| Db2Fetch.EveryRowOnce | src/connections/db2.cpp:3575-3663 | there are exactly as many successes as rows, the k-th has row k in slot k modulo the block size, and every later call reports the end without error |
| Db2Buffers.Cursor.PrepareQuery | src/connections/db2.cpp:2598-2624 | after a prepare nothing is bound, the buffers are as they must be, and the columns are those of the new statement if they are known already |
| Db2Buffers.Cursor.ExecuteQuery | src/connections/db2.cpp:3114-3162 | after an execute that succeeded, and only then, every column is described and bound |
| Db2Buffers.Cursor.HandleColumns | src/connections/db2.cpp:3164-3345 | columns that aren't known at prepare time are left to execute, and whatever call fails, the buffers are as they must be |
| Db2Buffers.Cursor.GetColumnInfo | src/connections/db2.cpp:3187-3312 | with a fixed number of columns the buffers are kept, without one they are replaced, and the columns are described |
| Db2Buffers.Cursor.BindColumns | src/connections/db2.cpp:3314-3342 | each column is bound to its own locators or field buffer, by its kind |
| Db2Buffers.Cursor.CloseResultSet | src/connections/db2.cpp:3797-3824 | nothing stays bound, and without a fixed number of columns no buffer is left |
| Db2Buffers.Cursor.NoRowsToReturn | src/connections/db2.cpp:3570-3573 | after an execute, no rows iff the statement has no columns |
| Db2Buffers.AllocateBlocks | src/connections/db2.cpp:2468-2510 | every block of every column, and the arrays that hold them, and nothing else, become live |
| Db2Buffers.DeallocateBlocks | src/connections/db2.cpp:2512-2535 | each of them is freed once, and none is left |
| Db2Buffers.BoundToLiveBlocks | src/connections/db2.cpp:3187-3342 | while a result set is open, all columns of the statement are bound, up to the fixed number if there is one; each to its own live blocks, a LOB to its locators, any other to its field buffer; and column[] describes the statement if column information is sent |
| Db2Buffers.BoundToOwnBlocks | src/connections/db2.cpp:3314-3342 | no two columns of an open result set share a block |
| Db2Buffers.EntryIsLiveIff | src/connections/db2.cpp:3187-3342 | an entry of the bindings names live blocks iff it was made with the buffers that there are |
| Db2Buffers.OpenEntriesAreLiveIff | src/connections/db2.cpp:3187-3342 | while a result set is open, all entries name live blocks iff the number of columns is fixed, or none is left from a statement with more columns |
| Db2Buffers.ClosedEntriesAreLiveIff | src/connections/db2.cpp:3797-3824 | once it is closed, all do iff the number is fixed, or there is no entry |
| Db2Buffers.Run | src/connections/db2.cpp:2598-3825 | over every sequence of prepare, execute and close the cursor stays valid, columns are bound iff the last operation was an execute that succeeded, and the statement is the one last prepared |
| Db2Buffers.WholeLife | src/connections/db2.cpp:2428-2466 | from constructor to destructor, whatever happens between, no block is leaked or freed twice |
| Db2Lob.LobField.GetLobFieldSegment | src/connections/db2.cpp:3685-3782 | the segment starts where the counters say, stops where the LOB is known to end or the buffer is full, fails only past that end or with DB2, and leaves the counters after what it passed and what it stored, or where it would have started |
| Db2Lob.ReadChunks | src/connections/db2.cpp:3725-3768 | the chunks, each from the same position, one after the other until the buffer is full |
| Db2Lob.OneChunkIff | src/connections/db2.cpp:3725-3768 | a read in range is right whatever the LOB holds iff it takes one chunk, and no length in a SQLINTEGER takes more |
| Db2Lob.ReadField | src/connections/db2.cpp:3665-3782 | over any reads of one field, of LOBs that may differ, the counters are those of the reads made, and if DB2 does not fail each read is answered as they say |
| Db2Lob.CountersFollow | src/connections/db2.cpp:3709-3712 | after any reads the counters are apart by what the last jump missed, if it failed, and by what there was no room for since |
| Db2Lob.DriftIff | src/connections/db2.cpp:3709-3712 | if there was always room, they are apart iff the last read that did not go on where another ended failed |
| Db2Lob.InRangeReadIff | src/connections/db2.cpp:3709-3723 | after any reads, a read in range gives the slice that was asked for, whatever the LOB holds, unless it goes on where the last success ended and the counters are apart |
| Db2Lob.ReadPastTheEndFirst | src/connections/db2.cpp:3709-3717 | a new field that is read past its end, which fails, cannot be read at 0 either |
| Db2Lob.BuildLobField | src/protocols/mysql.cpp:4114-4167 | read a piece at a time, a LOB comes out whole from where the counters start it, whether or not its length could be had |
| OracleCrypto.HexReadsBack | src/auths/oracle_userlist.cpp:409-428 | decoding undoes encoding |
| OracleCrypto.HexDecodeExactly | src/auths/oracle_userlist.cpp:409-422 | decodes iff the size is the one that's wanted |
| OracleCrypto.AesCbc | src/auths/oracle_userlist.cpp:238-274 | works iff the sizes suit AES, and touches no more of the buffer than its input's size |
| OracleCrypto.DesCbc | src/auths/oracle_userlist.cpp:773-814 | the same for DES and 3DES, which take no empty input |
| OracleCrypto.O3logonPasswordHash | src/auths/oracle_userlist.cpp:816-870 | the last block of name and password in upper case, in UTF-16 with zeros up to whole blocks, under the last block of the same under a fixed key |
| OracleCrypto.DesHashIgnoresCase | src/auths/oracle_userlist.cpp:819-833 | the hash is the same for names and passwords that differ in case only |
| OracleCrypto.DesHashIs | src/auths/oracle_userlist.cpp:816-870 | the hash, spelled out on the bytes that are encrypted |
| OracleO5logon.PasswordHash | src/auths/oracle_userlist.cpp:315-382 | a key for each verifier type, of a size that AES takes |
| OracleO5logon.O5logonParameters | src/auths/oracle_userlist.cpp:430-461 | which inputs give a key, which key, and the session key's size, for each type |
| OracleO5logon.O5logonChallenge | src/auths/oracle_userlist.cpp:463-504 | the challenge is the random bytes, padded for the 11g verifiers only, encrypted, in hexadecimal |
| OracleO5logon.O5logonComboKey | src/auths/oracle_userlist.cpp:506-592 | the key for each type: of the client's session key and then the server's in upper case hex for 12c, of bytes 16 to 31 of both for 10g, and of 16 to 39 in two parts for 11g |
| OracleO5logon.ComboKeyReads | src/auths/oracle_userlist.cpp:541-592 | for the 11g verifiers only the unpadded bytes from 16 to 39 of the session keys matter, for the 10g verifier those from 16 to 31 |
| OracleO5logon.O5logonComboKeyFromExtra | src/auths/oracle_userlist.cpp:594-631 | the key from both session keys as they were sent, if both have the right size |
| OracleO5logon.BothPartsRecovered | src/auths/oracle_userlist.cpp:594-631 | the server, which keeps no state, gets both session keys back, its own from the challenge, for every verifier type |
| OracleO5logon.O5logonVerify | src/auths/oracle_userlist.cpp:633-692 | accepts iff what was decrypted is 16 bytes of salt, the stored password, and 1 to 16 copies of their number, and hands on what was supplied whenever the padding is good |
| OracleO5logon.FramesIff | src/auths/oracle_userlist.cpp:663-676 | framing and stripping are inverse, and a frame has one salt, one password and one pad |
| OracleO5logon.OnePassword | src/auths/oracle_userlist.cpp:663-686 | under one key, what a client sent is accepted for one password at most |
| OracleO5logon.ClientAcceptedIff | src/auths/oracle_userlist.cpp:633-692 | what a client frames is accepted iff its password is the stored one, the empty one too |
| OracleO5logon.HonestLoginAccepted | src/auths/oracle_userlist.cpp:463-692 | challenge, then verify: a client that makes its key by the formula of its type, and frames its password with salt and padding, is accepted under every verifier type |
| OracleO3logon.O3logonChallenge | src/auths/oracle_userlist.cpp:1235-1283 | a session key of the type's size, under the type's cipher, key and initial vector |
| OracleO3logon.ChallengeReadsBack | src/auths/oracle_userlist.cpp:1313-1327 | the server gets its session key back from its own challenge, for every type |
| OracleO3logon.O3logonVerify | src/auths/oracle_userlist.cpp:1285-1377 | the password is checked under the type's own rules, and what was supplied is handed on whether or not it was right |
| OracleO3logon.O3logonAesVerify | src/auths/oracle_userlist.cpp:1002-1097 | the key is the session key's first half iff both sides set both logon type bits, an absent client counting as set, and else the second half |
| OracleO3logon.AesTextIff | src/auths/oracle_userlist.cpp:1073-1091 | a 10g plaintext is accepted iff it is salt, the password, up to 15 bytes of anything, and one more than their number |
| OracleO3logon.AesSentIff | src/auths/oracle_userlist.cpp:1062-1091 | the same for what was sent, which is whole blocks and more than the salt |
| OracleO3logon.O3logonDesVerify | src/auths/oracle_userlist.cpp:1152-1233 | accepts iff the form, the digits and the zeros are right, and what is left is the password |
| OracleO3logon.DesAcceptsIff | src/auths/oracle_userlist.cpp:1152-1228 | accepted means whole blocks in hex and a digit from 0 to 7, and a plaintext that is exactly the stored password and so many zeros |
| OracleO3logon.O3logonTripleDesVerify | src/auths/oracle_userlist.cpp:1308-1377 | accepts iff there's room and the bytes, rotated back, start with the stored password |
| OracleO3logon.TripleDesAcceptsIff | src/auths/oracle_userlist.cpp:1336-1372 | accepted means that the password isn't empty, has room, and comes first once the last four bytes have taken the place of the first, under the key of the session key |
| OracleO3logon.DesClientIff | src/auths/oracle_userlist.cpp:1152-1233 | an 8i client's password is accepted iff it isn't empty and is the stored one |
| OracleO3logon.TripleDesClientIff | src/auths/oracle_userlist.cpp:1336-1372 | a stored password is accepted from a 9i client iff it isn't empty and the client's password and filler start with it |
| OracleO3logon.AesClientIff | src/auths/oracle_userlist.cpp:1002-1097 | the password of a 10g client, which takes the half of the session key that the bits say, is accepted iff it is the stored one |
| OracleO3logon.HonestClientIff | src/auths/oracle_userlist.cpp:970-1377 | challenge, then verify, under all three types: a client that makes its key from the session key by its type's formula is accepted iff its password isn't empty or the type is 10g |
| ConfigDocument.ConfigDom.ParseUrl | src/configs/xmldom.cpp:2715-2742 | a file, a directory or a list of urls, nested to any depth, is filtered as all of its documents one after another would be, although reading stops at the one in which the instance is found |
| ConfigDocument.ConfigDom.Load | src/configs/xmldom.cpp:1195-1243 | succeeds iff there is an instance with the id, which is not empty; the tree then holds the first one, up to the end of the first instance in it, and nothing else, unless it lies in another instance, when the tree is empty |
| ConfigDocument.PruneChildren | src/configs/xmldom.cpp:1247-1255 | the loop that finds the next instance before it deletes one leaves exactly the nodes that are not instances with another id, in order |
| ConfigTheorems.SearchNode | src/configs/xmldom.cpp:962-1128 | of what comes before the wanted instance, only instances are let through, with their attributes up to the id and the instances they hold |
| ConfigTheorems.InsideNode | src/configs/xmldom.cpp:1000-1161 | in the wanted instance everything is kept but comments and white space, until an instance ends |
| ConfigTheorems.ForwardedIsWellNestedIff | src/configs/xmldom.cpp:962-1155 | for every document, what is forwarded is well nested iff the first instance with the id is missing, or lies in no other instance and holds none |
| ConfigTheorems.GrowForest | src/configs/xmldom.cpp:997-1025 | the events of a document build that document |
| ConfigTheorems.LoadedIsTheInstance | src/configs/xmldom.cpp:1195-1255 | for every document, nested instances or not: loading fails iff no instance has the id; the tree is empty iff the first one in document order lies in another; and else it holds that one with all its attributes, and its elements and text up to the end of the first instance in it, and nothing else |
| ConfigTheorems.WholeIsLoadedIff | src/configs/xmldom.cpp:1000-1026 | what is loaded is the whole instance iff it lies in no other, and nothing but end tags, comments and white space comes after the end of an instance in it |
| ConfigTheorems.EndTagChangesNothing | src/configs/xmldom.cpp:997-1025 | the tree is the same before and after an end tag, so an element that is never closed is in it too |
| ConfigTheorems.FlatDocumentIsLoaded | src/configs/xmldom.cpp:1195-1255 | if no instance lies in another, it is always the first instance with the id |
| ConfigTheorems.InnerInstanceIsLost | src/configs/xmldom.cpp:1000-1026 | an example: the wanted instance in another one |
| ConfigTheorems.RestOfHolderIsLost | src/configs/xmldom.cpp:1000-1026 | an example: text in the wanted instance, after another one in it |
| ConfigTheorems.UnwantedPairIsHarmless | src/configs/xmldom.cpp:1000-1026 | an example: an unwanted instance in an unwanted one |
| FirebirdLogin.AccountName | src/auths/firebird_userlist.cpp:189-242 | the loop with its index bumped inside, and its three ways out, computes the account: dequoted, upcased or as it came |
| FirebirdLogin.SameAccount | src/auths/firebird_userlist.cpp:253-260 | same iff the accounts are equal |
| FirebirdLogin.UnquotedIff | src/auths/firebird_userlist.cpp:194-229 | what the loop finds between quotes is the one string of which the login is the quoted form |
| FirebirdLogin.DequotingInvertsQuoting | src/auths/firebird_userlist.cpp:189-242 | every string is the account of its double-quoted form |
| FirebirdLogin.MalformedIsLeftAlone | src/auths/firebird_userlist.cpp:184-186 | a login that starts with a quote but is no string's quoted form is left as it came |
| FirebirdLogin.SymbolLoginsIgnoreCase | src/auths/firebird_userlist.cpp:178-182 | two logins of symbol characters are the same account iff they are equal up to ASCII case |
| FirebirdLogin.UpcasedIff | src/auths/firebird_userlist.cpp:178-182 | a login without quotes is upcased iff it is of ASCII letters, digits that aren't first, `_` and `$`, and else is left as it came |
| FirebirdLogin.SingleQuotedWordingIff | src/auths/firebird_userlist.cpp:175-177 | when the comment's wording holds for a single-quoted login |
| FirebirdLogin.AccountIsSameIff | src/auths/firebird_userlist.cpp:189-242 | a string is its own account iff it has no quotes to lose and no letters to upcase |
| FirebirdLogin.IdempotentIff | src/auths/firebird_userlist.cpp:189-242 | for every login, applying the rules twice is applying them once iff it is not quoted, or what is inside double quotes has no quotes to lose and no letters to upcase, or what is inside single quotes has no quotes to lose |
| FirebirdLogin.AccountIsNotIdempotent | src/auths/firebird_userlist.cpp:189-242 | an example: a lower case letter in double quotes |

## Left out

- Drivers, files, sockets, processes, terminals, the pager, tab completion, help and prompts: input and output. Reads
  of a script are from a text, and DB2 is a class that answers as it may.
- Ciphers, hashes, key derivation and random bytes: not in the files modelled. They are functions with laws, or
  parameters. Calls to them that fail, and the wiping of buffers, aren't part of this model.
- `rudiments`, the library that has `charstring`, `character` and `xmldom`, is not part of this model. White space is
  space, tab, line feed, vertical tab, form feed and carriage return; letters and digits are ASCII; a NUL is in no set
  of characters; hexadecimal that isn't read as zero, and a last digit alone is dropped. Of `xmldom` it is taken that
  an element is in the tree from its start tag on, as the last child of the one that is open, that it is filled
  afterwards, as with `appendTag` (`src/configs/xmldom.cpp:1313-1318`,
  `src/api/c++/sqlrexportcsvjsondomnode.cpp:26-47`), and that an end tag only closes it.
- Result sets: conversions of fields by the client library, floating-point and date formats, a connection that is lost
  while rows are displayed, and column names or types that are null pointers.
- JsonDocuments.JsonWriteStats: the elapsed time is a number of microseconds, printed with six places; that the source
  keeps it in a double, and prints it as the locale says, isn't modelled.
- JsonTheorems.JsonReadsBack: says nothing of bytes that aren't UTF-8, which are written as they are; strings are
  sequences of bytes here.
- CsvDisplay.CsvReadsBack: the reader takes a line feed for a line break where section 2 of RFC 4180 has a carriage
  return before it, because the writer writes no carriage return.
- ScriptRunner.EachFailureCountsOnce: the count is unbounded here, and 64 bits wide in the source.
- Commands of sqlrsh: which command a text is, and what it does, is not part of the model; a command succeeds, fails,
  sets continueonerror or runs a script.
- Db2Fetch.Cursor.FetchRow: is called once for each row, with nextRow after it, as every caller does. Rows that DB2
  reports as in error, and the byte addresses of fields in their buffer, are left out; a call that failed is taken to
  leave the result set where it was.
- Db2Buffers.BoundToLiveBlocks: if column information isn't sent, the source binds columns by kinds that it never
  asked for, so nothing is claimed about the statement's kinds then. A statement is taken to describe itself in the same
  way until it is prepared again, and an address, once freed, not to be given out again.
- Db2Buffers.Cursor.CloseResultSet: the output binds that are freed there aren't modelled.
- Db2Lob.LobField.GetLobFieldSegment: characters of more than one byte, where DB2's own positions differ from bytes,
  and requests so large that a sum of positions would wrap at 64 bits.
- Db2's catalog queries, bind buffers and data types: long but shallow.
- Oracle's server response, and the ways in which the module is called: a few lines each around what is modelled. The
  parsing of the inputs in the "extra" field is left out.
- ConfigDocument.ConfigDom.ParseUrl: protocol prefixes, which files of a directory are read, and files that aren't well
  formed, of which part is filtered before they are read again as a list of urls. The documents are taken to be added to
  one tree.
- ScriptRunner.Shell.RunMain: sessions at a prompt, and the delimiter that is taken off a single query.
- The rest of `xmldom.cpp`: the mode that lists enabled ids, the renaming and defaults of attributes, and the getters.
- The other authentication modules, and the copies of these functions in the connect string modules.
