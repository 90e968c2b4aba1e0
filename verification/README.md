# Verified models of the catalog scripts

Dafny models of the hand-written algorithms behind the comic catalog tooling, with proofs
that hold for every input, every run or every reachable state. Each module models one
script (or the part of a service a script relies on); the code decides wherever code and
documentation differ.

`dafny verify dfyconfig.toml` checks everything.

| modules | what they model |
|---|---|
| `ValueTuples` | the character loop that parses `(...),(...)` payloads, the automaton it computes, printers, and the laws between them |
| `DumpStatements`, `Sqlite`, `DumpLoader` | the line-streaming mysqldump-to-SQLite loader: one file cursor shared by three loops, projection by column name, batched writes, last write per id |
| `DumpLaws`, `DumpText`, `DumpRoundTrip`, `DumpColumns`, `DumpOrder`, `DumpSurvival`, `DumpCuts` | the loader against abstract dumps: what a dump means, the text it is written as, that loading the text gives the meaning, what each stored column holds, that column order does not matter, which tables survive, and what becomes of the others |
| `RateBudget`, `QueueRunner`, `QueueRuns`, `QueueProgress` | the request budget, the exact-volume queue loop, and what holds over whole runs |
| `RunnerLock` | the two lock-file variants over runs of processes that start, die, acquire and release |
| `IssueOrder` | the natural sort key of issue numbers |
| `SlimDb` | the slim barcode database and the lookup it is built for |
| `BatchAudit`, `EnrichmentAudit` | the two post-write audits in fast and full mode |
| `CorsMiddleware`, `ResidualDates`, `ListPagination` | the response wrapper, the printing-date clean-up, the listing pagination |
| `PyText`, `Decimal`, `Common` | the Python string operations and sequence helpers the others use |

## How to read the model

Code that changes things step by step is a method or a class: the parser's two nested
loops, the file cursor, the database, the lock file, the issue whose dates are cleared, the
ASGI wrapper. Each is proved equal to a function of its inputs or its old state, and the
lemmas are about that function. Clock readings, importer results, process ids, the wrapped
app's behaviour and the server's replies are arguments, so a statement about all arguments
is a statement about all runs. The queue runner's rounds come from a tape of arbitrary
finite length; every finite beginning of every run, watching or not, is such a tape.

## Properties the code does not have

Some properties one would expect are false of the code. Each comes with inputs that show it
-- a single one or a whole family -- and the exact condition under which the property holds.

* **The hourly cap is not a hard cap.** The budget is asked before each volume, not before
  each request. In any rolling hour in which the run made a request, the ledger counts at
  most the cap less one plus the requests of the largest import (`QueueRuns.HourlyBudget`),
  and that bound is met whatever the limits and the import size
  (`QueueRuns.HourlyBudgetIsTight`). So every run with imports of at most `m` requests keeps
  the configured cap in those hours exactly when `m` is at most one, or nothing is imported,
  or the spacing exceeds an hour and `m` is within the cap (`QueueRuns.HourlyCapKeptIff`).
* **The reported wait can fall short when the hour is full.** An entry exactly one hour old
  still counts: right after a burst that fills the hour the budget reports one hour and
  refuses again at its end (`RateBudget.HourlyWaitFallsShort`). Outside a pause the wait is
  enough if and only if the entries still counted at the moment the spacing has passed are
  below the cap (`RateBudget.WaitSufficesIff`); so it is enough with room in the hour, and
  also with a full hour whose oldest entries age out during a longer spacing wait.
  `RateBudget.WaitDuringPause` is the condition for a wait reported during a pause.
* **`--limit` does not bound a watching run**: throttled imports skip the limit check, so a
  watching run can make any number of imports (`QueueProgress.WatchingExceedsTheLimit`).
  Every run keeps the limit exactly when it does not watch or imports nothing
  (`QueueProgress.LimitKeptIff`), and a run exceeds it only through throttled imports from
  the limit-th on (`QueueProgress.OnlyThrottledBeyondLimit`).
* **Lock exclusion needs an uninterrupted read and write**
  (`RunnerLock.SplitAcquireIsNotExclusive`); a late write is safe exactly when the runner's
  check, made again at that moment, would pass (`RunnerLock.LateWriteIsSafeIffRechecked`).
* **The slim database does not answer every lookup.** The search also looks for the digits
  in the notes, but notes are kept only when they mention UPC or barcode
  (`SlimDb.NotesLookupIsLost`). The answers agree exactly when every issue found in the full
  database is a retained one (`SlimDb.SearchAgreesIff`); in terms of the lookup alone, when
  every text it finds mentions a UPC or a barcode (`SlimDb.LookupAgreesIff`). Only notes can
  make the difference (`SlimDb.OnlyNotesAreOverlooked`).
* **mysqldump's named escapes are altered.** The parser drops the backslash, so `\n` is
  loaded as the letter n. A dumped string survives exactly when it has no NUL, line feed,
  carriage return or Control-Z (`ValueTuples.ServerStringSurvives`).
* **Empty rows do not survive printing**: `()` parses as one empty text
  (`ValueTuples.RoundTrip`).
* **A line that ends in a semicolon ends the statement**, even inside a quoted string, and
  the lines behind it are read as whatever they look like. From the first statement of a
  printed INSERT exactly the rows closed before the cut are read (`DumpCuts.CutContributes`);
  then the loader goes on with the lines left over (`DumpCuts.TableLoad`). A publisher whose
  name ends in a semicolon and a line feed is lost without an error
  (`DumpCuts.NameEndingLineIsLost`), and one whose name holds another dump behind such a line
  feed is replaced by the tuples of that dump, the count still looking right
  (`DumpCuts.NameIsLoadedInstead`). A table with ids of its own survives dump and load if and
  only if no string in it has a semicolon, blanks and a line feed in a row
  (`DumpSurvival.TableSurvivesIff`), which is also exactly when no line but the last ends in a
  semicolon (`DumpSurvival.EndsOnceIff`, for ids of any kind).
* **The full write-batch audit accepts a report that names one issue twice**
  (`BatchAudit.FullPassesRepeatedId`); `BatchAudit.FullVersusFast` gives the exact difference.
* **The enrichment audit's modes part for reports that list their own UPC ids**
  (`EnrichmentAudit.OwnListPassesFullOnly`, `EnrichmentAudit.WrongListPassesFastOnly`);
  `EnrichmentAudit.ModesWithOwnList` says when, and without such a list they agree
  (`EnrichmentAudit.ModesAgree`).
* **The discovery lock turns away a process whose own pid is left in the file**, the runner's
  lock does not (`RunnerLock.VariantsDifferOnOwnPid`).
* **An app that raises after its own response start gets a second one**
  (`CorsMiddleware.RaisingAppAnswersOnce`, an if-and-only-if).

## Model

| member | source | states |
|---|---|---|
| ValueTuples.ParseValueTuples | apps/api/scripts/gcd_load_sqlite.py:81-133 | the two nested loops end on every text and find the rows of a four-mode automaton; the index never passes the end, also after a trailing backslash |
| ValueTuples.RunIgnoresEarlierRows | apps/api/scripts/gcd_load_sqlite.py:86-133 | rows already found never influence what is found later |
| ValueTuples.ParseComposes | apps/api/scripts/gcd_load_sqlite.py:86-133 | a payload can be cut at `a` and parsed in two halves, whatever follows, if and only if `a` ends between tuples |
| ValueTuples.TruncationKeepsWholeRows | apps/api/scripts/gcd_load_sqlite.py:86-133 | any truncation of any payload yields a prefix of its rows |
| ValueTuples.TruncatedPrinted | apps/api/scripts/gcd_load_sqlite.py:115-133 | cut inside row number j, closing parenthesis not included, a printed payload yields exactly its first j rows, never part of one |
| ValueTuples.NoRowWithoutClosing | apps/api/scripts/gcd_load_sqlite.py:125-128 | only a closing parenthesis completes a row |
| ValueTuples.TerminatorIsIrrelevant | apps/api/scripts/gcd_load_sqlite.py:214 | stripping blanks and semicolons before parsing changes no row |
| ValueTuples.ParsePrinted | apps/api/scripts/gcd_load_sqlite.py:86-133 | parsing returns what was printed, for every choice of escapes and every bare token |
| ValueTuples.BareFieldMeans | apps/api/scripts/gcd_load_sqlite.py:119-124 | an unquoted token counts without the blanks round it and is NULL if it spells that word in any case |
| ValueTuples.MixedFieldMeans | apps/api/scripts/gcd_load_sqlite.py:98-124 | text before, between and behind the quoted strings of one field is kept with them, blanks and all; the quotes are dropped, so a doubled quote vanishes |
| ValueTuples.ParseSpaced | apps/api/scripts/gcd_load_sqlite.py:88-92 | text between tuples without an opening parenthesis is ignored |
| ValueTuples.TruncatedSpaced | apps/api/scripts/gcd_load_sqlite.py:86-133 | the same for any text between tuples and any cut: exactly the rows closed before it |
| ValueTuples.RoundTrip | apps/api/scripts/gcd_load_sqlite.py:81-133 | print then parse gives back rows of NULLs and strings of any characters, if and only if no row is empty |
| ValueTuples.ServerStringSurvives | apps/api/scripts/gcd_load_sqlite.py:100-103 | with the server's escapes a string survives if and only if it has no NUL, line feed, carriage return or Control-Z |
| Decimal.ParseIntShow | apps/api/scripts/gcd_load_sqlite.py:59-65 | `_to_int` reads every printed integer back |
| Decimal.UnsignedNumber | apps/api/scripts/gcd_load_sqlite.py:59-65 | digits with blanks round them are read as the number they show |
| Decimal.NegativeNumber | apps/api/scripts/gcd_load_sqlite.py:59-65 | and so with a minus sign before them |
| Decimal.PositiveNumber | apps/api/scripts/gcd_load_sqlite.py:59-65 | or a plus sign |
| Decimal.UnderscoreBetween | apps/api/scripts/gcd_load_sqlite.py:62-63 | an underscore between two runs of digits is passed over |
| Decimal.NumbersOnly | apps/api/scripts/gcd_load_sqlite.py:62-65 | nothing but digits, one sign, single underscores between digits and outer blanks is read as a number |
| PyText.Blanks | apps/api/scripts/gcd_load_sqlite.py:121 | the characters `str.strip` takes off, by code point |
| PyText.StripMeaning | apps/api/scripts/gcd_load_sqlite.py:121-122 | stripping leaves what stands between the blanks at the two ends |
| PyText.EndsStatementMeaning | apps/api/scripts/gcd_load_sqlite.py:196 | a text ends a statement exactly when nothing but blanks follows some semicolon in it |
| PyText.LowerMeaning | apps/api/app/http_cors.py:26-46 | lower case goes letter by letter of the ASCII alphabet and leaves everything else |
| PyText.LineDecides | apps/api/scripts/gcd_load_sqlite.py:188-200 | while the text so far ends no statement, the next line alone decides whether the longer text does: why looking at the newest line is enough |
| PyText.LinesReadBack | apps/api/scripts/gcd_load_sqlite.py:172-173 | complete lines written one after another are iterated as they were |
| PyText.FirstLinesEnd | apps/api/scripts/gcd_load_sqlite.py:173 | the first lines of a text are a proper beginning of it that ends in a line feed |
| Sqlite.Database.ExecuteMany | apps/api/scripts/gcd_load_sqlite.py:164-168 | a batch changes its own table only, by inserting its tuples in order |
| Sqlite.InsertAllAppend | apps/api/scripts/gcd_load_sqlite.py:222-228 | where a list of tuples is cut into batches does not matter |
| Sqlite.LastWriteWins | apps/api/scripts/gcd_load_sqlite.py:164-168 | for every key the last tuple wins, keys never written keep their row, no other key appears |
| Sqlite.LastNamingWins | apps/api/scripts/gcd_load_sqlite.py:156-168 | the last tuple that names a key is the one stored under it, also when other tuples leave their key to the table |
| Sqlite.AutomaticKeysAreFresh | apps/api/scripts/gcd_load_sqlite.py:156-162 | a NULL id gets a key not in use, so it never overwrites a row |
| Sqlite.AutomaticKeyMeaning | apps/api/scripts/gcd_load_sqlite.py:156-162 | an automatic key is one more than the largest in use, and 1 in an empty table |
| DumpStatements.LineCursor.Next | apps/api/scripts/gcd_load_sqlite.py:172-173 | hands out each line once, in order |
| DumpStatements.LineCursor.ReadCreateColumns | apps/api/scripts/gcd_load_sqlite.py:68-78 | returns the backticked names up to the closing line and leaves the cursor right after it |
| DumpStatements.LineCursor.AssembleStatement | apps/api/scripts/gcd_load_sqlite.py:195-200 | joins the lines up to the first that ends a statement, or to the end of the file |
| DumpStatements.LineCursor.SkipStatement | apps/api/scripts/gcd_load_sqlite.py:187-193 | stops at the same line the assembling loop would, although it looks at one line at a time |
| DumpStatements.LstripKeepsEnding | apps/api/scripts/gcd_load_sqlite.py:174-188 | starting the skip from the left-stripped line makes no difference |
| DumpLoader.IndexOf | apps/api/scripts/gcd_load_sqlite.py:209 | the first position of a column, none exactly when it is missing |
| DumpLoader.PickFields | apps/api/scripts/gcd_load_sqlite.py:217-221 | one cell per wanted column, converted when it is an integer column |
| DumpLoader.WriteRows | apps/api/scripts/gcd_load_sqlite.py:213-228 | for every batch size the table receives exactly the tuples of the rows long enough, and their number is counted |
| DumpLoader.ParsePayload | apps/api/scripts/gcd_load_sqlite.py:214 | the stripped payload has the rows of the whole payload |
| DumpLoader.LoadValues | apps/api/scripts/gcd_load_sqlite.py:205-228 | no columns and a missing column are the two errors and leave the database alone |
| DumpLoader.LoadStatement | apps/api/scripts/gcd_load_sqlite.py:202-229 | the effect of one INSERT is that of the whole-file specification |
| DumpLoader.ProcessLine | apps/api/scripts/gcd_load_sqlite.py:173-229 | one round of the main loop, however many lines it takes, keeps the result the specification gives for the rest of the file |
| DumpLoader.ConvertDump | apps/api/scripts/gcd_load_sqlite.py:144-235 | tables, counts and error are those of a simple fold over the file's statements, for every batch size of at least one |
| DumpLaws.PositionsMeaning | apps/api/scripts/gcd_load_sqlite.py:208-211 | every wanted column is found at its first position; the lookup fails if and only if one is missing |
| DumpLaws.ColumnOrderIrrelevant | apps/api/scripts/gcd_load_sqlite.py:205-221 | permuting distinct columns with the values of every full-width row changes neither tuples nor error |
| DumpLaws.TablesAreLogs | apps/api/scripts/gcd_load_sqlite.py:213-229 | without an error each table is its tuples written in file order and its count their number |
| DumpLaws.LoadedTable | apps/api/scripts/gcd_load_sqlite.py:144-235 | over a whole file the last tuple per id wins and nothing else is in the table |
| DumpLaws.StatementReadWhole | apps/api/scripts/gcd_load_sqlite.py:195-200 | a statement over several lines is read whole if and only if no earlier line ends with a semicolon |
| DumpText.CreateRead | apps/api/scripts/gcd_load_sqlite.py:176-180 | a CREATE TABLE of columns, keys and constraints yields exactly its column names, in order |
| DumpText.InsertRead | apps/api/scripts/gcd_load_sqlite.py:184-200 | an INSERT over any number of lines is one statement of its table |
| DumpText.SplitFound | apps/api/scripts/gcd_load_sqlite.py:202-204 | the text is parted at the VALUES after the head, not at one inside a string |
| DumpText.HeadColumns | apps/api/scripts/gcd_load_sqlite.py:136-141 | the listed columns are read back from the head, and none from a head without a list |
| DumpText.InsertContribution | apps/api/scripts/gcd_load_sqlite.py:202-228 | the text of an INSERT contributes what its columns and values say |
| DumpText.OtherKinds | apps/api/scripts/gcd_load_sqlite.py:176-193 | a line that names no kept table is skipped, as a statement if it is an INSERT |
| DumpText.KindMeaning | apps/api/scripts/gcd_load_sqlite.py:174-193 | a line begins a definition or an INSERT of gcd_publisher, gcd_series or gcd_issue exactly when, leading blanks aside, it starts with the keyword and that name in backticks; any other line that starts with INSERT INTO begins an INSERT that is skipped |
| DumpText.ColumnNameIff | apps/api/scripts/gcd_load_sqlite.py:68-78 | a stripped line names a column exactly when it begins with a non-empty name in backticks |
| DumpText.PayloadMeaning | apps/api/scripts/gcd_load_sqlite.py:202-204 | an INSERT is passed over exactly when nothing follows its first VALUES, or it has none |
| DumpText.StatementRead | apps/api/scripts/gcd_load_sqlite.py:173-229 | reading one written statement has its abstract effect and goes on right behind it |
| DumpText.DumpLoadsAsDescribed | apps/api/scripts/gcd_load_sqlite.py:144-235 | every well-formed dump of kept and other statements, spread over lines in any way, loads as its abstract statements say |
| DumpText.DumpTextLoadsAsDescribed | apps/api/scripts/gcd_load_sqlite.py:172-235 | the same from the text of the file, split into lines again |
| DumpText.PrintedInsertIsWellFormed | apps/api/scripts/gcd_load_sqlite.py:184-204 | an INSERT printed without regard to lines is such a statement as long as no line ends early in a semicolon |
| DumpRoundTrip.DescribedTable | apps/api/scripts/gcd_load_sqlite.py:144-235 | when a well-formed dump loads without an error, each table holds the last described tuple per key and nothing else; its count is the number of described tuples |
| DumpColumns.StoredIssue | apps/api/scripts/gcd_load_sqlite.py:35-41 | in every well-formed dump that loads, wherever its CREATE TABLEs and INSERTs list the columns, the row of `gcd_issue` under an id is the text under `number`, the text under `barcode`, the text under `key_date` and the integer under `series_id` of the last row with that id that is long enough; the count is the number of such rows |
| DumpColumns.StoredSeries | apps/api/scripts/gcd_load_sqlite.py:35-41 | for `gcd_series` it is the text under `name` and the integers under `year_began` and `publisher_id` |
| DumpColumns.StoredPublisher | apps/api/scripts/gcd_load_sqlite.py:35-41 | for `gcd_publisher` it is the text under `name` |
| DumpRoundTrip.LoadSucceedsIff | apps/api/scripts/gcd_load_sqlite.py:205-211 | a well-formed dump loads without an error if and only if no INSERT of a kept table lacks a column it needs, in its own list or else in the last CREATE TABLE |
| DumpRoundTrip.CellSurvives | apps/api/scripts/gcd_load_sqlite.py:217-221 | an integer, NULL or string printed for its column comes back as the same cell |
| DumpRoundTrip.RecordsSurvive | apps/api/scripts/gcd_load_sqlite.py:213-221 | so does every list of tuples |
| DumpRoundTrip.TableRoundTrip | apps/api/scripts/gcd_load_sqlite.py:144-235 | a table dumped as text and loaded has the same tuples written, in order, and the right count |
| DumpRoundTrip.TableWithoutLineFeeds | apps/api/scripts/gcd_load_sqlite.py:144-235 | in particular every table whose strings have no line feeds, whatever else they hold |
| DumpOrder.LoadIgnoresColumnOrder | apps/api/scripts/gcd_load_sqlite.py:144-235 | two well-formed dumps that differ in the order of columns only, in CREATE TABLEs, INSERTs or both, with the values of full-width rows moved along, load the same tables, counts and error |
| DumpSurvival.BreaksMeaning | apps/api/scripts/gcd_load_sqlite.py:196 | a string breaks a line when a line feed in it follows a semicolon with only blanks in between |
| DumpSurvival.EndsOnceIff | apps/api/scripts/gcd_load_sqlite.py:195-200 | a dumped table is read as one statement if and only if no string of it breaks a line |
| DumpSurvival.NothingLoadedBreaks | apps/api/scripts/gcd_load_sqlite.py:144-235 | whatever the loader makes of a dumped table's text, leftover lines included, no string it stores breaks a line |
| DumpSurvival.TableSurvivesIff | apps/api/scripts/gcd_load_sqlite.py:144-235 | for every table whose tuples have ids of their own, dump and load give the same table if and only if none of its strings breaks a line |
| DumpCuts.FirstStatementEnds | apps/api/scripts/gcd_load_sqlite.py:195-200 | what is taken for the first statement is the whole text or a proper beginning that ends in a line feed |
| DumpCuts.CutContributes | apps/api/scripts/gcd_load_sqlite.py:195-228 | wherever a printed INSERT is cut, exactly the rows closed before the cut are read from its first statement, whatever the lines behind it become |
| DumpCuts.AllRowsReadIff | apps/api/scripts/gcd_load_sqlite.py:195-214 | every row of a printed INSERT is read if and only if none of its lines ends early in a semicolon |
| DumpCuts.TableCut | apps/api/scripts/gcd_load_sqlite.py:195-228 | the first statement of a dumped table contributes a beginning of its tuples, all of them under the same condition |
| DumpCuts.TableLoad | apps/api/scripts/gcd_load_sqlite.py:144-235 | loading a dumped table stores the tuples read from its first statement and then goes on with the lines behind it |
| DumpCuts.NameEndingLineIsLost | apps/api/scripts/gcd_load_sqlite.py:144-235 | a publisher whose name has a line feed after a semicolon leaves the table empty, without an error |
| DumpCuts.NameIsLoadedInstead | apps/api/scripts/gcd_load_sqlite.py:144-235 | a publisher whose name holds, behind a semicolon and a line feed, the dump of any tuples of numbers and NULLs is replaced by those tuples, without an error and with their count |
| RateBudget.Latest | apps/api/app/services/p97_comicvine_rate_budget.py:88-105 | the latest time among all entries, or among those of a 420 |
| RateBudget.OldestSince | apps/api/app/services/p97_comicvine_rate_budget.py:140-150 | the earliest time in the rolling hour, the time of some entry |
| RateBudget.CountSinceMeaning | apps/api/app/services/p97_comicvine_rate_budget.py:68-76 | the count is the number of entries at most 3600 seconds old |
| RateBudget.PauseMeaning | apps/api/app/services/p97_comicvine_rate_budget.py:64-120 | the budget pauses unless the configured pause is not positive or every 420 is at least that old |
| RateBudget.AllowedMeaning | apps/api/app/services/p97_comicvine_rate_budget.py:62-209 | a request is allowed if and only if every 420 is at least the configured pause old, every entry at least the configured spacing old (each asked only of a positive number), and fewer entries than the configured maximum, or one if that is less, are at most an hour old |
| RateBudget.ReasonMeaning | apps/api/app/services/p97_comicvine_rate_budget.py:175-192 | which reason is given: the pause before the hour, the hour before the spacing |
| RateBudget.WaitSufficesIff | apps/api/app/services/p97_comicvine_rate_budget.py:124-152 | outside a pause the reported wait is enough, at its end and at any later time, if and only if the entries counted once the spacing has passed are below the cap |
| RateBudget.WaitSuffices | apps/api/app/services/p97_comicvine_rate_budget.py:124-152 | in particular with room in the hour |
| RateBudget.WaitDuringPause | apps/api/app/services/p97_comicvine_rate_budget.py:124-129 | when the wait reported during a pause is enough |
| RateBudget.HourlyWaitFallsShort | apps/api/app/services/p97_comicvine_rate_budget.py:139-150 | right after a burst that fills the hour, for any limits with a spacing of at most an hour, the reported wait is one hour and the budget refuses at its end |
| QueueRunner.SelectNext | apps/api/app/services/p97_volume_queue_service.py:224-229 | a pending row that no pending row precedes by priority and id; none exactly when none is pending |
| QueueProgress.NextInLine | apps/api/app/services/p97_volume_queue_service.py:224-229 | it has the least priority number of all pending rows and the least id among those |
| QueueRunner.RecordRequests | apps/api/scripts/p97_run_volume_queue.py:137-162 | one entry per request and at least one for a throttled import, whose last entry alone is the 420 |
| QueueRunner.StoreResult | apps/api/app/services/p97_volume_queue_service.py:242-274 | the counters grow by the results and the status is throttled, failed or imported, in this order of preference |
| QueueRunner.ImportVolume | apps/api/scripts/p97_run_volume_queue.py:338-363 | mark, record and store together change one row, as StoreResult does, and append to the ledger |
| QueueRunner.RunRound | apps/api/scripts/p97_run_volume_queue.py:289-402 | one pass through the loop body is one step of the state machine, in every branch |
| QueueRunner.RunQueue | apps/api/scripts/p97_run_volume_queue.py:289-414 | the loop is the run of that machine |
| QueueRuns.StepLog | apps/api/scripts/p97_run_volume_queue.py:302-351 | a round adds nothing, or one import the budget allowed on the ledger as it stood |
| QueueRuns.HourlyBudget | apps/api/scripts/p97_run_volume_queue.py:289-368 | in every rolling hour of every run with a request of the run, the ledger counts at most the configured maximum (or one, if that is less) less one plus the largest import, and that import alone when the configured spacing exceeds an hour |
| QueueRuns.HourlyBudgetIsTight | apps/api/scripts/p97_run_volume_queue.py:302-351 | that bound is met whatever the limits, limit and watch mode, for every import size |
| QueueRuns.HourlyCapKeptIff | apps/api/scripts/p97_run_volume_queue.py:302-351 | every run with imports of at most m requests keeps the configured maximum itself, in every hour with a request of the run, if and only if m is at most one, or nothing is imported, or the spacing exceeds an hour and m is within the maximum |
| QueueRuns.PauseAfter420 | apps/api/scripts/p97_run_volume_queue.py:289-308 | after an import met a 420 no later import of the run starts before the whole configured pause has passed since; after any request, not before the configured spacing has |
| QueueRuns.PauseAfterInherited420 | apps/api/scripts/p97_run_volume_queue.py:289-308 | nor does any import of the run start before the configured pause has passed since a 420 the ledger held at the beginning |
| QueueRuns.ThrottledRowsWait | apps/api/scripts/p97_run_volume_queue.py:290-292 | a throttled row changes only in a round that found the pause after every 420 elapsed |
| QueueRuns.ThrottledUntilPauseEnds | apps/api/scripts/p97_run_volume_queue.py:289-308 | in every run a row that an import left throttled is still throttled after any later round whose re-queueing check came before that import's 420 plus the pause |
| QueueProgress.LimitsAndLast420 | apps/api/scripts/p97_run_volume_queue.py:370-397 | not watching: at most one 420, by the last import, and at most `limit` imports; watching: at most `limit` imports that were not throttled |
| QueueProgress.OnlyThrottledBeyondLimit | apps/api/scripts/p97_run_volume_queue.py:370-397 | in every run, watching or not, of the imports from the limit-th on only the very last of a stopped run was not throttled |
| QueueProgress.WatchingExceedsTheLimit | apps/api/scripts/p97_run_volume_queue.py:370-383 | whatever the limit and the budget, a watching run can make any number of imports |
| QueueProgress.LimitKeptIff | apps/api/scripts/p97_run_volume_queue.py:370-397 | every run with a limit keeps it, one volume being tried in any case, if and only if it does not watch or imports nothing |
| QueueProgress.RunStops | apps/api/scripts/p97_run_volume_queue.py:289-402 | a run that does not watch stops within one round more than there are pending and throttled rows |
| QueueProgress.CountersConserved | apps/api/scripts/p97_run_volume_queue.py:353-368 | each of the four run totals is the sum over the imports and the growth of that counter over the queue rows |
| QueueProgress.LedgerConserved | apps/api/scripts/p97_run_volume_queue.py:345-368 | new ledger rows are the requests counted plus one per throttled import that reported none; one 420 row per throttled import; old rows stay |
| QueueProgress.NeverImportedTwice | apps/api/scripts/p97_run_volume_queue.py:310-363 | rows that were not pending or throttled are never touched, and a row is imported again only after a 420 |
| QueueProgress.StatusTellsLastImport | apps/api/scripts/p97_run_volume_queue.py:345-363 | in every run, a row that was imported has status failed if and only if its last import was not throttled and had failures, imported if and only if it was not throttled and had none, and is throttled, pending or importing otherwise |
| QueueProgress.ImportsTheFirst | apps/api/scripts/p97_run_volume_queue.py:310-363 | a round that imports takes the first row in line and leaves every row its id and priority |
| QueueProgress.StatusIsTrue | apps/api/scripts/p97_run_volume_queue.py:289-402 | the reported status is true of the run: a limit was reached by an import that was not throttled, an empty queue has no pending row, a pause has a 420 in the ledger |
| RunnerLock.LockFile.AcquireRunner | apps/api/scripts/p97_run_volume_queue.py:98-105 | refuses exactly when a running process other than the caller is named; otherwise the file names the caller |
| RunnerLock.LockFile.AcquireDiscovery | apps/api/scripts/p97_discover_comicvine_universe.py:76-86 | refuses exactly when any running process is named |
| RunnerLock.LockFile.ReleaseRunner | apps/api/scripts/p97_run_volume_queue.py:108-114 | removes the file unless it names somebody else |
| RunnerLock.LockFile.ReleaseDiscovery | apps/api/scripts/p97_discover_comicvine_universe.py:89-96 | removes the file only if it names the caller |
| RunnerLock.NextKeepsExclusion | apps/api/scripts/p97_run_volume_queue.py:89-114 | every start, death, acquire and release keeps at most one holder, running, and named by the file |
| RunnerLock.MutualExclusion | apps/api/scripts/p97_run_volume_queue.py:89-114 | so does every run of them, in both variants, from any lock file and with pids used again after a death |
| RunnerLock.RefusedMeaning | apps/api/scripts/p97_run_volume_queue.py:100-102 | who is kept out, exactly |
| RunnerLock.VariantsDifferOnOwnPid | apps/api/scripts/p97_discover_comicvine_universe.py:78-86 | the variants differ if and only if the file names the caller's own pid |
| RunnerLock.ReleaseFreesTheLock | apps/api/scripts/p97_run_volume_queue.py:108-114 | after a holder's release there is no file and no process is refused |
| RunnerLock.StrangersReleaseNothing | apps/api/scripts/p97_run_volume_queue.py:108-114 | while one process holds the lock, a release by another changes nothing, in both variants |
| RunnerLock.SplitAcquireIsNotExclusive | apps/api/scripts/p97_run_volume_queue.py:100-104 | two checks before two writes give two holders |
| RunnerLock.LateWriteIsSafeIff | apps/api/scripts/p97_run_volume_queue.py:100-105 | a late write keeps exclusion if and only if nobody else holds the lock by then |
| RunnerLock.LateWriteIsSafeIffRechecked | apps/api/scripts/p97_run_volume_queue.py:100-105 | in terms of the file and the running pids alone: a late write is safe, whoever holds the lock, if and only if the runner's check made again at that moment passes |
| IssueOrder.IssueSortKey | apps/api/scripts/p97_verify_comicvine_volume_issues.py:27-36 | the loop builds the key of the normalized number, else the number, else the empty text |
| IssueOrder.SplitLossless | apps/api/scripts/p97_verify_comicvine_volume_issues.py:29 | the parts of a split make up the text |
| IssueOrder.SplitAlternates | apps/api/scripts/p97_verify_comicvine_volume_issues.py:29 | text and digit runs alternate, with text at both ends |
| IssueOrder.IssueKeysAreOrdered | apps/api/scripts/p97_verify_comicvine_volume_issues.py:27-36 | keys of any texts compare without a clash of types, and the comparison is a total order |
| IssueOrder.SortIsDetermined | apps/api/scripts/p97_verify_comicvine_volume_issues.py:64 | two sorted lists of the same keys are the same list |
| IssueOrder.SortedIssuesAreDetermined | apps/api/scripts/p97_verify_comicvine_volume_issues.py:64 | sorting issues by key, those of equal keys staying in order as `list.sort` promises, has one outcome |
| IssueOrder.EqualKeys | apps/api/scripts/p97_verify_comicvine_volume_issues.py:27-36 | keys are equal if and only if the texts agree up to letter case and leading zeros |
| IssueOrder.RenderKey | apps/api/scripts/p97_verify_comicvine_volume_issues.py:31-36 | writing a key out gives the text in lower case without leading zeros |
| IssueOrder.KeyOfNormal | apps/api/scripts/p97_verify_comicvine_volume_issues.py:31-36 | that text has the same key |
| IssueOrder.NumbersInOrder | apps/api/scripts/p97_verify_comicvine_volume_issues.py:27-36 | after a common beginning the smaller number comes first, whatever follows |
| IssueOrder.CompareMeaning | apps/api/scripts/p97_verify_comicvine_volume_issues.py:64 | one key is less than another exactly when at their first difference it has the smaller number or the lesser text, or ends |
| IssueOrder.CompareTextMeaning | apps/api/scripts/p97_verify_comicvine_volume_issues.py:64 | texts compare by code point at their first difference, and a beginning comes first |
| SlimDb.SelectIssues | apps/api/scripts/build_slim_gcd_barcode_db.py:51-58 | exactly the issues with a barcode, an isbn or notes that mention one, in order |
| SlimDb.InsertNew | apps/api/scripts/build_slim_gcd_barcode_db.py:78-88 | requires, as SQLite does, a series or publisher key not yet in the table: `Build` never inserts one twice |
| SlimDb.InsertIssue | apps/api/scripts/build_slim_gcd_barcode_db.py:60-64 | requires, as SQLite does, an issue id not yet in the table |
| SlimDb.FilterKeepsDistinctIds | apps/api/scripts/build_slim_gcd_barcode_db.py:51-64 | selecting issues with distinct ids leaves ids distinct |
| SlimDb.CollectSeries | apps/api/scripts/build_slim_gcd_barcode_db.py:66-81 | exactly the existing series some kept issue names, unchanged, and the publisher ids those name |
| SlimDb.CollectPublishers | apps/api/scripts/build_slim_gcd_barcode_db.py:83-88 | exactly the existing publishers with those ids, unchanged |
| SlimDb.Build | apps/api/scripts/build_slim_gcd_barcode_db.py:27-101 | an issue is in the output exactly when its barcode or isbn has a character other than a space or its notes hold upc, barcode or bar code in any mixture of cases; series and publishers are the referential closure, whatever the order of visits, and no key is inserted twice in any table |
| SlimDb.RetainedMeaning | apps/api/scripts/build_slim_gcd_barcode_db.py:53-57 | the condition of the selection, letter by letter: upper and lower case are told apart nowhere in the notes |
| SlimDb.SearchMeaning | apps/api/app/services/gcd_barcode_search_service.py:202-225 | the search finds exactly the issues with a filled column that passes the test and a series that exists, each with that series and its publisher if there is one |
| SlimDb.RetainedJoinsAlike | apps/api/app/services/gcd_barcode_search_service.py:202-209 | a retained issue joins to the same series and publisher in both databases |
| SlimDb.KeptRowsAreReached | apps/api/scripts/build_slim_gcd_barcode_db.py:66-88 | every kept series and publisher is reached from a kept issue |
| SlimDb.SearchAgreesIff | apps/api/app/services/gcd_barcode_search_service.py:211-225 | a search gives the same rows over both databases if and only if every issue it finds is retained |
| SlimDb.LookupAgreesIff | apps/api/app/services/gcd_barcode_search_service.py:211-225 | a lookup is answered alike by every database and its slice if and only if the texts it finds all mention a UPC or a barcode |
| SlimDb.OnlyNotesAreOverlooked | apps/api/scripts/build_slim_gcd_barcode_db.py:55-57 | barcode and isbn matches are never lost |
| SlimDb.NotesLookupIsLost | apps/api/scripts/build_slim_gcd_barcode_db.py:55-57 | a search for digits that stand alone in the notes finds them in the full database and not in the slim one |
| BatchAudit.Pigeonhole | apps/api/scripts/p102_write_batch_audit.py:107-116 | as many distinct ids as rows if and only if every row has an id of its own |
| BatchAudit.CountsOkMeaning | apps/api/scripts/p102_write_batch_audit.py:100-128 | what the report's count check amounts to |
| BatchAudit.DuplicatesWithinIds | apps/api/scripts/p102_write_batch_audit.py:145-173 | the grouping finds nothing if and only if all ids exist and their keys are pairwise distinct |
| BatchAudit.FullScan | apps/api/scripts/p102_write_batch_audit.py:247-270 | the per-row loop's two verdicts, and when it would raise |
| BatchAudit.ScanRunsMeaning | apps/api/scripts/p102_write_batch_audit.py:247-256 | the loop ends without raising exactly when every row has an issue id and, if that issue exists, an expected GCD id |
| BatchAudit.FastPassMeaning | apps/api/scripts/p102_write_batch_audit.py:342-351 | a fast PASS if and only if rows have ids of their own, all in the catalog, with pairwise distinct series and number, and the remaining checks hold |
| BatchAudit.FastVerdictMeaning | apps/api/scripts/p102_write_batch_audit.py:342-351 | a fast PASS in terms of report and catalog alone: as many rows and UPC flags as expected, every row a catalog issue of its own, no two alike in series and number, as many GCD UPC rows as expected, all lookups pass, at most 25 errors, and no early stop |
| BatchAudit.FullVerdictMeaning | apps/api/scripts/p102_write_batch_audit.py:352-361 | a full PASS likewise: every row names a catalog issue with the expected GCD id that no other catalog issue equals in series and number, and the inserted barcodes with a UPC row are as many as expected |
| BatchAudit.CleanScanSeparatesKeys | apps/api/scripts/p102_write_batch_audit.py:258-270 | with distinct ids that exist in the catalog, a scan without duplicates implies pairwise distinct keys |
| BatchAudit.FullVersusFast | apps/api/scripts/p102_write_batch_audit.py:342-361 | given a full PASS, the fast mode passes if and only if ids are real and distinct and the UPC flags add up |
| BatchAudit.FullPassesRepeatedId | apps/api/scripts/p102_write_batch_audit.py:352-361 | one issue named twice passes the full mode and fails the fast one |
| BatchAudit.FastPassesOutsideDuplicate | apps/api/scripts/p102_write_batch_audit.py:145-173 | a duplicate outside the batch fails the full mode only |
| EnrichmentAudit.ConfirmReportCounts | apps/api/scripts/p103_gcd_enrichment_write_batch_audit.py:72-96 | the failures found, in order |
| EnrichmentAudit.CountsOkMeaning | apps/api/scripts/p103_gcd_enrichment_write_batch_audit.py:72-96 | no failure if and only if the four counts fit |
| EnrichmentAudit.SnapshotRowsAre | apps/api/scripts/p103_gcd_enrichment_write_batch_audit.py:57-69 | the rows taken from the rollback carry exactly the ids of its snapshots and no UPC |
| EnrichmentAudit.EffectiveMeaning | apps/api/scripts/p103_gcd_enrichment_write_batch_audit.py:57-69 | which rows are audited: the written ones, or without any those of the snapshots if they are as many as the report says were updated |
| EnrichmentAudit.EffectiveIsIdempotent | apps/api/scripts/p103_gcd_enrichment_write_batch_audit.py:57-69 | falling back to the snapshots a second time changes nothing |
| EnrichmentAudit.SameCountFailures | apps/api/scripts/p103_gcd_enrichment_write_batch_audit.py:149-153 | the fast mode's re-packed report has the count failures of the original one |
| EnrichmentAudit.FallbackCounts | apps/api/scripts/p103_gcd_enrichment_write_batch_audit.py:57-96 | with rows taken from the snapshots, counts pass if and only if every snapshot has an id and no UPC insert is reported or recorded |
| EnrichmentAudit.FetchExisting | apps/api/app/services/p103_gcd_enrichment_audit_helpers.py:23-43 | the ids that exist, for every batch size |
| EnrichmentAudit.NoneMissing | apps/api/scripts/p103_gcd_enrichment_write_batch_audit.py:232-235 | once the common checks hold no id is missing or repeated |
| EnrichmentAudit.CommonMeaning | apps/api/app/services/p103_gcd_enrichment_audit_helpers.py:97-159 | the checks of both modes in terms of report, rollback and catalog alone |
| EnrichmentAudit.JobMeaning | apps/api/app/services/p103_gcd_enrichment_audit_helpers.py:46-75 | in the full mode the inserts on record, in the report or else in the rollback, must be as many as the report says |
| EnrichmentAudit.MismatchMeaning | apps/api/scripts/p103_gcd_enrichment_write_batch_audit.py:238-248 | no row disagrees exactly when every inserted barcode has a UPC row of the same issue |
| EnrichmentAudit.ModesAgree | apps/api/scripts/p103_gcd_enrichment_write_batch_audit.py:324-367 | without an own list of UPC ids, the full mode passes if and only if the fast mode does and no stored UPC disagrees |
| EnrichmentAudit.ModesWithOwnList | apps/api/scripts/p103_gcd_enrichment_write_batch_audit.py:324-367 | with such a list, when each mode passes |
| EnrichmentAudit.OwnListPassesFullOnly | apps/api/app/services/p103_gcd_enrichment_audit_helpers.py:54-68 | a report the full mode passes and the fast mode fails |
| EnrichmentAudit.WrongListPassesFastOnly | apps/api/app/services/p103_gcd_enrichment_audit_helpers.py:54-68 | a report the fast mode passes and the full mode fails |
| EnrichmentAudit.DuplicateBarcodes | apps/api/app/services/p103_gcd_enrichment_audit_helpers.py:78-94 | duplicates are reported if and only if two inserted rows have the same normalized barcode |
| EnrichmentAudit.VerifyUpcs | apps/api/scripts/p103_gcd_enrichment_write_batch_audit.py:238-248 | an issue id is reported if and only if some inserted barcode has no UPC row or one of another issue |
| CorsMiddleware.ResolveOrigins | apps/api/app/http_cors.py:18-35 | configured origins, the frontend and the production hosts, each once |
| CorsMiddleware.OriginsMeaning | apps/api/app/http_cors.py:18-35 | an origin is allowed exactly when it is not empty and is a piece of the configured list, stripped, or the frontend without trailing slashes, or, in production, one of the two web hosts |
| CorsMiddleware.SplitOnMeaning | apps/api/app/http_cors.py:20-22 | the pieces have no comma and, joined by commas, are the configured text |
| CorsMiddleware.FirstOccurrencesMeaning | apps/api/app/http_cors.py:29-35 | deduplication neither loses nor repeats an origin |
| CorsMiddleware.FirstOccurrencesInOrder | apps/api/app/http_cors.py:29-35 | it keeps the order of first appearance |
| CorsMiddleware.ProductionHostsAllowed | apps/api/app/http_cors.py:26-27 | in production both web hosts are allowed, whatever is configured |
| CorsMiddleware.AppendCorsHeaders | apps/api/app/http_cors.py:49-58 | the headers, followed by each of three defaults whose name they lack |
| CorsMiddleware.WithCorsMeaning | apps/api/app/http_cors.py:45-58 | original headers survive as a prefix; each of the three names is there, once if it was absent; no other name is added |
| CorsMiddleware.WithCorsIsIdempotent | apps/api/app/http_cors.py:49-58 | decorating twice, for any origins, is decorating once |
| CorsMiddleware.OriginReflectMiddleware.SendWithCors | apps/api/app/http_cors.py:80-84 | response starts are decorated for an allowed origin, other messages pass |
| CorsMiddleware.OriginReflectMiddleware.Call | apps/api/app/http_cors.py:72-100 | what leaves the wrapper for every behaviour of the app and any content headers of the framework |
| CorsMiddleware.AllowedOriginIsServed | apps/api/app/http_cors.py:80-100 | for an allowed origin every start has an allow-origin header, nothing is lost or reordered, the exception stays in, and there is one start more exactly when the app raised |
| CorsMiddleware.RaisingAppAnswersOnce | apps/api/app/http_cors.py:86-100 | a raising app is answered by exactly one start if and only if it sent none |
| CorsMiddleware.TransparentIff | apps/api/app/http_cors.py:73-90 | the wrapper changes nothing for any app if and only if the request is not http, or no header is named origin, or the first that is has an empty value or one that is not allowed |
| CorsMiddleware.AllowedIffServed | apps/api/app/http_cors.py:38-78 | otherwise the value of that header is the origin served, and no other |
| CorsMiddleware.ServedWithItsOrigin | apps/api/app/http_cors.py:80-100 | every start, the substitute included, carries exactly that origin as its allow-origin header, unless the app gave one of its own; the substitute has status 500 |
| ResidualDates.ReleaseIssue.ClearResidual | apps/api/scripts/p66_fixup_residual_issue_pollution.py:18-47 | one pass that clears as it goes clears exactly the dates polluted at the start, and reports whether it did |
| ResidualDates.ReleaseIssue.Verify | apps/api/scripts/p66_production_bulk_apply.py:31-40 | the flag is set if and only if some reprint pollutes a date |
| ResidualDates.NothingPollutedAfterwards | apps/api/scripts/p66_production_bulk_apply.py:31-40 | after clearing the check finds nothing; a date is gone if and only if it was polluted |
| ResidualDates.ClearedMeaning | apps/api/scripts/p66_fixup_residual_issue_pollution.py:28-40 | a date is cleared exactly when a variant marked as something other than a first print has it, and a release date only if it is not the original one as well; nothing else changes |
| ResidualDates.OrderDoesNotMatter | apps/api/scripts/p66_fixup_residual_issue_pollution.py:28-40 | order and repetition of the variants do not matter |
| ResidualDates.SecondRunIsIdle | apps/api/scripts/p66_fixup_residual_issue_pollution.py:28-40 | clearing again changes nothing |
| ResidualDates.InStages | apps/api/scripts/p66_fixup_residual_issue_pollution.py:28-40 | clearing for some variants and then for others is clearing for all of them |
| ListPagination.ExtendList | apps/api/scripts/investigate_locg_view_modes.py:55-111 | the page stays a beginning of the server's list and holds what the calls asked for; the calls end at the first moment one of the loop's reasons to stop holds, within the cap |
| ListPagination.EveryGoingCallGrows | apps/api/scripts/investigate_locg_view_modes.py:97-110 | every call that is not the last has brought new rows |
| ListPagination.CallsAreBounded | apps/api/scripts/investigate_locg_view_modes.py:72-110 | so the rows on the page bound the calls |
| ListPagination.ChunkExtendsIff | apps/api/scripts/investigate_locg_view_modes.py:61-77 | a chunk extends a beginning of a list without repeats if and only if it was asked for at the page's own length |

## Left out

- ValueTuples.RoundTrip: MySQL's meaning of doubled quotes and named escapes is not modelled as such; the parser's own reading is, and ServerStringSurvives says where they part.
- Decimal.ParseIntShow: `int` on digits outside ASCII, Python's limit on the length of numerals and SQLite's 64-bit integer range.
- DumpSurvival.TableSurvivesIff: tuples with ids of their own; when an id is NULL or repeats, a string that breaks a line may be overwritten, and EndsOnceIff, NothingLoadedBreaks and TableRoundTrip are what is stated.
- DumpText.DumpTextLoadsAsDescribed: universal newlines, gzip, character decoding and its replacement characters.
- RunnerLock.MutualExclusion: takes acquire as one step, which the code does not guarantee; SplitAcquireIsNotExclusive and LateWriteIsSafeIffRechecked are about the two halves, which CheckThenWriteIsAcquire ties to the one step. Permission errors of the liveness check, Windows handles and failing file operations are left out.
- QueueRuns.HourlyBudget: the clock does not run backwards, and nobody else writes the ledger or the queue during the run.
- QueueRunner.RunRound: sleeping is only the passage of time between two rounds; row timestamps, error texts and volume ids, the progress file, console output and the `reprocess` flag (which the code ignores) are not part of the state; importer results are counts of at least zero; an importer that raises ends the run.
- QueueRunner.RunQueue: the early return when the importer cannot be initialised, and `_eta_days_to_goal` (floating-point formatting).
- IssueOrder.IssueKeysAreOrdered: ASCII text; digits and letter case outside ASCII are not modelled. The sort itself is Python's; SortedIssuesAreDetermined says its outcome is forced.
- SlimDb.SearchAgreesIff: the test of a column's text is an arbitrary predicate, which covers LIKE with any search terms; rows come in table order; the classification of rows after the query, indexes and VACUUM are left out.
- SlimDb.Build: issue ids are distinct in the source, as primary keys are; SQLite would refuse a repeated one.
- BatchAudit.FastPassMeaning: the sampled barcode lookups are arbitrary outcomes; messages, timings and the choice of the sample are left out.
- EnrichmentAudit.ModesAgree: the sampled barcode lookups and the number of errors are arbitrary outcomes, the normalisation of barcodes is an arbitrary function, and one UPC row is found per normalised barcode; messages and timings are left out.
- CorsMiddleware.AllowedOriginIsServed: the framework's own CORS middleware and failures of `send`; the content headers the framework adds to the substitute response are arbitrary.
- ListPagination.ExtendList: the page is its list of rows; HTTP failures and blank or malformed replies are one kind of unusable reply, and a page without a list block, where no call is made, is left out.
- ResidualDates.ReleaseIssue.ClearResidual: the lookup of the issue and its variants, and the other fields of the verification record.
- DumpLoader.ConvertDump: transactions, pragmas and indexes of the output database, and removal of an earlier one.
- `run_discovery`: its totals are plain sums over batches of a service that is not modelled.
- Playwright, HTTP clients, SQL text, argument parsing, report printing and the dashboards.
