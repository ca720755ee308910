# Incident pipeline: extraction, deduplicating store, nature aggregate

This project models the incident pipeline of the Norman police incident-summary
tool, and proves properties of the model. The pipeline has three stages:

1. `extractincidents` turns the text of each page of a summary into incident
   records. It splits a page into lines on `"\n"` and skips blank lines. It
   splits each line on the literal two-space string `"  "`, strips every piece
   with Python's `str.strip` and drops the empty pieces. A line that leaves
   exactly five pieces becomes one record, with fields in this order: date and
   time, incident number, location, nature, originating agency.
2. `createdb` drops and recreates the `incidents` table. `populatedb` inserts
   a batch with `INSERT OR IGNORE` under a `UNIQUE` incident number, so the
   first record with a given number wins.
3. `status` runs `SELECT nature, COUNT(*) … GROUP BY nature ORDER BY nature
   ASC`. The command-line `main` resets the table once, extracts and inserts
   each document in turn, then prints one `nature|count` line per nature.

`app.py` and `main.py` carry the same text for `extractincidents`,
`createdb` and `populatedb` (main.py:19-67 repeats app.py:25-73). The model
defines them once and cites `app.py`. Only `main.py` has the printing `status`
and `main`.

Modules:

- `PyStr` (pystr.dfy): the Python string operations the tokenizer uses.
  - `IsWs` is exactly the set of characters for which `str.isspace` holds:
    U+0009–U+000D, U+001C–U+001F, U+0020, U+0085, U+00A0, U+1680,
    U+2000–U+200A, U+2028, U+2029, U+202F, U+205F and U+3000.
  - `Strip` is `str.strip()`.
  - `Split(s, sep)` is `str.split(sep)`: a left-to-right scan that cuts at
    each non-overlapping occurrence of `sep`.
- `Incidents` (incidents.dfy): the record type, the per-line tokenizer, and
  `ExtractIncidents`, whose nested loops are proved against the function
  `Extracted`.
- `Aggregate` (aggregate.dfy): the collation order `Before`, and the per-nature
  aggregate `NatureCounts`, built by sorted insertion (`Bump`). SQLite's
  default BINARY collation compares UTF-8 bytes, which orders strings by code
  point. So `Before` is lexicographic order on code points, with a proper
  prefix first.
- `Store` (store.dfy): the `IncidentTable` class, whose `rows` field
  `Populate` updates in a loop. Its specification functions are `InsertAll`
  (statement by statement) and `Admitted` (first occurrences, stated
  independently).
- `Command` (command.dfy): decimal printing of counts, the printed lines, and
  `Run`, which is `main`.
- `Scenarios` (scenarios.dfy): a concrete aggregate on six records.

The tokenizing rule is the code's, not a looser description of it:

- A piece boundary is exactly the two-character string `"  "`.
- Three spaces still separate, because the leftover space is stripped.
- A tab never separates, and neither does a space next to a tab.

## Model

| member | source | states |
|---|---|---|
| PyStr.IsWs | app.py:34-37 | no contract; true exactly for the characters `str.isspace` accepts, the set listed above; what `strip` does with it is stated by `StripSpec` |
| PyStr.IsWsIsMembership | app.py:34-37 | a character is whitespace for `strip` exactly when it is in the table of `str.isspace` characters |
| PyStr.TrimStart | app.py:37 | no contract; the leading half of `str.strip()`, characterised by `TrimStartSpec` |
| PyStr.TrimEnd | app.py:37 | no contract; the trailing half of `str.strip()`, characterised by `TrimEndSpec` |
| PyStr.Strip | app.py:34-37 | no contract; `str.strip()` as `TrimEnd` after `TrimStart`, characterised by `StripSpec` |
| PyStr.SpaceIsWs | app.py:36-37 | the space that makes up the separator is whitespace for `strip` |
| PyStr.TrimStartSpec | app.py:37 | the left-stripped string is a suffix of the input, everything removed is whitespace, and it does not start with whitespace |
| PyStr.TrimEndSpec | app.py:37 | the right-stripped string is a prefix of the input, everything removed is whitespace, and it does not end with whitespace |
| PyStr.StripSpec | app.py:34-37 | `strip` returns a contiguous slice of the input with only whitespace around it, and the slice neither starts nor ends with whitespace |
| PyStr.StripEmptyIffBlank | app.py:34 | `not line.strip()` holds exactly when every character of the line is whitespace (or the line is empty) |
| PyStr.StripOfStripped | app.py:37 | stripping a string that has no outer whitespace changes nothing |
| PyStr.StripKeepsNoOccurrence | app.py:37 | stripping cannot create an occurrence of the separator |
| PyStr.Split | app.py:32-36 | `str.split(sep)` returns one more piece than there are non-overlapping occurrences of `sep`, and the first piece is a prefix of the input |
| PyStr.JoinOfSplit | app.py:32-36 | joining the pieces with the separator gives back the input |
| PyStr.SplitPiecesAvoidSep | app.py:36 | no piece contains the separator |
| PyStr.SplitWithoutSep | app.py:36 | a string without the separator splits into itself alone |
| PyStr.SplitAfterPiece | app.py:36 | a piece followed by the separator is cut off as the first piece whenever no occurrence starts inside it |
| PyStr.SplitOfJoin | app.py:36 | splitting the separator-join of pieces that do not produce extra occurrences gives back the pieces |
| PyStr.SplitOfBlank | app.py:34-37 | the pieces of an all-whitespace string are all whitespace |
| Incidents.StripNonEmpty | app.py:37 | the comprehension keeps at most as many pieces as it is given, each non-empty and with no outer whitespace, and none of them containing the separator when no input piece does |
| Incidents.Tokens | app.py:36-37 | a line yields at most one more token than it has `"  "` occurrences, and every token is non-empty, stripped and free of `"  "` |
| Incidents.ParseLine | app.py:36-46 | a record comes out exactly when there are five tokens; the record is well formed and its fields are the tokens in order (date/time, number, location, nature, agency) |
| Incidents.FieldsOfFive | app.py:39-46 | positional assignment of five tokens to the record's fields gives back the five tokens |
| Incidents.LineIncidents | app.py:34-47 | one line contributes at most one record |
| Incidents.LineIncidentsIsParse | app.py:34-38 | skipping blank lines first changes nothing: a line contributes the parsed record if there is one, and nothing otherwise |
| Incidents.BlankLineNoTokens | app.py:34-37 | a whitespace-only line has no tokens |
| Incidents.FewSeparatorsNoRecord | app.py:36-38 | a line with fewer than four `"  "` occurrences never yields a record, and no error |
| Incidents.ParseOfJoinedFields | app.py:36-46 | five non-empty stripped fields without `"  "`, joined by `"  "`, parse back to exactly that record |
| Incidents.LinesIncidentsStep | app.py:33-47 | the records of the first k+1 lines are those of the first k lines, then those of line k |
| Incidents.LinesIncidents | app.py:33-47 | no contract; the records of a page's lines in line order, stated step by step by `LinesIncidentsStep` |
| Incidents.PageIncidents | app.py:30-47 | no contract; a page with empty text gives nothing (`if text:`), any other page the records of its `"\n"`-split lines |
| Incidents.Extracted | app.py:29-47 | no contract; the records of the pages in page order, the specification `ExtractIncidents` is proved against |
| Incidents.ExtractIncidents | app.py:25-48 | the nested page and line loops append exactly the records of `Extracted(pages)`: page order first, then line order; a page with empty text is skipped |
| Incidents.ExtractedConcat | app.py:29-47 | the records of two runs of pages are those of the first run followed by those of the second |
| Incidents.ExtractedWellFormed | app.py:36-47 | every extracted record has five non-empty fields with no outer whitespace and no `"  "` |
| Incidents.StripNonEmptyOfClean | app.py:37 | the comprehension keeps non-empty stripped pieces unchanged |
| Incidents.StripNonEmptyOfBlank | app.py:37 | the comprehension drops all-whitespace pieces |
| Incidents.BlankLinesNoRecords | app.py:33-35 | blank lines contribute no records |
| Incidents.BlankPageNoRecords | app.py:31-35 | a page of whitespace contributes no records |
| Aggregate.Before | app.py:77-78 | no contract; the BINARY collation of `ORDER BY nature ASC`: code-point order with a proper prefix first; its order laws are the three lemmas below |
| Aggregate.CountNature | app.py:77 | `COUNT(*)` of a nature's group is at most the number of rows, and 0 exactly when no row has that nature |
| Aggregate.Bump | app.py:76-78 | no contract; counts one more row into the ordered table; its effect is stated by the five `Bump` lemmas |
| Aggregate.BeforeIrreflexive | app.py:77 | no nature sorts before itself under the BINARY collation |
| Aggregate.BeforeTransitive | app.py:77 | the collation order is transitive |
| Aggregate.BeforeTotal | app.py:77 | any two different natures are ordered one way or the other |
| Aggregate.BumpLookup | app.py:76-78 | counting one more row of nature m adds one to m's count and changes no other count |
| Aggregate.BumpListed | app.py:76-78 | counting a row of nature m lists m in addition to the natures listed before |
| Aggregate.BumpTotal | app.py:76-78 | counting a row adds one to the sum of the counts |
| Aggregate.BumpPositive | app.py:76-78 | counting a row keeps every count at least one |
| Aggregate.BumpAscending | app.py:77-78 | counting a row keeps the natures strictly ascending |
| Aggregate.NatureCounts | app.py:75-80 | the aggregate is strictly ascending by nature, every count is at least one, it lists exactly the natures the rows have, each with the number of rows that have it, and the counts sum to the number of rows |
| Aggregate.LookupAt | app.py:77-79 | in an ascending aggregate, the count at a position is the count of that position's nature |
| Aggregate.NatureCountsSpec | app.py:75-80 | entry by entry: each count is the number of rows with that nature and at least one, each listed nature is some row's, each row's nature is listed, and the result is `[]` exactly when the table is empty |
| Aggregate.AggregateUnique | app.py:77-78 | two ascending tables with positive counts that agree on every nature's count are equal, so the result is the one the query specifies, whatever order the rows are counted in |
| Store.InsertOrIgnore | app.py:68-72 | one `INSERT OR IGNORE` keeps the stored rows as a prefix and adds at most one row |
| Store.InsertAll | app.py:65-73 | `populatedb` as a sequence of statements keeps the rows stored before it as a prefix and adds at most one row per record; which rows, is `InsertAllFirstWins` |
| Store.Admitted | app.py:65-73 | the first occurrences of a batch, at most one per record and each taken from the batch; the independent definition `InsertAllFirstWins` equates with `InsertAll` |
| Store.AdmittedNumbers | app.py:65-73 | the records admitted from a batch add exactly the batch's numbers to the stored ones |
| Store.InsertAllFirstWins | app.py:55-73 | after `INSERT OR IGNORE` of a batch, the old rows are unchanged and followed, in batch order, by exactly the records whose number is neither stored nor earlier in the batch |
| Store.InsertAllNumbers | app.py:65-73 | the numbers stored afterwards are the old ones and the batch's |
| Store.InsertAllUnique | app.py:55-73 | inserting a batch keeps incident numbers unique |
| Store.InsertAllConcat | app.py:65-73 | two batches inserted one after the other store what their concatenation stores |
| Store.InsertAllPresent | app.py:65-73 | a batch whose numbers are all stored changes nothing |
| Store.InsertAllIdempotent | app.py:65-73 | populating twice with the same batch stores what populating once does |
| Store.UniqueCard | app.py:57 | with unique numbers there are as many distinct numbers as rows |
| Store.IncidentTable.Connect | app.py:52 | connecting exposes the rows the database file already holds |
| Store.IncidentTable.Reset | app.py:50-63 | `createdb` leaves the table empty, with the unique-number constraint holding, whatever it held |
| Store.IncidentTable.Populate | app.py:65-73 | the insert loop leaves the rows `InsertAll(old rows, batch)` and keeps numbers unique |
| Store.IncidentTable.Status | app.py:75-80 | the aggregate is ascending with positive counts, lists exactly the stored natures, gives each nature the number of stored rows with it, is `[]` exactly when the table is empty, and its counts sum to the number of distinct stored incident numbers |
| Command.NatToString | main.py:75 | no contract; `str(count)`, characterised by `NatToStringSpec` and `NatToStringOfDecimal` |
| Command.StatusLine | main.py:75 | no contract; the f-string of main.py:75: the nature, a vertical bar, then the count; read back by `StatusLineReadBack` |
| Command.Lines | main.py:74-75 | no contract; one printed line per aggregate entry, in order |
| Command.Report | main.py:69-75 | no contract; the lines printed for a table's rows, stated by `ReportSpec` |
| Command.AllRecords | main.py:79-81 | no contract; all records extracted from the documents, in order |
| Command.StoredAfter | main.py:78-82 | no contract; the rows stored after populating each document in turn into an empty table, stated by `StoredAfterIsOneBatch` and `RunFirstWins` |
| Command.NatToStringSpec | main.py:75 | a printed count is canonical decimal digits (no leading zero) that denote the count |
| Command.NatToStringOfDecimal | main.py:75 | reading a canonical digit string and printing the number gives the string back |
| Command.StatusLineReadBack | main.py:75 | a printed line is the nature, a `|`, then the canonical count, with no `|` after the nature, so nature and count can be read back |
| Command.ReportSpec | main.py:69-75 | the printed lines are `nature + "|" + str(count)` with count the number of rows of that nature, one per distinct nature in ascending order, and there are none exactly when the table is empty |
| Command.PrintStatus | main.py:69-75 | the print loop emits exactly the report of the table's rows |
| Command.Run | main.py:77-84 | `main` prints the report of the rows stored by inserting each document's records in turn into a reset table, whatever the file held before |
| Command.StoredAfterIsOneBatch | main.py:78-82 | populating document after document stores what one batch of all their records stores in an empty table |
| Command.RunFirstWins | main.py:77-84 | across documents, the first record seen with each number is the one stored, in first-seen order, and no number is stored twice |
| Command.RunTotal | main.py:77-84 | the printed counts sum to the number of distinct incident numbers among all the records extracted in the run |
| Command.RunRepeatedDocument | main.py:79-82 | naming the same document twice in a row prints what naming it once prints |
| Scenarios.SampleCounts | app.py:76-78 | on the six-record sample, each nature's row count is its expected count |
| Scenarios.ExpectedAscending | app.py:77 | ALARM, BURGLARY, TRAFFIC STOP is ascending under the collation |
| Scenarios.NaturesInOrder | app.py:75-80 | three traffic stops, one burglary and two alarms aggregate to ALARM 2, BURGLARY 1, TRAFFIC STOP 3, in that order |

## Left out

- `fetchincidents` (app.py:15-23, main.py:9-17) is HTTPS network I/O. The model takes the documents' page texts as input instead.
- `PdfReader` and `page.extract_text(extraction_mode="layout")` (app.py:26-30, main.py:20-24) belong to a third-party PDF library. Each document is the list of texts that library produces, one per page. An empty text is skipped, as `if text:` does.
- SQLite mechanics are not modelled: the file name chosen from `test_id`, the cursor, `commit` and `close`. The table is a sequence of rows in insertion order. SQL gives a table no row order, but nothing observable depends on that order: only the ordered aggregate leaves the table.
- Store.IncidentTable.Connect: the rows already in the database file are a parameter. What a real file holds is outside the model, and `createdb` discards it anyway.
- Exceptions from fetching or PDF parsing, which abort a whole batch, are foreign-call failure paths and are not modelled.
- The Flask routes, form and file handling, redirect and 404 response (app.py:167-204) are presentation and I/O.
- The bar chart, KMeans clustering and pie chart (app.py:82-165) are plotting and floating-point numerics.
- argparse wiring (main.py:86-92) is not modelled. `Run` receives the documents directly.
- Strings are sequences of Unicode scalar values. Python strings may also hold lone surrogates, which the model cannot represent.
- For scalar values, byte-wise UTF-8 order and code-point order agree, so `Before` is exact for every string the model can represent.
- Printing is modelled as the returned list of lines, not as writes to standard output.
- `status` in app.py returns `results or []`. `fetchall` already returns `[]` for an empty result, so the model's aggregate is `[]` exactly when the table is empty.
- The message a web user sees when no incidents are found belongs to the Flask layer and is not modelled.
