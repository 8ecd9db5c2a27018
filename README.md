# Temperature records: closest-to-zero pipeline

This project models the temperature-record service and its two seeding
scripts in Dafny:

- **app.js**:
  - the closest-to-zero selector with its argument check;
  - the series validator;
  - the decision logic of the create, read, update, delete and summary
    handlers, over a table of records.
- **scripts/populate.js**:
  - its own copy of the selector;
  - the rewrite of the `currentData` literal in the script's own text
    (`updatePopulateFile`);
  - the reset of the table from that literal (`populateWithCurrentData`).
- **scripts/sync-populate.js**:
  - its own copy of the selector;
  - the built-in sample data;
  - the reset of the table to that data (`resetToInitial`).

Modules:

- `Selector` holds the loop the three copies share (`Scan`). It is proved
  against a reference definition, `ClosestToZero`, a right fold that does
  not depend on the scan order. The selected value is the sample of
  smallest absolute value, and the largest sample among those that tie.
- `JsText` models the JavaScript string built-ins the core relies on:
  - `trim`, with the ECMAScript whitespace set;
  - `indexOf`, with its clamped start;
  - `substring`, `split("\n")` and `join("\n")`.
- `App`:
  - JSON request fields become tagged values: `Arg` (missing, not an
    array, or an array), `NameArg` (absent, null, or a string) and
    `Sample` (a number, NaN, or another type).
  - The SQLite table becomes the class `Store`. Its map `records` goes from
    id to row, `nextId` plays AUTOINCREMENT (ids are never reused, even
    after `DELETE FROM`), and `clock` is a logical `CURRENT_TIMESTAMP` that
    advances on every write.
  - Each handler is a method on `Store`. Create and Update are proved
    against a function that states their answer, `CreateOutcome` and
    `UpdateOutcome`; Get, Delete and Summary state their answer in their
    own contracts.
  - The PUT handler builds its `updateFields` list by pushes
    (`BuildUpdate`) and applies it in a single write.
- `Populate` and `SyncPopulate` hold the script logic.

## Model

| member | source | states |
|---|---|---|
| Selector.Scan | app.js:75-88 | The single pass returns a sample of the series with no sample closer to zero, and the larger one on a tie of absolute values. It equals the order-independent reference value. |
| Selector.ClosestToZero | app.js:70-89 | The reference value is a sample of the series, none is closer to zero, and among equally close samples it is the largest. |
| Selector.ClosestToZeroUnique | app.js:78-86 | At most one value meets that description, so the selection is fully determined by the samples. |
| Selector.ClosestToZeroPermutation | app.js:78-86 | Any reordering of the series (same multiset) selects the same value. |
| Selector.NegativeOnlyWithoutMirror | app.js:83-85 | A negative result is only possible when its positive mirror is absent (3 beats -3). |
| Selector.ZeroWins | app.js:80-82 | A zero sample is always the one selected. |
| Selector.TestedMixedSigns | test/utils.test.js:6-15 | The selector's unit-test cases with samples of both signs give -1, -2, 0.5, 3 and 1. |
| Selector.TestedEdgeCases | test/utils.test.js:17-26 | One-sample series give their sample; `[0,1,-1]` gives 0; `[0.1,-0.1]` and `[-0.1,0.1]` both give 0.1. |
| App.FindClosestToZero | app.js:70-89 | A non-array or empty argument fails with "Invalid temperature series". Any other argument gives the closest-to-zero sample. |
| App.FirstInvalidIndex | app.js:96-103 | Gives no index exactly when every element is a number. Otherwise it gives the lowest index holding NaN or a non-number. |
| App.ValidateTemperatureSeries | app.js:91-106 | Passes exactly the non-empty arrays of numbers. Anything else is refused as not a non-empty array, or with the lowest offending index; the early-exit loop agrees with `Validation`. |
| App.ValidationMeaning | app.js:91-106 | The validator's decision as an if-and-only-if, plus which error it gives for each kind of input. |
| App.FirstInvalidUnique | app.js:96-103 | The lowest offending index is unique, so the loop's early exit reports the same index as the specification. |
| App.ApplyPush | app.js:254-294 | Pushing one more `SET` field onto the list applies it after all the earlier ones. |
| App.CreateOutcomeMeaning | app.js:179-206 | POST checks in this order: a missing or blank name, then a missing, non-array or empty series, then the first invalid element. On success the row holds the trimmed, non-blank name, the numbers in order and their closest-to-zero value, with all timestamps now. |
| App.UpdateOutcomeMeaning | app.js:254-295 | PUT refuses a null or blank name, then a non-array or empty series, then an invalid element, then a request with no fields. On success only the supplied fields change, and a new series always brings its own closest-to-zero value. `updatedAt` becomes now; id, `recordedAt` and `createdAt` stay. |
| App.BuildUpdate | app.js:254-294 | The checks and the pushes onto `updateFields`, applied in one write, answer exactly `UpdateOutcome`. |
| App.UpdateKeepsRow | app.js:290-295 | A successful update leaves a consistent row whose derived value matches its series. It keeps id and creation times and stamps `updatedAt` now. |
| App.LoadedPush | scripts/populate.js:386-391 | Inserting the next entry under the next id extends the loaded prefix of the table by that entry. |
| App.DistinctNamesBounded | app.js:365-377 | There are never more distinct names than rows, and there are none exactly when there are no rows. |
| App.WriteKeepsValid | app.js:293-296 | Rewriting one existing row with a consistent record keeps the table invariant. |
| App.Store.constructor | app.js:27-39 | The table starts empty, with the first id 1. |
| App.Store.Insert | app.js:204-207 | The insert takes the next id and stamps all three timestamps with the advanced clock. No existing row changes. |
| App.Store.Clear | scripts/populate.js:374 | `DELETE FROM` empties the table without resetting the id counter. |
| App.Store.Get | app.js:142-177 | An unknown id gives not-found. A known id gives its row, which is consistent. |
| App.Store.Create | app.js:179-235 | The answer is `CreateOutcome` at the next id and the next tick. A failure leaves the table, id counter and clock untouched; a success adds exactly the new row under a fresh id. |
| App.Store.Update | app.js:237-324 | An unknown id fails with not-found before any field is checked. Otherwise the answer is `UpdateOutcome` of the stored row. A failure changes nothing; a success rewrites only that row. |
| App.Store.Delete | app.js:326-361 | An unknown id fails with not-found. Otherwise the answer is the row as it was, the id is gone and nothing else changes. |
| App.Store.Summary | app.js:363-386 | `totalRecords` is the number of rows and `uniquePeopleCount` the number of distinct names. The second never exceeds the first, and both are 0 together. |
| App.TestedValidations | test/utils.test.js:35-55 | The validator's unit-test cases pass or fail as the tests expect. |
| App.CreateStored | app.js:183-206 | A request with a name that is not blank and a valid series is stored with the trimmed name, the numbers in order and their closest-to-zero value, under the given id with every timestamp now. |
| App.TestedCreateStored | test/api.test.js:31-48 | "Test User" with `[36.8, 37.1, 36.9]` is stored as given under the next id, with 36.8 as its value and every timestamp now. |
| App.TestedCreateEmptyName | test/api.test.js:50-62 | An empty name with an empty series is refused with "Person name is required". |
| App.TestedCreateMissingName | test/api.test.js:64-76 | A request without a name is refused with "Person name is required". |
| App.UpdateSeriesOnly | app.js:268-295 | An update that supplies only a valid series replaces the series and its closest-to-zero value, stamps `updatedAt` now and keeps every other field, the name included. |
| App.TestedUpdateSeries | app.js:268-288 | A series-only update with `[10, -2, 2]` stores 2 and keeps the name. |
| App.TestedUpdateNothing | app.js:283-288 | An update supplying neither field is refused with "No valid fields to update". |
| JsText.TrimIsSlice | app.js:183 | `trim` gives a slice of its input, cut only where there is whitespace, with no whitespace left at either end. |
| JsText.TrimEmptyIffBlank | app.js:183 | A name is blank after trimming exactly when it consists of whitespace only. |
| JsText.TrimIdempotent | app.js:206 | Trimming a trimmed name changes nothing, so a stored name is already trimmed. |
| JsText.IndexOf | scripts/populate.js:219-220 | `indexOf` gives -1 exactly when there is no match from the clamped start on. Otherwise it gives the first match at or after that start. |
| JsText.JoinSplit | scripts/populate.js:213-216 | Joining the lines of a text with line breaks gives the text back. |
| JsText.SplitJoin | scripts/populate.js:213-216 | Splitting lines that hold no line break, once joined, gives the lines back. |
| Populate.FindClosestToZero | scripts/populate.js:156-175 | An empty series fails with "No temperatures provided". Any other series gives the closest-to-zero sample. |
| Populate.Indent | scripts/populate.js:213-216 | The indented JSON has as many lines as the JSON, each being the JSON line with exactly two spaces in front. |
| Populate.SpliceAsWritten | scripts/populate.js:219-231 | The splice as written writes exactly when the marker is found. It writes the text before the marker, the block ending in `];` and a line break, then the text after the first `];` that follows the marker; when there is none, the file from its second character on. |
| Populate.Splice | scripts/populate.js:219-231 | The intended splice writes exactly when the marker is found and a `];` follows it. |
| Populate.UpdatePopulateFile | scripts/populate.js:197-254 | The script's text is rewritten exactly when the database has rows and the marker `let currentData = [` is found. The new text is the text before the marker, the block as written around the indented JSON, then the text after the first `];` that follows the marker; when there is no such `];`, the text from the file's second character on. |
| Populate.UpdatePopulateFileIntended | scripts/populate.js:197-254 | The intended rewrite writes exactly when the database has rows, the marker is found and a `];` follows it. It replaces only the span from the marker to that `];`. |
| Populate.SpliceKeepsSurroundings | scripts/populate.js:219-231 | When marker and `];` are found, both the splice as written and the intended one keep the text before the first marker and after the first `];` that follows it. Only the span between is replaced. |
| Populate.MissingCloseAsWritten | scripts/populate.js:219-224 | As written, a marker with no `];` after it still passes the guard. The text after the new block is then the whole file minus its first character, while the intended splice writes nothing. |
| Populate.MissingCloseCounterexample | scripts/populate.js:220-222 | The concrete file consisting of the marker alone shows this. |
| Populate.SpliceIdempotent | scripts/populate.js:219-231 | When the JSON holds no `];`, running the intended splice again with the same data leaves the text unchanged. |
| Populate.RerunsAddBlankLines | scripts/populate.js:219-231 | When the JSON holds no `];`, after `n + 1` runs of the splice as written with the same data, every run writes, and the text is the text before the marker, the new block, `n` extra line breaks, then the text after the original array. The second run's text is the first one's with one line break added. |
| Populate.RerunAddsBlankLine | scripts/populate.js:226-231 | When the JSON holds no `];`, every rerun of the splice as written with the same data writes again, and its text is the previous text with one line break inserted right after the block's `];` and its line break. |
| Populate.IndentKeepsOpeningBracket | scripts/populate.js:213-216 | Indented JSON of an array starts with two spaces and `[`. |
| Populate.RewrittenDataIsNested | scripts/populate.js:11-13 | After the rewrite the file contains `let currentData = [`, a line break, two spaces and `[`: the array holds an array. |
| Populate.PopulateWithCurrentData | scripts/populate.js:369-418 | The table is emptied. If no series is empty, each entry is then inserted in order under consecutive ids with the closest-to-zero value of its own series. If one is, the run fails at the first empty series and the table stays emptied. |
| SyncPopulate.FindClosestToZero | scripts/sync-populate.js:53-72 | An empty series fails. Any other gives the closest-to-zero sample, and a one-sample series gives that sample. |
| SyncPopulate.ResetToInitial | scripts/sync-populate.js:137-188 | The table is emptied and then holds exactly the five samples, under consecutive ids, each with the closest-to-zero value of its own series. |
| SyncPopulate.InsertAll | scripts/sync-populate.js:154-173 | Inserting non-empty entries one by one loads exactly those entries in order. |
| SyncPopulate.SamplesNonEmpty | scripts/sync-populate.js:20-51 | No sample series is empty, so the reset never throws. |
| SyncPopulate.InitialSampleClosest | scripts/sync-populate.js:20-51 | The stored values are -1.7 (John Doe), -1.8 (Jane Smith), 2 (Mike Johnson), -0.5 (Sarah Wilson) and 1 (David Brown). |

## Left out

- HTTP plumbing: routing, status codes, CORS, JSON bodies and `app.listen` (app.js, server.js). Each handler's answer is a `Result` with one error per message.
- The SQL text and the sqlite3 driver (app.js:24-67, database/setup.js). The table is a map; AUTOINCREMENT and `CURRENT_TIMESTAMP` are a counter and a logical clock.
- The clock advances by one on every write, whereas `CURRENT_TIMESTAMP` has one-second resolution, so two writes in the same second get equal stamps there.
- `JSON.stringify` and `JSON.parse` of the series. The series is stored as parsed values, and the JSON text of `updatePopulateFile` is a parameter of `UpdatePopulateFile`.
- GET of all records ordered by `createdAt DESC` (app.js:113-140) and `/health`: they only read and format.
- File, process and console effects: `fs`, backups, export files, `process.exit`, logging. So are the script entry points and `importFromExport`, `exportCurrentData`, `showCurrentData`, `syncCurrentState` and `getCurrentData`, which read or write files or only print.
- The asynchronous callbacks of `stmt.run`: each insert is modelled as completing in order. An insert error is only logged by the scripts and is not modelled.
- App.FindClosestToZero: samples are reals. Infinity, signed zero and JavaScript's coercion of non-number elements inside `Math.abs` are not modelled; the handlers only call it after validation.
- App.Store.Create: a `personName` that is truthy but not a string makes `.trim()` throw a TypeError (app.js:183), which the catch at app.js:228-234 turns into "Error creating temperature record". `NameArg` has no such case.
- App.Store.Update: the same TypeError arises from `personName.trim()` at app.js:258 and ends in "Error updating temperature record" (app.js:317-320). `NameArg` has no such case.
- The `currentData` literal at scripts/populate.js:11-133 is an array nested inside an array, so its entries have no `temperatureSeries`. `Populate.PopulateWithCurrentData` takes well-formed entries; `Populate.RewrittenDataIsNested` shows how the nesting arises.
- The Mongoose variant (routes/temperatureRoutes.js, models/Temperature.js) and the viewer scripts (scripts/view-db.js, scripts/check-db.js).
- Strings are sequences of Unicode code points, whereas JavaScript strings are sequences of UTF-16 code units. A character outside the Basic Multilingual Plane counts as one position here and two in JavaScript, and a lone surrogate cannot occur. `trim`, `indexOf` and the splice only compare whole characters, so the texts they produce are the same.
- Populate.PopulateWithCurrentData: on an empty series the model runs none of the inserts queued before it. In the source the throw escapes the `DELETE` callback with those inserts queued on the statement, and nothing in the script makes them complete.
- Duplicate samples: the strict `>` of the tie-break keeps the first of two equal samples. With values as reals the two are the same value, so this is not observable here.

## Findings

| source | as written | input that shows it | evidently intended | confidence | as-written member | corrected member |
|---|---|---|---|---|---|---|
| scripts/populate.js:220-222 | `dataEnd` is `indexOf("];", dataStart) + 2`, so the `dataEnd !== -1` guard never fails; with no `];` after the marker, `dataEnd` is 1 | a file whose text is just `let currentData = [`: the new block is written followed by `et currentData = [` | nothing is written when no `];` follows the marker | high (not executed) | Populate.MissingCloseCounterexample | Populate.Splice |
| scripts/populate.js:226-231 | the new block ends in `"\n];\n"` while the kept text after the old `];` still starts with its own line break | any file the splice succeeds on, rewritten again and again with the same data whose JSON holds no `];`, gains one more line break right after the array on every run (the run of blank lines at scripts/populate.js:134-155 fits this) | rewriting with unchanged data leaves the file unchanged | medium (not executed) | Populate.RerunAddsBlankLine | Populate.SpliceIdempotent |
