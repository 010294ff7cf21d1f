# Faculty daily reports: the dual-store table and the request logic

The system is a small web application where faculty members submit one
daily activity report (uid, name, team, report date, a list of activities
with counts). Every report is written to two stores that hold the same
`reports` table:

- a primary PostgreSQL store, written on a best-effort basis;
- a local SQLite cache, which answers every read.

At startup the cache is refreshed from the primary store and old ISO
timestamps are rewritten in Indian Standard Time. An administrator can
log in, filter the reports, edit one, and export them to a spreadsheet.
The spreadsheet gets one row per activity.

This Dafny project models two parts of that system:

- the `DatabaseManager` of `dbManager.js`, as a class over two tables;
- the request-side logic of `index.js`: validation, activity
  normalisation, the admin filter builder, the sheet row expansion, the
  team-id sanitiser and the login check.

Layout:

| file | module | what it holds |
|---|---|---|
| `wrappers.dfy` | `Wrappers` | `Option` and `Result` |
| `js_text.dfy` | `JsText` | `trim`, `\s`, ASCII `toLowerCase`, SQLite's BINARY text order |
| `report_table.dfy` | `ReportTable` | the `reports` table as a value. The UNIQUE(uid, report_date) invariant is `Table.Valid`. Each SQL statement the store issues is a function: INSERT, INSERT OR REPLACE, the UPDATEs, the upsert, the id scan and the default ORDER BY. |
| `store.dfy` | `Store` | `class DatabaseManager` with fields `cache` (SQLite) and `primary` (PostgreSQL). It also holds the functions that specify the update fallback, the sync and the migration, and the lemmas about them. |
| `requests.dfy` | `Requests` | the pure parts of `index.js`, plus the filter builder as a method |
| `export.dfy` | `Export` | `class Workbook`, the `Reports` sheet as a sequence of rows |
| `routes.dfy` | `Routes` | `POST /submit`, `GET` and `POST /admin/edit/:id`, and the dashboard list, each as one method over the store and the sheet |

Whether the primary store answers is the parameter `primaryUp`. During
migration, the set `primaryDown` names the cache ids whose primary UPDATE
fails. A primary failure is always swallowed. A cache failure is a
`Failure(UniqueViolation)` or `Failure(ReportNotFound)` returned to the
caller. The IST date conversion is the parameter `toIst`, and the request
time is the parameter `now`.

Two places where the code is followed rather than its comments:

- The startup sync uses `INSERT OR REPLACE` without an id. A clash on
  (uid, report_date) therefore deletes the old cache row, and the copy
  gets a new id (`InsertOrReplace`, `SyncFacts`).
- The migration rewrites a timestamp that contains 'T' **or** 'Z'. The
  comment at that line says "and".

## Model

| member | source | states |
|---|---|---|
| JsText.TrimStart | index.js:213 | The result is a suffix of the input. It does not start with white space, and what was removed is all white space. |
| JsText.TrimEnd | index.js:213 | The result is a prefix of the input. It does not end with white space, and what was removed is all white space. |
| JsText.Trim | index.js:213 | `trim()`: `TrimEnd` of `TrimStart`, so both ends lose their white space (the two contracts above). |
| JsText.TrimEmptyIffBlank | index.js:213 | `s.trim()` is empty exactly when every character of `s` is white space (both directions). |
| JsText.AsciiLower | index.js:275 | Lower-casing keeps the length and lowers each character. No upper-case ASCII letter is left. |
| JsText.AsciiLowerIdempotent | index.js:275 | Lower-casing twice is lower-casing once. |
| JsText.LexLeq | dbManager.js:325 | The BINARY collation as a code-point lexicographic order; the three lemmas below make it a total order. |
| JsText.LexLeqTotal | dbManager.js:325 | Any two TEXT values are comparable under the BINARY collation. |
| JsText.LexLeqAntisymmetric | dbManager.js:325 | Two values that each sort no later than the other are equal. |
| JsText.LexLeqTransitive | dbManager.js:325 | The text order is transitive. |
| ReportTable.FindKey | dbManager.js:351-364 | The lookup by (uid, report_date) finds a row exactly when some row has that pair. On a valid table the row it finds is the only one with the pair. |
| ReportTable.OnlyRowWithPair | dbManager.js:46-55 | Under UNIQUE(uid, report_date), a row is the only one holding its pair. |
| ReportTable.Insert | dbManager.js:186-208 | INSERT fails with a unique violation exactly when the pair is taken, and then changes nothing. On success, the new row is stored under the counter's value and every old row is kept. The table stays valid. |
| ReportTable.InsertOrReplace | dbManager.js:137-160 | INSERT OR REPLACE drops the row holding the pair and stores the new one under a fresh id, which then is the only row with the pair. Every row with another pair is kept, and validity is preserved. |
| ReportTable.Update | dbManager.js:243-250 | On success, the affected-row count is the number of selected existing rows and validity is preserved. The only error is a unique violation. |
| ReportTable.UpdateOutcome | dbManager.js:289-312 | An UPDATE that sets every selected row to one pair succeeds exactly when it selects no row, or one row and no other row holds the new pair. |
| ReportTable.UpdateNone | dbManager.js:243-250 | An UPDATE that selects no row succeeds with count 0 and changes nothing. |
| ReportTable.UpdateOne | dbManager.js:289-312 | An UPDATE that selects exactly row `k` succeeds exactly when no other row holds the new pair. It then rewrites the five columns of `k`. Every other row, the id, `submitted_at` and the counter are unchanged, and the count is 1. |
| ReportTable.UpdateMany | dbManager.js:256-262 | An UPDATE that selects two rows or more breaks UNIQUE(uid, report_date). |
| ReportTable.SetSubmittedAt | dbManager.js:437-459 | `UPDATE ... SET submitted_at` changes that column in the selected rows only. It keeps the ids and validity. |
| ReportTable.Upsert | dbManager.js:268-277 | With the pair free, the table gains exactly the given row, `submitted_at` included, under the counter's value. Otherwise the ids and the counter are kept, and the holder of the pair takes only the new name, team and activities. On a valid table, every row without the pair is unchanged and validity is kept. |
| ReportTable.UpsertHoldsRow | dbManager.js:268-277 | After the upsert some row holds the pair with the new name, team and activities. A row that already held the pair keeps its `submitted_at`. |
| ReportTable.ScanFromRows | dbManager.js:101 | Every row the id scan lists over a range is a row of the table in that range, exactly as stored. |
| ReportTable.ScanFromIncreasing | dbManager.js:101 | The id scan lists ids in strictly increasing order. |
| ReportTable.ScanFromComplete | dbManager.js:101 | The id scan lists every row of the table whose id lies in the range. |
| ReportTable.ScanFacts | dbManager.js:101 | `SELECT * FROM reports ORDER BY id` lists exactly the table's rows, as stored, in strictly increasing id order. |
| ReportTable.Scan | dbManager.js:101 | `SELECT * FROM reports ORDER BY id` over the whole table; `ScanFacts` states what it lists. |
| ReportTable.ScanKeysDistinct | dbManager.js:73-83 | The rows the primary store lists in id order have pairwise different (uid, report_date). |
| ReportTable.PrecedesTotal | dbManager.js:325 | `ORDER BY report_date DESC, submitted_at DESC` relates any two rows. |
| ReportTable.PrecedesTransitive | dbManager.js:325 | The ORDER BY relation is transitive. |
| ReportTable.InsertOrderedCounts | dbManager.js:325 | Inserting into a sorted list adds exactly that row. |
| ReportTable.InsertOrderedOrdered | dbManager.js:325 | Inserting into a sorted list keeps it sorted. |
| ReportTable.HeadPrecedesInserted | dbManager.js:325 | The first row of a sorted list precedes every row of the rest with a later row inserted. |
| ReportTable.SortRowsCorrect | dbManager.js:325 | The sort orders the rows and is a permutation of its input. |
| ReportTable.SortRows | dbManager.js:325 | The engine's sort under `ORDER BY report_date DESC, submitted_at DESC`; `SortRowsCorrect` states its result. |
| ReportTable.AllReports | dbManager.js:322-335 | The default listing: the id scan, sorted; `AllReportsCorrect`, `AllReportsOnce` and `AllReportsCount` state its result. |
| ReportTable.AllReportsCorrect | dbManager.js:322-335 | The default listing is in the ORDER BY order and holds exactly the table's rows. |
| ReportTable.AllReportsOnce | dbManager.js:322-335 | The default listing holds no id twice. |
| ReportTable.AllReportsCount | dbManager.js:322-335 | The default listing is as long as the table. |
| Store.PrimaryAfterUpdate | dbManager.js:239-286 | The three-step primary fallback: by the old pair, then by the old uid, then upsert with the original `submitted_at`. Any error leaves the primary store as it was, and the result is valid. |
| Store.PrimaryUpdateByKey | dbManager.js:243-252 | Step 1 rewrites the row holding the old pair. If another row holds the new pair, the error is swallowed and the primary store is unchanged. |
| Store.PrimaryUpdateByUid | dbManager.js:254-265 | With no row for the old pair and one row for the old uid, that row is rewritten whatever its date. If another row holds the new pair, the primary store is unchanged. |
| Store.PrimaryUpdateManyUid | dbManager.js:254-265 | With two or more rows for the old uid, step 2 always fails on UNIQUE and the primary store is unchanged. |
| Store.PrimaryUpdateInsert | dbManager.js:267-279 | With no row for the old uid, step 3 upserts the new values with the original `submitted_at`. |
| Store.ConvertIsoToIst | dbManager.js:407-419 | The converted date when the input parses, and the input unchanged when it does not. |
| Store.HasIsoMarker | dbManager.js:432 | The migration's test: `submitted_at` contains 'T' or 'Z'. |
| Store.CacheAfterMigration | dbManager.js:430-450 | The migration keeps every cache id. Rows without 'T' or 'Z' are untouched. In the other rows only `submitted_at` changes, to the converted value. Validity is kept. |
| Store.PrimaryAfterMigration | dbManager.js:451-461 | The migration keeps every primary id and changes at most `submitted_at` of a row. Validity is kept. |
| Store.CacheMigrationStep | dbManager.js:436-449 | Visiting one more row performs that row's UPDATE by id, or nothing if the row has no marker. |
| Store.PrimaryMigrationStep | dbManager.js:451-461 | Visiting one more row performs that row's UPDATE by (uid, report_date) on the primary store, unless that UPDATE fails or the row has no marker. |
| Store.MigrationIdempotent | dbManager.js:430-461 | When the converter's output has neither 'T' nor 'Z', a second migration pass leaves the cache as the first pass made it. With the same primary failures on both passes, it also leaves the primary store unchanged. |
| Store.CacheMigrationIdempotent | dbManager.js:436-449 | With such a converter, a second pass leaves the cache as the first pass made it, whatever the primary store does. |
| Store.PrimaryMigrationIdempotent | dbManager.js:451-461 | With such a converter and the same primary failures on both passes, a second pass leaves the primary store as the first pass made it. |
| Store.SyncRowsEffect | dbManager.js:104-110 | Copying rows with distinct pairs puts the k-th row under the k-th fresh id. An old row survives exactly when no copied row has its pair, and nothing else appears. |
| Store.SyncRows | dbManager.js:104-110 | The cache after INSERT OR REPLACE of each listed row in turn; `SyncRowsEffect` states the result. |
| Store.SyncStep | dbManager.js:104-110 | Copying one more row of distinct pair keeps the cache valid, puts that row under the next fresh id and keeps the earlier copies and the surviving old rows. |
| Store.SyncFromPrimaryFacts | dbManager.js:95-121 | The copy of the id-ordered primary rows into a valid cache is described by the facts above. |
| Store.SyncCopiesPrimary | dbManager.js:104-110 | After a sync the cache holds, for every primary row, exactly one row with its pair. That row is equal to the primary row and sits under a new id. |
| Store.SyncCopyOf | dbManager.js:104-110 | The cache row that copies a given primary row. |
| Store.ScanPosition | dbManager.js:101 | Every primary row appears in the id-ordered scan. |
| Store.SyncKeepsCacheOnlyRows | dbManager.js:140-151 | A cache row whose pair the primary store does not hold survives a sync unchanged. |
| Store.SyncAddsOnlyCopies | dbManager.js:140-151 | After a sync each cache row is either an old row unchanged or a copy of a primary row under a new id. |
| Store.MarkedStep | dbManager.js:463 | `migratedCount` grows by one exactly for a row with a marker. |
| Store.DatabaseManager.constructor | dbManager.js:6-17 | The manager opens the two stores on valid tables. Validity stands for the schemas' UNIQUE(uid, report_date) and the id counter. |
| Store.DatabaseManager.InsertReport | dbManager.js:165-217 | The primary gets the row when it is reachable and the pair is free, and otherwise is unchanged. The cache insert succeeds exactly when the pair is free there, and returns the cache's new id. A cache failure is a unique violation and leaves the cache unchanged. Both stores stay valid. |
| Store.DatabaseManager.InsertToCacheOnly | dbManager.js:137-160 | Only the cache changes, by INSERT OR REPLACE, and the new id is returned. |
| Store.DatabaseManager.SyncFromPrimary | dbManager.js:95-121 | When the primary is reachable, the cache becomes the result of copying the primary rows in id order; an empty primary leaves it as it was. When unreachable, nothing changes. The primary store is never changed. |
| Store.DatabaseManager.UpdateReport | dbManager.js:220-316 | A missing id gives ReportNotFound and changes neither store. Otherwise the primary follows the fallback, and the cache update succeeds exactly when no other row holds the new pair. It then rewrites only the five columns of that row, and otherwise leaves the cache unchanged with a unique violation. |
| Store.DatabaseManager.GetAllReports | dbManager.js:322-335 | The default listing is sorted by report_date, then submitted_at, both descending. It holds every cache row exactly once. |
| Store.DatabaseManager.GetReportById | dbManager.js:338-349 | The row with that id, or nothing when there is none. |
| Store.DatabaseManager.CheckDuplicate | dbManager.js:351-364 | A row is found exactly when a cache row has exactly that uid and report_date, and the found id is such a row. |
| Store.DatabaseManager.MigrateDatesToIst | dbManager.js:422-478 | The two stores become `CacheAfterMigration` and `PrimaryAfterMigration`. The count is the number of cache rows carrying a marker. |
| Store.DatabaseManager.MigrateListed | dbManager.js:430-465 | The loop over a listing of every cache row, each once, leaves the two stores as `CacheAfterMigration` and `PrimaryAfterMigration` and counts the rows carrying a marker. |
| Store.DatabaseManager.InitializeDatabases | dbManager.js:19-38 | When the connection test fails, nothing changes. Otherwise the sync runs and then the migration, on the synced cache. If the sync's SELECT fails, that failure is swallowed and the migration runs on the cache as it was. |
| Requests.ValidateSubmit | index.js:208-215 | "Missing required fields" exactly when a field is missing; "Faculty ID cannot be empty" exactly when all are present and the uid is blank; accepted otherwise. |
| Requests.ValidateEdit | index.js:426-428 | The edit is refused exactly when the uid is missing or blank. |
| Requests.CountFor | index.js:230 | `counts[name] \|\| ''`: the sent count, or "" when none was sent. |
| Requests.Pair | index.js:228-231 | One activity per name, in order, each carrying its count. |
| Requests.NormalizeSubmit | index.js:227-232 | Without a `counts` object the lookup throws, unless the array is empty. Otherwise the result has one pair per name, in order, with `counts[name]` or "". |
| Requests.NormalizeEdit | index.js:431-446 | One pair per name when activities is truthy, and none otherwise. Without `counts` every count is "". |
| Requests.NormalizeEditAgreesWithSubmit | index.js:227-232 | Where submit's normalisation does not throw, edit's gives the same list. |
| Requests.BuildAdminQuery | index.js:306-332 | The statement and the parameters are exactly those of the filter builder. |
| Requests.FilterConditions | index.js:310-324 | The pushed conditions; `FilterLockstep` states their positions. |
| Requests.FilterParams | index.js:310-324 | The pushed parameters; `FilterLockstep` states their positions. |
| Requests.AdminQuery | index.js:306-332 | The statement built from the conditions; `AdminQueryShape` states its shape. |
| Requests.FilterLockstep | index.js:310-324 | There is one condition and one parameter per supplied filter, in the order date, name, uid, each parameter beside its condition. The date filter is first, the name filter right after it, and the uid filter last. A condition appears only when its filter was supplied. The LIKE parameters are wrapped in `%`. |
| Requests.AdminQueryShape | index.js:326-332 | The statement always ends with `ORDER BY report_date DESC, submitted_at DESC`. It has a WHERE clause exactly when some filter was supplied. |
| Requests.FilterRowsCorrect | index.js:335 | Filtering keeps exactly the matching rows, and an ordered input gives an ordered result. |
| Requests.FilterRowsSubMultiset | index.js:335 | Filtering never adds a row or repeats one: the result is a sub-multiset of the input. |
| Requests.FilterRowsDistinctIds | index.js:335 | Rows with pairwise different ids keep that property after filtering. |
| Requests.MatchesFilters | index.js:311-324 | A row passes each supplied filter: the exact date, and the name and uid as substrings. |
| Requests.FilterRows | index.js:335 | The rows the built statement selects, in order; `FilterRowsCorrect` and the two lemmas after it state its result. |
| Requests.AdminReportsCorrect | index.js:306-336 | The dashboard lists exactly the cache rows that match every supplied filter, no id twice, in the default order. |
| Requests.Keep | index.js:403 | The result is no longer than the input, and every character in it passes. |
| Requests.KeepMembers | index.js:403 | A character occurs in the result exactly when it occurs in the input and passes. |
| Requests.KeepConcat | index.js:403 | Filtering a concatenation is filtering each part, so the kept characters stay in order with their repetitions. |
| Requests.KeepOne | index.js:403 | A single character is kept exactly when it passes. |
| Requests.RemoveWhitespace | index.js:403 | `replace(/\s+/g, '')` as `Keep` with the non-white-space test. |
| Requests.KeepAlnum | index.js:403 | `replace(/[^a-zA-Z0-9]/g, '')` as `Keep` with the ASCII alphanumeric test. |
| Requests.TeamId | index.js:403 | A team id contains only ASCII letters and digits, and holds exactly the key's letters and digits. |
| Requests.TeamIdIdempotent | index.js:403 | Sanitising twice is sanitising once. |
| Requests.TeamIdIsKeepAlnum | index.js:403 | The white-space pass is subsumed by the alphanumeric pass. |
| Requests.TeamMapping | index.js:399-405 | The mapping has one entry per team key, the key's team id. |
| Requests.LoginOk | index.js:275 | The login test: the lower-cased username equals the admin username and the password matches exactly; the three lemmas below state its consequences. |
| Requests.LoginIgnoresCase | index.js:275 | Usernames that differ only in letter case log in alike. |
| Requests.UpperCaseAdminNeverMatches | index.js:275 | An admin username containing an upper-case letter never matches. |
| Requests.DefaultLoginExamples | index.js:45-46 | With the default credentials, "ADMIN"/"admin123" logs in and a wrong-case password does not. |
| Export.ActivityRow | index.js:157-167 | Seven cells: the report's uid, name, team and date, the activity's name and count, then submitted_at. |
| Export.ReportRows | index.js:500-513 | One row per activity of a report, in activity order. |
| Export.ReportsOf | index.js:500 | The reports of the listed rows, in order. |
| Export.DataRows | index.js:500-513 | The activity rows of each listed report, one report after another; `DataRowsCount` and `DataRowAt` state their number and positions. |
| Export.Sheet | index.js:478-513 | The header followed by the data rows; `SheetCount` states its size. |
| Export.DataRowsCount | index.js:500-513 | There are as many data rows as activities over all reports. |
| Export.DataRowsConcat | index.js:500-513 | The data rows of two report lists, one after the other. |
| Export.SheetCount | index.js:480 | The sheet has 1 + Σ\|activities\| rows, the first being the seven-title header. |
| Export.DataRowsSnoc | index.js:500-513 | One more report adds its activity rows after the rows already written. |
| Export.DataRowAt | index.js:500-513 | Activity `k` of report `j` sits right after the rows of the earlier reports and earlier activities. |
| Export.AppendAfterGenerate | index.js:120-196 | Appending to a regenerated sheet equals regenerating with the report last. |
| Export.Workbook.constructor | index.js:126 | A new sheet has no rows. |
| Export.Workbook.GenerateFromDatabase | index.js:471-546 | The sheet is the header, then the rows of every cache report in the default order. The listing holds each cache row exactly once. |
| Export.Workbook.WriteSheet | index.js:478-513 | The sheet becomes the header followed by the rows of the given reports, in order. |
| Export.Workbook.AddActivityRows | index.js:157-167 | One row per activity of the report is added after the existing rows. |
| Export.Workbook.Append | index.js:120-196 | The header is written only when the sheet has no rows, then one row per activity after the existing rows. |
| Routes.Submit | index.js:204-262 | A rejection or a duplicate changes nothing and returns its message. A missing `counts` gives a server error and changes nothing. A form that passes every check, with a free pair and `counts`, is always Submitted. Then both stores take the report, the primary only if reachable and free, and the sheet gets its rows. |
| Routes.Edit | index.js:420-469 | A blank uid is refused before any store is touched, and only a blank uid is refused. Otherwise the outcome is Updated exactly when the id exists and its new pair is free. A missing id gives ReportNotFound, and an existing id whose new pair another row holds gives UniqueViolation; either error leaves the cache and the sheet unchanged. The primary follows the fallback. On success the cache row is rewritten and the sheet is regenerated from a listing of every cache row, each once, in the default order. |
| Routes.ShowEditForm | index.js:372-418 | The row with that id, or nothing. The team mapping holds every team key, each mapped to an alphanumeric team id. |
| Routes.AdminReports | index.js:306-336 | The dashboard lists exactly the matching cache rows, each once (no id twice), in the default order. |

## Left out

- Driver I/O is not modelled: `pg.Pool`, `sqlite3`, connection setup, `testPostgreSQLConnection`, `closeConnections`, `clearSQLite`, and the `client.release()` skipped on a primary error. A reachable primary store is the flag `primaryUp`.
- `createSQLiteTables` and `createPostgreSQLTables` are modelled only by the invariant `Table.Valid`. A table already exists before the manager is built.
- Only UNIQUE(uid, report_date) is modelled among SQLite and PostgreSQL errors. NOT NULL failures are not (for example an edit form that omits `name`), and neither are I/O errors.
- The PostgreSQL SERIAL counter is modelled as not moving on a failed INSERT. The real sequence does consume a value. Primary ids are never shown to a user.
- Express routing, sessions, `requireAdmin`, EJS rendering, redirects, `/health`, `/export-to-sheets`, `/export` and the logout route are not modelled. A handler's result is an outcome value.
- ExcelJS cosmetics, the sheet's file I/O and the swallowed `appendToExcel` failure are not modelled. The sheet is a sequence of seven-cell rows held by `Workbook`.
- `JSON.stringify` and `JSON.parse` of activities are not modelled. Activities are a list of name/count pairs, and the edit form's fallback for unparsable JSON cannot arise.
- `getISTDateTime` and `toLocaleString` are not modelled. They are the parameters `now` and `toIst`.
- `toLowerCase` is modelled on ASCII letters only (`JsText.AsciiLower`, used by `Requests.LoginOk`). Non-ASCII case mappings are not modelled.
- SQL `LIKE` is read as a plain substring test (`Requests.MatchesFilters`). `%` and `_` inside a filter value and SQLite's ASCII case folding are not modelled.
- `getAllReports` is modelled only with its default query. The dashboard's caller-built statement is modelled by its meaning: filter, then the default order.
- Rows that tie on both ORDER BY keys are listed in id order (a stable sort of the id scan). SQLite leaves that order unspecified.
- Requests.BuildAdminQuery: the number of `?` placeholders in the statement is not proved equal to the number of parameters. The proof stops at the list of conditions (`Requests.FilterLockstep`).
- Concurrency is not modelled. That covers the check-then-insert race between two submits, and the `generateExcelFromDatabase` call that edit does not await, which is modelled as finishing before the response.
- `Routes.Edit`: a regeneration failure is not modelled, because the sheet is in memory.
- A form field sent as an array where text is expected is not modelled (e.g. a repeated `uid`). Neither is a non-string value in a JSON body: a numeric `uid`, for example, passes the missing-field test and then makes `uid.trim()` throw a TypeError, which submit reports as a server error and edit as a database error, while other non-string values would be stored or compared as JavaScript does. A `counts` value that is not an object is not modelled either. Every form field is a string here.
- `init_db.js`, the loading of `teams.json` and the process signal handlers are not modelled. The team keys are the parameter `teamKeys` of `Routes.ShowEditForm`.
- Store.PrimaryUpdateByUid states what step 2 of the primary fallback does: it can rewrite the uid's report for another day. This follows the code as written.
- Requests.CountFor: `counts[name] || ''` also reads inherited `Object.prototype` properties. An activity named `constructor`, `toString`, `valueOf`, `hasOwnProperty` or `__proto__` gets the inherited value instead of "" or the sent count. The model treats `counts` as a plain map from names to strings.
- Requests.LoginOk: a login request without `username` makes `username.toLowerCase()` throw a TypeError, which Express turns into an error response. The model takes the username as a string that is always present.
