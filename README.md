# db-sync: a Dafny model of the SQL dump engine

db-sync is a WordPress plugin that copies a site's database between environments. It works
through SQL dump files. This project models the logic that builds and reads those dumps:

- **Export** writes a header, then a `DROP TABLE` / `CREATE TABLE` / `INSERT` block per
  requested table.
- **Preset resolution** turns `development`, `content` or `custom` into a table list. Export
  file names are built from a timestamp, the preset's name and the environment.
- **Splitting** is `split_sql`: it strips comments, then makes a single forward scan that
  tracks strings, backslash escapes and parenthesis depth.
- **File names** are parsed back into date, time, preset, environment and backup flag.
- **Import** is `import_sql`: it splits with `explode(';')` and replays the statements in one
  transaction that is rolled back at the first refused statement.
- **Preview** counts `INSERT` statements per table. **Table extraction** collects the distinct
  `CREATE TABLE` names.
- **Pre-import backup** dumps the tables an import would overwrite. It skips problematic
  `options` rows and rows holding markup.
- **Change detection** is the admin page's poll. Each file is fingerprinted as
  `filename|modified|size`, and the fingerprints are compared with the stored ones.

The database is a value (`Database.Db`: tables of rows of nullable string values). The
statement executor `Engine` is a function parameter that accepts or refuses each statement.
`$wpdb` is the class `Database.Connection`, with a saved state for `START TRANSACTION` /
`ROLLBACK`. The plugin's options are the class `Options.OptionStore`.

Several values come from the host and are parameters here:

- the table prefix, the site URL, the `date()` text and the timestamp;
- the file list;
- whether the backup file could be written;
- `$wpdb->_real_escape`.

Modules follow the source:

- Text: PHP string built-ins.
- Comments: the two `preg_replace` passes.
- Splitter: `split_sql`.
- FilenameCodec: `parse_filename` and the two name builders.
- Database.
- Options.
- Plugin: `db-sync.php`.
- Export: `class-export.php`.
- Importer: `import_sql`.
- Inspection: `generate_preview` and `extract_tables_from_sql`.
- Backup: `create_backup` and its helpers.
- ChangeDetector: `handle_check_files`.

Loops in the source that build a result or change state are methods with loops here, each
proved equal to a specification function; the properties are proved about those functions.
Read-only scans that only ask whether some element qualifies, such as the two `foreach` loops
of `is_problematic_row_for_backup`, are quantifiers.

## Model

| member | source | states |
|---|---|---|
| Splitter.SplitSql | includes/class-import.php:263-335 | The byte loop, with the PHP flags `in_string`, `string_char`, `escaped` and `paren_depth`, returns exactly `SqlStatements`: comment stripping, the scan and the final `array_filter` |
| Splitter.Keep | includes/class-import.php:317-330 | At a boundary, and for the remaining text, one statement is added exactly when the trimmed text is not `empty()`, so a lone `0` is dropped |
| Splitter.FilterStatements | includes/class-import.php:332-334 | The final filter never grows the list, every statement it returns survives `trim`/`empty` and the `\s*` blank test, and a statement is in the result exactly when it is in the input and survives |
| Splitter.FilterStatementsAppend | includes/class-import.php:332-334 | The filter works statement by statement: filtering a concatenation is the concatenation of the filtered parts, so the kept statements stay in their order |
| Splitter.FilterStatementsSingleton | includes/class-import.php:332-334 | One statement is kept exactly when it survives, so with the distribution lemma every surviving statement is kept, once, in place |
| Splitter.LexStepWellFormed | includes/class-import.php:294-314 | The scan never reaches an inconsistent state: inside a string `string_char` is the one opening quote, outside it is "" |
| Splitter.BoundaryRule | includes/class-import.php:316-323 | A statement ends at a byte exactly when it is `;`, it is not escaped, and the scanner is outside every string with depth exactly 0; after a boundary the flags are back at their start values |
| Splitter.EscapedPairIsInert | includes/class-import.php:282-292 | A backslash and the byte after it leave quote, escape and depth state as they were, and neither byte can end a statement, so `\'` never closes a string |
| Splitter.FirstCut | includes/class-import.php:316-323 | The first cut position of a text is a `;` reached in a quiet state (no string, depth 0, no pending escape) |
| Splitter.SqlStatementsArePieces | includes/class-import.php:263-335 | Characterisation: the statements are the comment-stripped text cut after each quiet `;`, each piece trimmed and filtered. This is an independent, piece-based definition of the scanner's output |
| Splitter.RunIsClean | includes/class-import.php:278-330 | The scan from any well-formed state with a partial statement yields the already-kept statements followed by the cleaned pieces of the rest |
| Splitter.ConcatPieces | includes/class-import.php:278-324 | Cutting loses and reorders nothing: the pieces concatenate back to the scanned text |
| Splitter.PiecesEndWithSemicolon | includes/class-import.php:316-323 | Every piece but the last ends with the `;` that closed it; the last piece is the text after the final boundary |
| Splitter.PiecesGlue | includes/class-import.php:278-324 | Text containing no cut is glued to the front of the first piece of what follows it |
| Splitter.InsideStringInert | includes/class-import.php:303-314 | Inside a string, bytes other than its quote and backslash change nothing and cut nowhere: `;` and parentheses in a quoted value are inert |
| Splitter.QuotedLiteralGlues | includes/class-import.php:303-323 | A complete quoted literal without escapes is never cut, whatever `;` or `)` it holds |
| Splitter.EscapedPairGlues | includes/class-import.php:282-292 | An escaped pair is never a cut point and joins the statement it sits in |
| Splitter.PlainInert | includes/class-import.php:295-323 | Outside strings, text without quotes, parentheses or backslashes leaves the flags alone; it cuts at its first `;` at depth 0 and nowhere while a parenthesis is open |
| Splitter.ParenGroupGlues | includes/class-import.php:295-301 | A balanced parenthesised group of plain text is never cut, even when it holds `;` |
| Splitter.PlainPiecesAreExplode | includes/class-import.php:354 | On text without quotes, parentheses or backslashes, the scanner's pieces are exactly `explode(';')`'s pieces with their `;` restored, so there the two splitters agree |
| Splitter.CleanYieldsStatements | includes/class-import.php:318-334 | Every statement kept from any list of pieces is its own `trim`, not `empty()` and not blank |
| Splitter.SqlStatementsShape | includes/class-import.php:318-334 | Every returned statement is trimmed, not `empty()` and not blank; all but the last end with the `;` that closed them |
| Splitter.NoSemicolonOneStatement | includes/class-import.php:326-334 | Text with no `;` gives one statement, its trimmed self, unless that is `empty()` or blank, in which case it gives none |
| Splitter.BlankInputNoStatements | includes/class-import.php:326-334 | Empty or white-space-only input (after comment stripping) gives no statements |
| Comments.StripLineComments | includes/class-import.php:265 | `--…$` removal never lengthens the text and leaves text without `-` unchanged |
| Comments.StripLineCommentsLeavesNoDoubleDash | includes/class-import.php:265 | After the line-comment pass no `--` remains, and a text not starting with a comment keeps its first byte |
| Comments.StripLineCommentsKeepsPrefix | includes/class-import.php:265 | Text before the first `-` is kept verbatim |
| Comments.DashDashCutsLine | includes/class-import.php:265 | A `--` removes the rest of its line and nothing after the newline, even inside a quoted value |
| Comments.StripBlockComments | includes/class-import.php:268 | `/*…*/` removal never lengthens the text and leaves text without `/` unchanged |
| Comments.StripComments | includes/class-import.php:265-268 | Both passes together never lengthen the text and leave comment-free text unchanged |
| Importer.ImportQueriesShape | includes/class-import.php:349-362 | Every executed statement is trimmed, not `empty()` and free of `;`. The statements executed are the `;`-separated pieces of the comment-stripped text, in their order and once each, trimmed, with those whose trim is `empty()` left out (the one-pass `TrimmedStatements`) |
| Importer.KeptInOrder | includes/class-import.php:354-362 | `array_filter(array_map('trim', ...))` followed by the `foreach` sends exactly what a single pass over the pieces sends: each piece in order, trimmed, unless `empty()` |
| Importer.DropEmpty | includes/class-import.php:355 | `array_filter` never grows the list and keeps a string exactly when it is in the input and not `empty()` |
| Importer.DropEmptyAppend | includes/class-import.php:355 | `array_filter` works element by element: it distributes over concatenation, so the kept strings stay in their order |
| Importer.DropEmptySingleton | includes/class-import.php:355 | One string is kept exactly when it is not `empty()` |
| Importer.TrimEachAt | includes/class-import.php:355 | Entry `k` of `array_map('trim', ...)` is piece `k` trimmed |
| Importer.TrimEachAppend | includes/class-import.php:355 | `array_map` distributes over concatenation |
| Importer.CountsCoverStatements | includes/class-import.php:369-374 | `tables_processed` and `rows_imported` together count each statement at most once. They count every statement exactly when each one starts with `CREATE TABLE` or `INSERT INTO` |
| Importer.ReplayQueries | includes/class-import.php:361-375 | A stopped replay names a statement that exists |
| Importer.StoppedStays | includes/class-import.php:364-367 | Once a statement is refused, no later statement is run |
| Importer.StopsAtFirstRefusal | includes/class-import.php:361-367 | The replay stops at statement `k` with message `m` exactly when all earlier statements were accepted and statement `k` was refused with `m` |
| Importer.RunInTransaction | includes/class-import.php:357-387 | `START TRANSACTION`, then the statements in order. If all are accepted: `COMMIT`, the new database and the counters. At the first refusal: `ROLLBACK`, the database as before, and `import_failed` with `SQL Error: ` plus the engine's message, read before the `ROLLBACK`. Either way `last_error` ends empty, since the closing `COMMIT` or `ROLLBACK` query clears it |
| Importer.ImportSql | includes/class-import.php:340-388 | `import_sql`: the transaction over the `explode`-based statements; no transaction is left open and `last_error` ends empty, cleared by the closing `COMMIT` or `ROLLBACK` |
| Importer.AllOrNothing | includes/class-import.php:357-387 | A failed import leaves the database unchanged and ends with `ROLLBACK`. A successful one leaves exactly the database the statements lead to, ends with `COMMIT`, and its counters never exceed the number of statements |
| Importer.ImportCutsQuotedSemicolon | includes/class-import.php:354-355 | As written: an `INSERT` whose quoted value holds `;` is executed as two broken fragments |
| Importer.ImportCutsAtEverySemicolon | includes/class-import.php:354-355 | Two `;`-terminated plain statements are executed as two statements, without their `;` |
| Importer.ImportSqlSplit | includes/class-import.php:340-388 | Corrected import: the same transaction, over `split_sql`'s statements; no transaction is left open and `last_error` ends empty |
| Importer.SplitKeepsQuotedSemicolon | includes/class-import.php:263-335 | `split_sql` keeps the `INSERT` that `explode` cuts as one whole statement |
| Importer.SplitKeepsQuotedValue | includes/class-import.php:295-323 | Any single-value `INSERT` of a quoted value without its quote or backslash is one statement for `split_sql`, whatever `;` the value holds |
| FilenameCodec.MatchTimestamped | includes/class-import.php:218 | A timestamped match has a six-digit date and time and `[^-]+` preset and environment segments |
| FilenameCodec.MatchLegacy | includes/class-import.php:235 | A legacy match has a six-digit date, time `000000` and two segments |
| FilenameCodec.TimestampedComplete | includes/class-import.php:218 | Every name of the form `date-time-preset-env[-BAK].sql` (optionally followed by one newline, as `$` allows) is matched, with exactly those groups |
| FilenameCodec.TimestampedSound | includes/class-import.php:218 | Every timestamped match is the name built from its groups |
| FilenameCodec.LegacyComplete | includes/class-import.php:235 | Every legacy-form name is matched by the legacy pattern, with exactly its parts |
| FilenameCodec.LegacySound | includes/class-import.php:235 | Every legacy match is the name built from its groups |
| FilenameCodec.ParseFilename | includes/class-import.php:216-257 | Total. A recognised name has timestamp `date-time` and starts with its six-digit date. The backup flag is set only when the name ends in `-BAK.sql` |
| FilenameCodec.ParseTimestamped | includes/class-import.php:218-232 | A timestamped name gives its date, time, `date-time`, the capitalised preset and environment, and its backup flag |
| FilenameCodec.ParseLegacy | includes/class-import.php:235-246 | A legacy name gives time `000000` and timestamp `date-000000`. The exception is a six-digit preset with `-BAK`, which the timestamped pattern takes first |
| FilenameCodec.SixDigitLegacyBackupMisread | includes/class-import.php:218-246 | The backup of a legacy name whose preset is six digits is read as a timestamped name: its preset becomes the time, its environment the preset, `BAK` the environment, and it is not flagged as a backup |
| FilenameCodec.BakEndingNotBackup | includes/class-import.php:216-246 | Converse of the flag: a recognised name ending in `-BAK.sql` that is not flagged as a backup has environment `BAK` |
| FilenameCodec.NoSqlEndingIsUnknown | includes/class-import.php:248-256 | A name not ending in `.sql` (or `.sql` and a newline) is `Unknown` |
| FilenameCodec.ExportFilename | includes/class-export.php:39-42 | An export name always ends in `.sql` |
| FilenameCodec.BackupName | includes/class-import.php:438 | `str_replace('.sql', '-BAK.sql')` leaves a name without `.sql` unchanged |
| FilenameCodec.ReplaceSqlEnding | includes/class-import.php:438 | In a name with no other dot, only the closing `.sql` is replaced |
| FilenameCodec.ExportIsTimestamped | includes/class-export.php:39-42 | The export name of a one-word display name has the timestamped form |
| FilenameCodec.ExportRoundTrip | includes/class-export.php:39-42 | Export then parse: a one-word display name gives back the date, time, `date-time`, both labels lower-cased then capitalised, and no backup flag |
| FilenameCodec.ExportRoundTripLabels | includes/class-export.php:39-42 | Capitalised one-word labels (`Development`, `Custom`, `Local`, `Remote`) are read back exactly |
| FilenameCodec.TwoWordExportUnknown | includes/class-export.php:42 | A two-word display name becomes two dash-separated segments, and its export name matches neither pattern |
| FilenameCodec.ContentOnlyUnknown | includes/class-export.php:42 | `Content Only` exports read back as `Unknown` |
| FilenameCodec.BackupOfExport | includes/class-import.php:438 | The backup name of an export parses to the same record with the backup flag set |
| Export.TablesForPreset | includes/class-export.php:72-84 | `custom` gives the caller's list unchanged, `content` its five tables, and any other key the `development` tables |
| Export.PresetDisplayNames | includes/class-export.php:172-180 | `development` is `Development`, `content` is `Content Only`, and any other key is `Custom` |
| Export.GetEnvironmentName | includes/class-export.php:185-193 | The environment is `Local` or `Remote` |
| Export.EnvironmentIsLocal | includes/class-export.php:185-193 | `Local` exactly when `localhost` or `.local` occurs somewhere in the site URL |
| Export.ValueLiteral | includes/class-export.php:149-155 | A null value is the bare `NULL`; a string is `'` + escape(value) + `'` |
| Export.ExportTableData | includes/class-export.php:128-163 | The loop over rows and values produces exactly `TableData` of the table's `SELECT *` rows |
| Export.RowLiterals | includes/class-export.php:147-156 | The inner loop gives each value's literal, in column order |
| Export.InsertLinesPerRow | includes/class-export.php:146-159 | The `INSERT` text is one line per row, in row order, each under the shared column list |
| Export.EmptyTableData | includes/class-export.php:131-139 | A table with no rows gives only `-- Data for X` and `-- No data found`, and no `INSERT` |
| Export.TableDataRows | includes/class-export.php:131-162 | A table with rows gives its comment line, one `INSERT` per row in row order using the first row's column list, and a blank line |
| Export.GenerateSql | includes/class-export.php:89-123 | The loop over requested tables produces exactly `GeneratedSql`: the four header lines, then the blocks |
| Export.TableBlocksAppend | includes/class-export.php:101-120 | The blocks of two request lists are the blocks of each, in order |
| Export.SkippedTableLeavesNoTrace | includes/class-export.php:101-112 | A requested table that is not available, or has no `SHOW CREATE TABLE` row, is skipped silently. The body is as if it had not been requested; only the header names it |
| Export.WrittenTableBlock | includes/class-export.php:106-119 | An available table with a `CREATE TABLE` text is written as `DROP TABLE IF EXISTS`, the text with `;`, then its data block |
| Export.HandleExport | includes/class-export.php:14-69 | Saves the preset and the resolved table list as settings, leaves the stored file list alone, and returns the generated dump and the export file name |
| Export.ExportNameReadsBack | includes/class-export.php:39-42 | The names of `development` and custom exports read back with their preset name, environment and timestamp; a `content` export's name reads back as `Unknown` |
| Export.NamedExportReadsBack | includes/class-export.php:39-42 | Any preset key other than `content` gives a name that reads back with its preset name, environment and timestamp |
| Export.ContentExportUnknown | includes/class-export.php:39-42 | The `content` export's name is not recognised |
| Plugin.PresetKeys | db-sync.php:97-110 | Exactly two presets, `development` and `content`, named `Development` and `Content Only` |
| Plugin.PresetTables | db-sync.php:102-107 | `content` is exactly posts, postmeta, terms, term_relationships and termmeta. `development` is eleven distinct tables and contains every `content` table |
| Plugin.AvailableTables | db-sync.php:64-74 | The keys are exactly the display names (prefix removed everywhere) of the `SHOW TABLES` names |
| Plugin.AvailableTablesLast | db-sync.php:67-72 | Each display name maps to a table with that display name, namely the last one in `SHOW TABLES` order; later tables overwrite earlier ones |
| Plugin.GetAvailableTables | db-sync.php:61-75 | The loop builds exactly `AvailableTables` of `SHOW TABLES` |
| Plugin.GetTableCounts | db-sync.php:80-92 | Same key set as `get_available_tables`, each key mapped to its table's row count |
| Database.ShowCreateTable | includes/class-export.php:109-112 | `SHOW CREATE TABLE` returns a row exactly when the table exists |
| Database.SelectAll | includes/class-export.php:134 | A missing table has no rows |
| Database.Connection.StartTransaction | includes/class-import.php:358 | The current database becomes the state a rollback returns to; as a `$wpdb->query`, it clears `last_error` |
| Database.Connection.Commit | includes/class-import.php:378 | The changes stay, the saved state is dropped and `last_error` is cleared |
| Database.Connection.Rollback | includes/class-import.php:382 | The database returns to the state saved by `START TRANSACTION`, and `last_error` is cleared |
| Database.Connection.Query | includes/class-import.php:364-366 | Success and the new database when the engine accepts. Otherwise failure, the database unchanged, and the engine's message in `last_error` |
| Inspection.CreateTableNameIff | includes/class-import.php:403 | The `CREATE\s+TABLE\s+` + backticked-name matcher returns a name exactly when the statement has that shape (case-insensitive keywords, white-space runs, a non-empty backtick-free name) |
| Inspection.InsertTableNameIff | includes/class-import.php:406 | The same for `INSERT\s+INTO\s+` + backticked name |
| Inspection.MatchAfterIff | includes/class-import.php:403-406 | For any keyword list whose keywords cannot run into one another, the matcher succeeds with a name exactly when the text has the keyword/white-space/backtick shape |
| Inspection.CreateOrInsert | includes/class-import.php:403-414 | No statement is both a `CREATE TABLE` and an `INSERT INTO`, so the `elseif` order does not matter |
| Inspection.GeneratePreview | includes/class-import.php:393-422 | Returns the target URL, the per-table map `PreviewTables` of `split_sql`'s statements, and `total_rows` as the number of `INSERT` statements |
| Inspection.CountStatements | includes/class-import.php:402-415 | The `foreach` updating the map and `total_rows` computes `PreviewTables` and `InsertStatements` |
| Inspection.PreviewKeys | includes/class-import.php:402-415 | A table is in the preview exactly when some statement creates it or inserts into it |
| Inspection.PreviewCount | includes/class-import.php:403-413 | A table's count is the number of `INSERT`s into it since its last `CREATE TABLE` (which resets it to 0). It never exceeds `total_rows` |
| Inspection.ExtractTablesFromSql | includes/class-import.php:585-596 | The distinct `CREATE TABLE` names in first-occurrence order. A name is listed exactly when some statement creates it, and no name twice |
| Inspection.CollectCreated | includes/class-import.php:589-593 | The loop collects every created name in statement order |
| Inspection.CreatedNamesAre | includes/class-import.php:589-593 | A name is collected exactly when some statement creates it |
| Inspection.Unique | includes/class-import.php:595 | `array_unique` keeps the same members, with no repeats, and never grows |
| Inspection.UniqueFirstOccurrenceOrder | includes/class-import.php:595 | `array_unique` keeps first occurrences in their original order |
| Inspection.UniqueOfDistinct | includes/class-import.php:595 | A list without repeats is unchanged |
| Backup.ColumnValue | includes/class-import.php:549-561 | `$row['option_name']` is present exactly when the row has that column |
| Backup.ProblematicRows | includes/class-import.php:545-580 | A row is skipped exactly when it is an `options` row (the options table exists) whose name starts with a problematic prefix, or it holds a string with `<!` and is not a `db_sync_` option row |
| Backup.PluginPrefixNotProblematic | includes/class-import.php:550-568 | No `db_sync_` name starts with a problematic prefix |
| Backup.PluginOptionsKept | includes/class-import.php:566-569 | The plugin's own `db_sync_` option rows are always kept, even with markup |
| Backup.KeptRows | includes/class-import.php:516-520 | Filtering never adds rows |
| Backup.KeptRowsAre | includes/class-import.php:516-520 | A row is kept exactly when it is in the table and not problematic |
| Backup.ExportTableDataForBackup | includes/class-import.php:498-538 | The loop produces exactly `BackupTableData`: the data block over the kept rows, under the first row's column list |
| Backup.BackupDataPerKeptRow | includes/class-import.php:511-537 | One `INSERT` per kept row, in row order, under the column list of the first row, even when that row was skipped |
| Backup.BackupDataAsExport | includes/class-import.php:498-538 | With no problematic rows, the backup data block is the export's data block |
| Backup.AllRowsSkipped | includes/class-import.php:506-537 | A non-empty table whose rows are all skipped gives `-- Data for t`, a blank line, and no `No data found` line |
| Backup.CreateBackup | includes/class-import.php:431-493 | Returns exactly `BackupOutcome`: `no_tables`, `backup_failed`, or the name, content and count. The body has a block only for tables that pass the `!$table_exists` test (`TableExistsIff`) |
| Backup.TableExistsIff | includes/class-import.php:463-467 | `SHOW TABLES LIKE '$t'` passes `!$table_exists` exactly when the database has the table, its name is neither `""` nor `0` (which PHP reads as false), and it holds no `'` (which ends the literal and fails the query) |
| Backup.WriteBlocks | includes/class-import.php:462-479 | The loop over the tables to back up, with the `get_var` result tested as PHP does, produces exactly `BackupBlocks` |
| Backup.MissingTableSkipped | includes/class-import.php:463-467 | A table that fails the existence test leaves no trace in the backup body |
| Backup.ZeroNamedTableSkipped | includes/class-import.php:463-467 | A table named `0` is never written, even when the database has it |
| Backup.QuotedNameSkipped | includes/class-import.php:463-467 | A table whose name holds `'` is never written |
| Backup.ExistingTableWritten | includes/class-import.php:463-477 | An existing table, not named `0` and without `'` in its name, is written as `DROP TABLE IF EXISTS`, its `CREATE TABLE` text with `;`, then its backup data |
| Backup.NothingCreated | includes/class-import.php:447-451 | The list of tables to back up is empty exactly when no statement is a `CREATE TABLE` |
| Backup.BackupOutcomes | includes/class-import.php:438-491 | `no_tables` exactly when the dump has no `CREATE TABLE`. Success exactly when there are tables and the file is written. On success the name is the `-BAK` name, and `tables_backed_up` counts the distinct extracted names, not the tables written |
| ChangeDetector.Hashes | includes/class-import.php:633-635 | One fingerprint per file, in order |
| ChangeDetector.HandleCheckFiles | includes/class-import.php:620-671 | The loops compute `Changed` of the stored and current fingerprints, the stored list becomes the current fingerprints, and the other options are unchanged |
| ChangeDetector.ChangedIff | includes/class-import.php:624-666 | `changed` exactly when the counts differ or some fingerprint is on one list and not on the other; the first-check case adds nothing |
| ChangeDetector.SecondPollUnchanged | includes/class-import.php:671 | Since the baseline is overwritten, a second poll over the same files reports no change |
| ChangeDetector.HashInjective | includes/class-import.php:634 | For file names without `|`, equal fingerprints mean the same name, time and size |
| ChangeDetector.UpdateDetected | includes/class-import.php:633-641 | A new, renamed, touched or resized file is reported as a change on the next poll, provided no file name holds `|` |

## Left out

- MySQL semantics are not modelled. A statement's effect is the `Engine` parameter: a
  function from a database and a statement to a new database or a refusal message.
- Importer.AllOrNothing: the database is unchanged after a failed import only because the
  model's `ROLLBACK` restores the whole state saved by `START TRANSACTION`. MySQL commits
  implicitly at `DROP TABLE` and `CREATE TABLE`, which every dump block starts with
  (includes/class-export.php:106-119), so on MySQL a failure after such a statement keeps the
  earlier changes. The implicit commit is not modelled.
- Importer.RunInTransaction: "the database as before" after a refusal rests on the same
  idealised `ROLLBACK`; MySQL's implicit commit at DDL is not modelled.
- Database.Connection.Rollback: the rollback is idealised. It restores the saved state
  whatever ran since `START TRANSACTION`, including the DDL statements MySQL has already
  committed.
- `$wpdb->_real_escape` is an uninterpreted `escape` parameter.
- Backup.CreateBackup, Backup.WriteBlocks, Backup.ExistingTableWritten: `SHOW TABLES LIKE '$t'`
  (line 464) is modelled as an exact name match that fails when the name holds `'`. The `_` and
  `%` wildcards of `LIKE` are not modelled, and neither is `\` as an escape inside the literal: a
  name with a backslash is probed by its exact text. The options-table test at line 549 is modelled
  the same way.
- Host values are parameters: `date()`, `get_option('siteurl')`, the upload directory,
  `filemtime` and `size_format`. `size_format` is an opaque string.
- File I/O is not modelled. `file_get_contents` becomes a `sqlContent` parameter;
  `file_put_contents` becomes a `written` flag, or is dropped for exports.
- `create_backup` calls `parse_filename` on the import file name but never uses the result.
  The call is not modelled.
- `error_log` calls are not modelled.
- AJAX handlers, nonce and permission checks, and `wp_send_json_*` are not modelled.
- `get_available_files` and its `usort` by modification time are not modelled. The file list
  is an input.
- Export.HandleExport: `preset` and `customTables` are the values after `sanitize_text_field`
  (includes/class-export.php:24-25); that sanitising is not modelled.
- Export.HandleExport: `file_put_contents` and its `Failed to save SQL file` error are not
  modelled.
- The preview map is a Dafny `map`. PHP's array key order (first insertion) is not modelled.
- `in_array` compares loosely. A fingerprint always contains `|`, so it is never a numeric
  string and the loose comparison is the plain string equality modelled here.
- Bytes are `char`s, and case-insensitive matching folds only ASCII letters, as PCRE's `/i`
  does without the `u` modifier.
- Rows with duplicate column names cannot come from an associative array. `ColumnValue`
  takes the last occurrence, as an `ARRAY_A` row would hold it.

## Findings

| source | as written | input that shows it | evidently intended | confidence | as-written member | corrected member |
|---|---|---|---|---|---|---|
| includes/class-import.php:354 | `import_sql` splits the comment-stripped dump with `explode(';')`, cutting at every `;`, including one inside a quoted value | a dump containing `INSERT INTO t VALUES ('a;b');` sends `INSERT INTO t VALUES ('a` and `b')` to the database, so the import fails and rolls back | split with `split_sql`, as `generate_preview` and `create_backup` already do, which keeps quoted `;` inside the statement | not executed | Importer.ImportCutsQuotedSemicolon | Importer.SplitKeepsQuotedSemicolon |
