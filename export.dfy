/**
 * The export side (includes/class-export.php): which tables a preset exports, the dump text
 * `generate_sql` writes, and the file name and settings `handle_export` produces.
 *
 * The clock, the site URL option and `$wpdb->_real_escape` are parameters: `generatedAt` is the
 * `date('Y-m-d H:i:s')` text, `date` and `time` the two halves of `date('ymd-His')`, and `escape`
 * stands for the escaping function, about which nothing is assumed.
 */
module Export {
  import opened Wrappers
  import opened Text
  import opened Database
  import opened Plugin
  import opened FilenameCodec
  import opened Options

  /** `get_tables_for_preset`: the caller's list for `custom`, the preset's tables for a known key, else `development`'s. */
  function GetTablesForPreset(preset: string, customTables: seq<string>): seq<string> {
    if preset == "custom" then customTables
    else if preset in GetPresets() then GetPresets()[preset].tables
    else GetPresets()["development"].tables
  }

  /** What each preset key exports. */
  lemma TablesForPreset(preset: string, customTables: seq<string>)
    ensures preset == "custom" ==> GetTablesForPreset(preset, customTables) == customTables
    ensures preset == "content" ==> GetTablesForPreset(preset, customTables) == ContentTables
    ensures preset != "custom" && preset != "content" ==> GetTablesForPreset(preset, customTables) == DevelopmentTables
  {
  }

  /** `get_preset_display_name`: the preset's name for a known key, `Custom` otherwise. */
  function GetPresetDisplayName(preset: string): string {
    if preset in GetPresets() then GetPresets()[preset].name else "Custom"
  }

  /** The three labels a file name can carry. */
  lemma PresetDisplayNames(preset: string)
    ensures preset == "development" ==> GetPresetDisplayName(preset) == "Development"
    ensures preset == "content" ==> GetPresetDisplayName(preset) == "Content Only"
    ensures preset != "development" && preset != "content" ==> GetPresetDisplayName(preset) == "Custom"
  {
  }

  /** `get_environment_name`: `Local` when the site URL contains `localhost` or `.local`, else `Remote`. */
  function GetEnvironmentName(siteUrl: string): (r: string)
    ensures r == "Local" || r == "Remote"
  {
    if Contains(siteUrl, "localhost") || Contains(siteUrl, ".local") then "Local" else "Remote"
  }

  /** The environment is `Local` exactly when one of the two markers occurs somewhere in the URL. */
  lemma EnvironmentIsLocal(siteUrl: string)
    ensures GetEnvironmentName(siteUrl) == "Local"
        <==> (exists i :: OccursAt(siteUrl, "localhost", i)) || (exists i :: OccursAt(siteUrl, ".local", i))
  {
    ContainsAt(siteUrl, "localhost");
    ContainsAt(siteUrl, ".local");
  }

  // ---------------------------------------------------------------------------------------------
  // The dump text

  /** One value of an `INSERT`: `NULL` for SQL null, otherwise the escaped string in single quotes. */
  function ValueLiteral(escape: string -> string, v: Value): (r: string)
    ensures v.Null? ==> r == "NULL"
    ensures v.Str? ==> |r| >= 2 && r[0] == '\'' && r[|r| - 1] == '\'' && r[1..|r| - 1] == escape(v.s)
  {
    match v
    case Null => "NULL"
    case Str(s) => "'" + escape(s) + "'"
  }

  /** The value literals of a row, in column order. */
  function RowValues(escape: string -> string, row: Row): (r: seq<string>)
    ensures |r| == |row|
    ensures forall i :: 0 <= i < |row| ==> r[i] == ValueLiteral(escape, row[i].1)
    decreases |row|
  {
    if row == [] then [] else RowValues(escape, row[..|row| - 1]) + [ValueLiteral(escape, row[|row| - 1].1)]
  }

  /** The column names of a row, in order (`array_keys`). */
  function Columns(row: Row): (r: seq<string>)
    ensures |r| == |row| && forall i :: 0 <= i < |row| ==> r[i] == row[i].0
  {
    seq(|row|, i requires 0 <= i < |row| => row[i].0)
  }

  /** The backticked column list: `` `a`, `b` ``. */
  function ColumnList(columns: seq<string>): string {
    "`" + Join("`, `", columns) + "`"
  }

  /** One `INSERT` line. */
  function InsertLine(tableName: string, columnList: string, values: seq<string>): string {
    "INSERT INTO `" + tableName + "` (" + columnList + ") VALUES (" + Join(", ", values) + ");\n"
  }

  /** The `INSERT` lines of the given rows, in order, all under the same column list. */
  function InsertLines(escape: string -> string, tableName: string, columnList: string, rows: seq<Row>): string
    decreases |rows|
  {
    if rows == [] then ""
    else
      InsertLines(escape, tableName, columnList, rows[..|rows| - 1])
      + InsertLine(tableName, columnList, RowValues(escape, rows[|rows| - 1]))
  }

  /** The data block of one table: a comment line, then one `INSERT` per row, or a `No data found` line. */
  function TableData(escape: string -> string, tableName: string, tableDisplay: string, rows: seq<Row>): string {
    if rows == [] then "-- Data for " + tableDisplay + "\n" + "-- No data found\n\n"
    else
      "-- Data for " + tableDisplay + "\n"
      + InsertLines(escape, tableName, ColumnList(Columns(rows[0])), rows) + "\n"
  }

  /**
   * `export_table_data`: one `SELECT *`, then one `INSERT` per row under the column list of the
   * first row.
   */
  method ExportTableData(db: Db, escape: string -> string, tableName: string, tableDisplay: string)
    returns (sqlContent: string)
    ensures sqlContent == TableData(escape, tableName, tableDisplay, SelectAll(db, tableName))
  {
    sqlContent := "-- Data for " + tableDisplay + "\n";
    var rows := SelectAll(db, tableName);
    if rows == [] {
      sqlContent := sqlContent + "-- No data found\n\n";
      return;
    }
    var columnList := ColumnList(Columns(rows[0]));
    var i := 0;
    while i < |rows|
      invariant 0 <= i <= |rows|
      invariant sqlContent == "-- Data for " + tableDisplay + "\n" + InsertLines(escape, tableName, columnList, rows[..i])
    {
      var row := rows[i];
      var values := RowLiterals(escape, row);
      ghost var head := "-- Data for " + tableDisplay + "\n";
      ghost var before := InsertLines(escape, tableName, columnList, rows[..i]);
      assert rows[..i + 1][..i] == rows[..i];
      assert InsertLines(escape, tableName, columnList, rows[..i + 1]) == before + InsertLine(tableName, columnList, values);
      AppendAssoc(head, before, InsertLine(tableName, columnList, values));
      sqlContent := sqlContent + InsertLine(tableName, columnList, values);
      i := i + 1;
    }
    assert rows[..|rows|] == rows;
    sqlContent := sqlContent + "\n";
  }

  /** The inner `foreach` over a row's values. */
  method RowLiterals(escape: string -> string, row: Row) returns (values: seq<string>)
    ensures values == RowValues(escape, row)
  {
    values := [];
    var j := 0;
    while j < |row|
      invariant 0 <= j <= |row|
      invariant values == RowValues(escape, row[..j])
    {
      assert row[..j + 1][..j] == row[..j];
      values := values + [ValueLiteral(escape, row[j].1)];
      j := j + 1;
    }
    assert row[..|row|] == row;
  }

  /** One more row adds its `INSERT` line at the end. */
  lemma InsertLinesSnoc(escape: string -> string, tableName: string, columnList: string, rows: seq<Row>, row: Row)
    ensures InsertLines(escape, tableName, columnList, rows + [row])
         == InsertLines(escape, tableName, columnList, rows) + InsertLine(tableName, columnList, RowValues(escape, row))
  {
    assert (rows + [row])[..|rows|] == rows;
  }

  /** The `INSERT` line of each row, in row order, under one column list. */
  function RowLines(escape: string -> string, tableName: string, columnList: string, rows: seq<Row>): (r: seq<string>)
    ensures |r| == |rows|
    ensures forall i :: 0 <= i < |rows| ==> r[i] == InsertLine(tableName, columnList, RowValues(escape, rows[i]))
    decreases |rows|
  {
    if rows == [] then []
    else
      RowLines(escape, tableName, columnList, rows[..|rows| - 1])
      + [InsertLine(tableName, columnList, RowValues(escape, rows[|rows| - 1]))]
  }

  /**
   * The `INSERT` lines are exactly one line per row, in row order: the text is the concatenation
   * of the lines built from each row under the shared column list.
   */
  lemma {:induction false} InsertLinesPerRow(escape: string -> string, tableName: string, columnList: string,
                                             rows: seq<Row>)
    ensures InsertLines(escape, tableName, columnList, rows) == Concat(RowLines(escape, tableName, columnList, rows))
    decreases |rows|
  {
    if rows != [] {
      var init := rows[..|rows| - 1];
      var last := InsertLine(tableName, columnList, RowValues(escape, rows[|rows| - 1]));
      InsertLinesPerRow(escape, tableName, columnList, init);
      ConcatAppend(RowLines(escape, tableName, columnList, init), [last]);
      assert Concat([last]) == last + Concat([]);
    }
  }

  /** An empty table gives just its two comment lines. */
  lemma EmptyTableData(escape: string -> string, tableName: string, tableDisplay: string)
    ensures TableData(escape, tableName, tableDisplay, []) == "-- Data for " + tableDisplay + "\n-- No data found\n\n"
  {
  }

  /**
   * A table with rows gives its comment line, one `INSERT` per row in row order, each with the
   * column list of the first row, then a blank line.
   */
  lemma TableDataRows(escape: string -> string, tableName: string, tableDisplay: string, rows: seq<Row>)
    requires rows != []
    ensures TableData(escape, tableName, tableDisplay, rows)
         == "-- Data for " + tableDisplay + "\n"
          + Concat(RowLines(escape, tableName, ColumnList(Columns(rows[0])), rows))
          + "\n"
  {
    InsertLinesPerRow(escape, tableName, ColumnList(Columns(rows[0])), rows);
  }

  /** The four header lines of an export. */
  function Header(generatedAt: string, siteUrl: string, tables: seq<string>): string {
    "-- WordPress Database Export\n"
    + ("-- Generated: " + generatedAt + "\n")
    + ("-- Source URL: " + siteUrl + "\n")
    + ("-- Exported tables: " + Join(", ", tables) + "\n\n")
  }

  /** The block `generate_sql` writes for one requested table: nothing when it is skipped. */
  function TableBlock(db: Db, escape: string -> string, available: map<string, string>, tableDisplay: string): string {
    if tableDisplay !in available then ""
    else
      var tableName := available[tableDisplay];
      match ShowCreateTable(db, tableName)
      case None => ""
      case Some(create) =>
        ("\n-- Table structure for " + tableDisplay + "\n")
        + ("DROP TABLE IF EXISTS `" + tableName + "`;\n")
        + (create + ";\n\n")
        + TableData(escape, tableName, tableDisplay, SelectAll(db, tableName))
  }

  /** The blocks of the requested tables, in the requested order. */
  function TableBlocks(db: Db, escape: string -> string, available: map<string, string>, tables: seq<string>): string
    decreases |tables|
  {
    if tables == [] then ""
    else
      TableBlocks(db, escape, available, tables[..|tables| - 1])
      + TableBlock(db, escape, available, tables[|tables| - 1])
  }

  /** What `generate_sql` returns. */
  function GeneratedSql(db: Db, prefix: string, escape: string -> string, tables: seq<string>,
                        generatedAt: string, siteUrl: string): string {
    Header(generatedAt, siteUrl, tables) + TableBlocks(db, escape, AvailableTables(prefix, ShowTables(db)), tables)
  }

  /** `generate_sql`: the header, then a block per requested table that exists, in the requested order. */
  method GenerateSql(db: Db, prefix: string, escape: string -> string, tables: seq<string>,
                     generatedAt: string, siteUrl: string) returns (sqlContent: string)
    ensures sqlContent == GeneratedSql(db, prefix, escape, tables, generatedAt, siteUrl)
  {
    sqlContent := "-- WordPress Database Export\n";
    sqlContent := sqlContent + ("-- Generated: " + generatedAt + "\n");
    sqlContent := sqlContent + ("-- Source URL: " + siteUrl + "\n");
    sqlContent := sqlContent + ("-- Exported tables: " + Join(", ", tables) + "\n\n");
    assert tables[..0] == [];
    var availableTables := GetAvailableTables(db, prefix);
    var i := 0;
    while i < |tables|
      invariant 0 <= i <= |tables|
      invariant sqlContent == Header(generatedAt, siteUrl, tables) + TableBlocks(db, escape, availableTables, tables[..i])
    {
      var tableDisplay := tables[i];
      BlocksStep(db, escape, availableTables, tables, i);
      if tableDisplay !in availableTables {
        i := i + 1;
        continue;
      }
      var tableName := availableTables[tableDisplay];
      var createTable := ShowCreateTable(db, tableName);
      if createTable.None? {
        i := i + 1;
        continue;
      }
      ghost var before := sqlContent;
      var structure := "\n-- Table structure for " + tableDisplay + "\n";
      var drop := "DROP TABLE IF EXISTS `" + tableName + "`;\n";
      var create := createTable.value + ";\n\n";
      sqlContent := sqlContent + structure;
      sqlContent := sqlContent + drop;
      sqlContent := sqlContent + create;
      var data := ExportTableData(db, escape, tableName, tableDisplay);
      sqlContent := sqlContent + data;
      AppendFour(before, structure, drop, create, data);
      AppendAssoc(Header(generatedAt, siteUrl, tables), TableBlocks(db, escape, availableTables, tables[..i]),
        TableBlock(db, escape, availableTables, tableDisplay));
      i := i + 1;
    }
    assert tables[..|tables|] == tables;
  }

  /** The blocks of the first `i + 1` requested tables extend those of the first `i` by one block. */
  lemma BlocksStep(db: Db, escape: string -> string, available: map<string, string>, tables: seq<string>, i: nat)
    requires i < |tables|
    ensures TableBlocks(db, escape, available, tables[..i + 1])
         == TableBlocks(db, escape, available, tables[..i]) + TableBlock(db, escape, available, tables[i])
  {
    assert tables[..i + 1][..i] == tables[..i];
  }

  /** Appending four pieces one after the other appends their concatenation. */
  lemma AppendFour(s: string, a: string, b: string, c: string, d: string)
    ensures s + a + b + c + d == s + (a + b + c + d)
  {
    AppendAssoc(s, a, b);
    AppendAssoc(s, a + b, c);
    AppendAssoc(s, a + b + c, d);
  }

  /** The blocks of two lists of requested tables are the blocks of each, one after the other. */
  lemma {:induction false} TableBlocksAppend(db: Db, escape: string -> string, available: map<string, string>,
                                             xs: seq<string>, ys: seq<string>)
    ensures TableBlocks(db, escape, available, xs + ys)
         == TableBlocks(db, escape, available, xs) + TableBlocks(db, escape, available, ys)
    decreases |ys|
  {
    if ys == [] {
      assert xs + ys == xs;
    } else {
      var init := ys[..|ys| - 1];
      assert (xs + ys)[..|xs + ys| - 1] == xs + init;
      assert (xs + ys)[|xs + ys| - 1] == ys[|ys| - 1];
      TableBlocksAppend(db, escape, available, xs, init);
      AppendAssoc(TableBlocks(db, escape, available, xs), TableBlocks(db, escape, available, init),
        TableBlock(db, escape, available, ys[|ys| - 1]));
    }
  }

  /**
   * A requested table that is not available, or whose `SHOW CREATE TABLE` gives nothing, is
   * skipped silently: the body of the dump is what it would be without the request, though the
   * header still lists it.
   */
  lemma SkippedTableLeavesNoTrace(db: Db, prefix: string, escape: string -> string, xs: seq<string>,
                                  t: string, ys: seq<string>, generatedAt: string, siteUrl: string)
    requires var available := AvailableTables(prefix, ShowTables(db));
      t !in available || ShowCreateTable(db, available[t]).None?
    ensures GeneratedSql(db, prefix, escape, xs + [t] + ys, generatedAt, siteUrl)
         == Header(generatedAt, siteUrl, xs + [t] + ys) + TableBlocks(db, escape, AvailableTables(prefix, ShowTables(db)), xs + ys)
  {
    var available := AvailableTables(prefix, ShowTables(db));
    assert TableBlock(db, escape, available, t) == "";
    SkippedBlockVanishes(db, escape, available, xs, t, ys);
  }

  /** A requested table whose block is empty leaves the blocks of the others unchanged. */
  lemma SkippedBlockVanishes(db: Db, escape: string -> string, available: map<string, string>,
                             xs: seq<string>, t: string, ys: seq<string>)
    requires TableBlock(db, escape, available, t) == ""
    ensures TableBlocks(db, escape, available, xs + [t] + ys) == TableBlocks(db, escape, available, xs + ys)
  {
    TableBlocksAppend(db, escape, available, xs + [t], ys);
    TableBlocksAppend(db, escape, available, xs, [t]);
    TableBlocksAppend(db, escape, available, xs, ys);
    assert [t][..0] == [];
    assert TableBlocks(db, escape, available, [t]) == "";
    assert TableBlocks(db, escape, available, xs + [t]) == TableBlocks(db, escape, available, xs);
  }

  /** An available table with a `CREATE TABLE` text is written as `DROP TABLE`, the text and `;`, then its data. */
  lemma WrittenTableBlock(db: Db, available: map<string, string>, escape: string -> string, t: string)
    requires t in available && ShowCreateTable(db, available[t]).Some?
    ensures TableBlock(db, escape, available, t)
         == ("\n-- Table structure for " + t + "\n")
          + ("DROP TABLE IF EXISTS `" + available[t] + "`;\n")
          + (ShowCreateTable(db, available[t]).value + ";\n\n")
          + TableData(escape, available[t], t, SelectAll(db, available[t]))
  {
  }

  // ---------------------------------------------------------------------------------------------
  // handle_export

  /** What `handle_export` reports back. */
  datatype ExportResult = ExportResult(filename: string, sqlContent: string, preset: string, environment: string)

  /**
   * The work of `handle_export`: resolve the tables, save the preset and the table list as
   * settings, generate the dump, and name the file from the timestamp, the preset's name and the
   * environment.
   */
  method HandleExport(store: OptionStore, db: Db, prefix: string, escape: string -> string,
                      preset: string, customTables: seq<string>,
                      date: string, time: string, generatedAt: string, siteUrl: string)
    returns (result: ExportResult)
    modifies store
    ensures store.preset == preset && store.tables == GetTablesForPreset(preset, customTables)
    ensures store.storedFiles == old(store.storedFiles)
    ensures result.sqlContent == GeneratedSql(db, prefix, escape, GetTablesForPreset(preset, customTables), generatedAt, siteUrl)
    ensures result.preset == GetPresetDisplayName(preset) && result.environment == GetEnvironmentName(siteUrl)
    ensures result.filename == ExportFilename(date + "-" + time, GetPresetDisplayName(preset), GetEnvironmentName(siteUrl))
  {
    var tablesToExport := GetTablesForPreset(preset, customTables);
    store.preset := preset;
    store.tables := tablesToExport;
    var sqlContent := GenerateSql(db, prefix, escape, tablesToExport, generatedAt, siteUrl);
    var timestamp := date + "-" + time;
    var presetName := GetPresetDisplayName(preset);
    var environment := GetEnvironmentName(siteUrl);
    var filename := timestamp + "-" + ToLower(ReplaceChar(presetName, ' ', '-')) + "-" + ToLower(environment) + ".sql";
    result := ExportResult(filename, sqlContent, presetName, environment);
  }

  /**
   * The file names of `development` and custom exports read back with their preset name and
   * environment; a `content` export's name reads back as `Unknown`.
   */
  lemma ExportNameReadsBack(preset: string, date: string, time: string, siteUrl: string)
    requires IsSixDigits(date) && IsSixDigits(time)
    ensures var info := ParseFilename(ExportFilename(date + "-" + time, GetPresetDisplayName(preset), GetEnvironmentName(siteUrl)));
      if preset == "content" then info == Unknown
      else (info.preset == GetPresetDisplayName(preset) && info.environment == GetEnvironmentName(siteUrl)
        && info.timestamp == date + "-" + time && !info.isBackup)
  {
    if preset == "content" {
      ContentExportUnknown(date, time, siteUrl);
    } else {
      NamedExportReadsBack(preset, date, time, siteUrl);
    }
  }

  /** The `content` export's name, `Content Only` dashed into two segments, is not recognised. */
  lemma ContentExportUnknown(date: string, time: string, siteUrl: string)
    requires IsSixDigits(date) && IsSixDigits(time)
    ensures ParseFilename(ExportFilename(date + "-" + time, GetPresetDisplayName("content"), GetEnvironmentName(siteUrl))) == Unknown
  {
    PresetDisplayNames("content");
    ContentOnlyUnknown(date, time, GetEnvironmentName(siteUrl));
  }

  /** Any other export's name reads back with its preset name, environment and timestamp. */
  lemma NamedExportReadsBack(preset: string, date: string, time: string, siteUrl: string)
    requires IsSixDigits(date) && IsSixDigits(time) && preset != "content"
    ensures var info := ParseFilename(ExportFilename(date + "-" + time, GetPresetDisplayName(preset), GetEnvironmentName(siteUrl)));
      info.preset == GetPresetDisplayName(preset) && info.environment == GetEnvironmentName(siteUrl)
      && info.timestamp == date + "-" + time && !info.isBackup
  {
    var env := GetEnvironmentName(siteUrl);
    var name := GetPresetDisplayName(preset);
    PresetDisplayNames(preset);
    assert IsCapitalisedWord(name) && ' ' !in name && '-' !in name;
    assert IsCapitalisedWord(env) && '-' !in env;
    ExportRoundTripLabels(date, time, name, env);
    ExportRoundTrip(date, time, name, env);
  }
}
