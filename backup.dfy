/**
 * The backup taken before an import (includes/class-import.php): which rows are left out of it,
 * the data block of one table, and the backup file `create_backup` writes for the tables the
 * dump creates.
 *
 * The clock, the site URL option and `$wpdb->_real_escape` are parameters as in the export; the
 * dump's text is given as read, and `written` says whether `file_put_contents` succeeded.
 */
module Backup {
  import opened Wrappers
  import opened Text
  import opened Database
  import opened Export
  import opened Splitter
  import opened Inspection
  import opened FilenameCodec

  // ---------------------------------------------------------------------------------------------
  // Rows left out of a backup

  /** The option-name prefixes whose rows a backup leaves out. */
  const ProblematicOptions: seq<string> :=
    ["_transient_", "_site_transient_", "upload_url_path", "upload_path", "template", "stylesheet", "current_theme"]

  /** The prefix of the plugin's own options. */
  const PluginOptionPrefix: string := "db_sync_"

  /** `$row[$key]`: the value of the column named `key`; a later column of the same name wins, as in a PHP array. */
  function ColumnValue(row: Row, key: string): (r: Option<Value>)
    ensures r.None? <==> forall i :: 0 <= i < |row| ==> row[i].0 != key
    ensures r.Some? ==> exists i :: 0 <= i < |row| && row[i] == (key, r.value)
    decreases |row|
  {
    if row == [] then None
    else if row[|row| - 1].0 == key then Some(row[|row| - 1].1)
    else
      var r := ColumnValue(row[..|row| - 1], key);
      assert forall i :: 0 <= i < |row| - 1 ==> row[..|row| - 1][i] == row[i];
      r
  }

  /** `isset($row['option_name'])`: the column is there and not `NULL`; its text. */
  function OptionName(row: Row): Option<string> {
    match ColumnValue(row, "option_name")
    case Some(Str(s)) => Some(s)
    case _ => None
  }

  /** The option name starts with one of the left-out prefixes. */
  predicate HasProblematicPrefix(name: string) {
    exists k :: 0 <= k < |ProblematicOptions| && StartsWith(name, ProblematicOptions[k])
  }

  /** Some value of the row is a string containing `<!`. */
  predicate HasMarkup(row: Row) {
    exists i :: 0 <= i < |row| && row[i].1.Str? && Contains(row[i].1.s, "<!")
  }

  /**
   * `is_problematic_row_for_backup`: when the row has an `option_name` and `SHOW TABLES` lists
   * the options table, a left-out prefix makes it problematic and the plugin's prefix keeps it;
   * otherwise it is problematic exactly when a value contains `<!`.
   */
  predicate IsProblematicRowForBackup(db: Db, optionsTable: string, row: Row) {
    if OptionName(row).Some? && optionsTable in ShowTables(db) then
      if HasProblematicPrefix(OptionName(row).value) then true
      else if StartsWith(OptionName(row).value, PluginOptionPrefix) then false
      else HasMarkup(row)
    else HasMarkup(row)
  }

  /** No left-out prefix is a prefix of a name that starts with the plugin's prefix. */
  lemma PluginPrefixNotProblematic(name: string)
    requires StartsWith(name, PluginOptionPrefix)
    ensures !HasProblematicPrefix(name)
  {
    assert name[0] == 'd';
    forall k | 0 <= k < |ProblematicOptions| ensures !StartsWith(name, ProblematicOptions[k]) {
      assert ProblematicOptions[k][0] != 'd';
    }
  }

  /** The plugin's own options are always kept once the options table is listed, markup or not. */
  lemma PluginOptionsKept(db: Db, optionsTable: string, row: Row)
    requires optionsTable in ShowTables(db)
    requires OptionName(row).Some? && StartsWith(OptionName(row).value, PluginOptionPrefix)
    ensures !IsProblematicRowForBackup(db, optionsTable, row)
  {
    PluginPrefixNotProblematic(OptionName(row).value);
  }

  /**
   * A row is problematic exactly when it is an option row with a left-out prefix, or it carries
   * markup and is not one of the plugin's own option rows.
   */
  lemma ProblematicRows(db: Db, optionsTable: string, row: Row)
    ensures var option := OptionName(row).Some? && optionsTable in ShowTables(db);
      IsProblematicRowForBackup(db, optionsTable, row)
      <==> ((option && HasProblematicPrefix(OptionName(row).value))
            || (HasMarkup(row) && !(option && StartsWith(OptionName(row).value, PluginOptionPrefix))))
  {
    if OptionName(row).Some? && StartsWith(OptionName(row).value, PluginOptionPrefix) {
      PluginPrefixNotProblematic(OptionName(row).value);
    }
  }

  /** `HasMarkup` finds exactly the string values with `<!` at some position. */
  lemma HasMarkupAt(row: Row)
    ensures HasMarkup(row) <==> exists i, j :: 0 <= i < |row| && row[i].1.Str? && OccursAt(row[i].1.s, "<!", j)
  {
    forall i | 0 <= i < |row| && row[i].1.Str? {
      ContainsAt(row[i].1.s, "<!");
    }
  }

  /** The rows a backup keeps, in order. */
  function KeptRows(db: Db, optionsTable: string, rows: seq<Row>): (r: seq<Row>)
    ensures |r| <= |rows|
    decreases |rows|
  {
    if rows == [] then []
    else
      KeptRows(db, optionsTable, rows[..|rows| - 1])
      + (if IsProblematicRowForBackup(db, optionsTable, rows[|rows| - 1]) then [] else [rows[|rows| - 1]])
  }

  /** A row is kept exactly when it is one of the rows and not problematic. */
  lemma {:induction false} KeptRowsAre(db: Db, optionsTable: string, rows: seq<Row>, row: Row)
    ensures row in KeptRows(db, optionsTable, rows) <==> row in rows && !IsProblematicRowForBackup(db, optionsTable, row)
    decreases |rows|
  {
    if rows != [] {
      var init := rows[..|rows| - 1];
      KeptRowsAre(db, optionsTable, init, row);
      assert rows == init + [rows[|rows| - 1]];
    }
  }

  /** Keeping rows distributes over concatenation, so the kept rows stay in their order. */
  lemma {:induction false} KeptRowsAppend(db: Db, optionsTable: string, xs: seq<Row>, ys: seq<Row>)
    ensures KeptRows(db, optionsTable, xs + ys) == KeptRows(db, optionsTable, xs) + KeptRows(db, optionsTable, ys)
    decreases |ys|
  {
    if ys == [] {
      assert xs + ys == xs;
    } else {
      var init := ys[..|ys| - 1];
      assert (xs + ys)[..|xs + ys| - 1] == xs + init;
      assert (xs + ys)[|xs + ys| - 1] == ys[|ys| - 1];
      KeptRowsAppend(db, optionsTable, xs, init);
    }
  }

  /** Keeping the rows up to one more row keeps that row too, unless it is problematic. */
  lemma KeptRowsStep(db: Db, optionsTable: string, rows: seq<Row>, i: nat)
    requires i < |rows|
    ensures KeptRows(db, optionsTable, rows[..i + 1])
         == KeptRows(db, optionsTable, rows[..i])
          + (if IsProblematicRowForBackup(db, optionsTable, rows[i]) then [] else [rows[i]])
  {
    assert rows[..i + 1][..i] == rows[..i];
  }

  /** Rows none of which is problematic are all kept. */
  lemma {:induction false} KeptRowsAll(db: Db, optionsTable: string, rows: seq<Row>)
    requires forall i :: 0 <= i < |rows| ==> !IsProblematicRowForBackup(db, optionsTable, rows[i])
    ensures KeptRows(db, optionsTable, rows) == rows
    decreases |rows|
  {
    if rows != [] {
      KeptRowsAll(db, optionsTable, rows[..|rows| - 1]);
    }
  }

  /** Rows all of which are problematic are all left out. */
  lemma {:induction false} KeptRowsNone(db: Db, optionsTable: string, rows: seq<Row>)
    requires forall i :: 0 <= i < |rows| ==> IsProblematicRowForBackup(db, optionsTable, rows[i])
    ensures KeptRows(db, optionsTable, rows) == []
    decreases |rows|
  {
    if rows != [] {
      KeptRowsNone(db, optionsTable, rows[..|rows| - 1]);
    }
  }

  // ---------------------------------------------------------------------------------------------
  // The data block of one table

  /**
   * What `export_table_data_for_backup` returns: a comment line, then an `INSERT` per kept row
   * under the column list of the first row (kept or not) and a blank line, or a `No data found`
   * line when the table has no rows.
   */
  function BackupTableData(db: Db, escape: string -> string, optionsTable: string, tableName: string): string {
    var rows := SelectAll(db, tableName);
    if rows == [] then "-- Data for " + tableName + "\n" + "-- No data found\n\n"
    else
      "-- Data for " + tableName + "\n"
      + InsertLines(escape, tableName, ColumnList(Columns(rows[0])), KeptRows(db, optionsTable, rows)) + "\n"
  }

  /** `export_table_data_for_backup`: one `SELECT *`, then an `INSERT` per row that is not problematic. */
  method ExportTableDataForBackup(db: Db, escape: string -> string, optionsTable: string, tableName: string)
    returns (sqlContent: string)
    ensures sqlContent == BackupTableData(db, escape, optionsTable, tableName)
  {
    sqlContent := "-- Data for " + tableName + "\n";
    var rows := SelectAll(db, tableName);
    if rows == [] {
      sqlContent := sqlContent + "-- No data found\n\n";
      return;
    }
    var columnList := ColumnList(Columns(rows[0]));
    ghost var head := "-- Data for " + tableName + "\n";
    var i := 0;
    while i < |rows|
      invariant 0 <= i <= |rows|
      invariant sqlContent == head + InsertLines(escape, tableName, columnList, KeptRows(db, optionsTable, rows[..i]))
    {
      var row := rows[i];
      ghost var kept := KeptRows(db, optionsTable, rows[..i]);
      KeptRowsStep(db, optionsTable, rows, i);
      if IsProblematicRowForBackup(db, optionsTable, row) {
        assert KeptRows(db, optionsTable, rows[..i + 1]) == kept + [];
        assert kept + [] == kept;
        i := i + 1;
        continue;
      }
      var values := RowLiterals(escape, row);
      assert KeptRows(db, optionsTable, rows[..i + 1]) == kept + [row];
      InsertLinesSnoc(escape, tableName, columnList, kept, row);
      AppendAssoc(head, InsertLines(escape, tableName, columnList, kept), InsertLine(tableName, columnList, values));
      sqlContent := sqlContent + InsertLine(tableName, columnList, values);
      i := i + 1;
    }
    assert rows[..|rows|] == rows;
    sqlContent := sqlContent + "\n";
  }

  /**
   * A table with rows gives its comment line, one `INSERT` per kept row in row order, each under
   * the column list of the first row, then a blank line.
   */
  lemma BackupDataPerKeptRow(db: Db, escape: string -> string, optionsTable: string, tableName: string)
    requires SelectAll(db, tableName) != []
    ensures var rows := SelectAll(db, tableName);
      BackupTableData(db, escape, optionsTable, tableName)
      == "-- Data for " + tableName + "\n"
       + Concat(RowLines(escape, tableName, ColumnList(Columns(rows[0])), KeptRows(db, optionsTable, rows)))
       + "\n"
  {
    var rows := SelectAll(db, tableName);
    InsertLinesPerRow(escape, tableName, ColumnList(Columns(rows[0])), KeptRows(db, optionsTable, rows));
  }

  /** When no row is problematic, the backup's data block is the export's, under the physical name. */
  lemma BackupDataAsExport(db: Db, escape: string -> string, optionsTable: string, tableName: string)
    requires var rows := SelectAll(db, tableName);
      forall i :: 0 <= i < |rows| ==> !IsProblematicRowForBackup(db, optionsTable, rows[i])
    ensures BackupTableData(db, escape, optionsTable, tableName)
         == TableData(escape, tableName, tableName, SelectAll(db, tableName))
  {
    KeptRowsAll(db, optionsTable, SelectAll(db, tableName));
  }

  /** A table whose rows are all problematic gives its comment line and a blank line, and no `No data found`. */
  lemma AllRowsSkipped(db: Db, escape: string -> string, optionsTable: string, tableName: string)
    requires var rows := SelectAll(db, tableName);
      rows != [] && forall i :: 0 <= i < |rows| ==> IsProblematicRowForBackup(db, optionsTable, rows[i])
    ensures BackupTableData(db, escape, optionsTable, tableName) == "-- Data for " + tableName + "\n\n"
  {
    KeptRowsNone(db, optionsTable, SelectAll(db, tableName));
  }

  // ---------------------------------------------------------------------------------------------
  // create_backup

  /** What `create_backup` reports: the backup's name and text, and the number of tables it lists. */
  datatype BackupResult = BackupResult(filename: string, sqlContent: string, tablesBackedUp: nat)

  /** The four header lines of a backup. */
  function BackupHeader(generatedAt: string, importFilename: string, siteUrl: string): string {
    "-- WordPress Database Backup\n"
    + ("-- Generated: " + generatedAt + "\n")
    + ("-- Backup before import: " + importFilename + "\n")
    + ("-- Target URL: " + siteUrl + "\n\n")
  }

  /**
   * What `get_var("SHOW TABLES LIKE '$t'")` gives: the name itself when the database has that
   * table, and null when it does not, or when a `'` in the name ends the literal early and the
   * query fails.
   */
  function ShowTablesLike(db: Db, tableName: string): Option<string> {
    if '\'' in tableName then None
    else if tableName in ShowTables(db) then Some(tableName)
    else None
  }

  /** The `!$table_exists` test, negated: a value came back and PHP does not read it as false. */
  predicate TableExists(db: Db, tableName: string) {
    ShowTablesLike(db, tableName).Some? && !PhpEmpty(ShowTablesLike(db, tableName).value)
  }

  /** A table passes the existence test exactly when the database has it, it is not named `0`, and its name has no `'`. */
  lemma TableExistsIff(db: Db, tableName: string)
    ensures TableExists(db, tableName)
        <==> tableName in ShowTables(db) && tableName != "" && tableName != "0" && '\'' !in tableName
  {
  }

  /** The block of one table: nothing when the existence test fails or it has no `CREATE TABLE` text. */
  function BackupBlock(db: Db, escape: string -> string, optionsTable: string, tableName: string): string {
    if !TableExists(db, tableName) then ""
    else
      match ShowCreateTable(db, tableName)
      case None => ""
      case Some(create) =>
        ("\n-- Table structure for " + tableName + "\n")
        + ("DROP TABLE IF EXISTS `" + tableName + "`;\n")
        + (create + ";\n\n")
        + BackupTableData(db, escape, optionsTable, tableName)
  }

  /** The blocks of the tables, in order. */
  function BackupBlocks(db: Db, escape: string -> string, optionsTable: string, tables: seq<string>): string
    decreases |tables|
  {
    if tables == [] then ""
    else
      BackupBlocks(db, escape, optionsTable, tables[..|tables| - 1])
      + BackupBlock(db, escape, optionsTable, tables[|tables| - 1])
  }

  /** The tables a backup covers: those the dump creates, each once, in order of first creation. */
  function TablesToBackup(sqlContent: string): seq<string> {
    Unique(CreatedNames(SqlStatements(sqlContent)))
  }

  /** What `create_backup` returns. */
  function BackupOutcome(db: Db, escape: string -> string, optionsTable: string, importFilename: string,
                         sqlContent: string, generatedAt: string, siteUrl: string, written: bool)
    : Result<BackupResult, WpError>
  {
    var tables := TablesToBackup(sqlContent);
    if tables == [] then Err(WpError("no_tables", "No tables found in import file"))
    else if !written then Err(WpError("backup_failed", "Failed to save backup file"))
    else
      Ok(BackupResult(BackupName(importFilename),
        BackupHeader(generatedAt, importFilename, siteUrl) + BackupBlocks(db, escape, optionsTable, tables),
        |tables|))
  }

  /**
   * `create_backup`: the tables the dump creates, then the header and a block per table the
   * database has, saved under the backup name.
   */
  method CreateBackup(db: Db, escape: string -> string, optionsTable: string, importFilename: string,
                      sqlContent: string, generatedAt: string, siteUrl: string, written: bool)
    returns (result: Result<BackupResult, WpError>)
    ensures result == BackupOutcome(db, escape, optionsTable, importFilename, sqlContent, generatedAt, siteUrl, written)
  {
    var backupFilename := ReplaceAll(importFilename, ".sql", "-BAK.sql");
    var tablesToBackup := ExtractTablesFromSql(sqlContent);
    if tablesToBackup == [] {
      return Err(WpError("no_tables", "No tables found in import file"));
    }
    var backupSql := BackupHeader(generatedAt, importFilename, siteUrl);
    var blocks := WriteBlocks(db, escape, optionsTable, tablesToBackup);
    backupSql := backupSql + blocks;
    if !written {
      return Err(WpError("backup_failed", "Failed to save backup file"));
    }
    result := Ok(BackupResult(backupFilename, backupSql, |tablesToBackup|));
  }

  /** The loop of `create_backup` over the tables. */
  method WriteBlocks(db: Db, escape: string -> string, optionsTable: string, tables: seq<string>)
    returns (blocks: string)
    ensures blocks == BackupBlocks(db, escape, optionsTable, tables)
  {
    blocks := "";
    for i := 0 to |tables|
      invariant blocks == BackupBlocks(db, escape, optionsTable, tables[..i])
    {
      var tableName := tables[i];
      assert tables[..i + 1][..i] == tables[..i];
      var tableExists := ShowTablesLike(db, tableName);
      if tableExists.None? || PhpEmpty(tableExists.value) {
        continue;
      }
      var createTable := ShowCreateTable(db, tableName);
      if createTable.Some? {
        ghost var before := blocks;
        var structure := "\n-- Table structure for " + tableName + "\n";
        var drop := "DROP TABLE IF EXISTS `" + tableName + "`;\n";
        var create := createTable.value + ";\n\n";
        blocks := blocks + structure;
        blocks := blocks + drop;
        blocks := blocks + create;
        var data := ExportTableDataForBackup(db, escape, optionsTable, tableName);
        blocks := blocks + data;
        AppendFour(before, structure, drop, create, data);
      }
    }
    assert tables[..|tables|] == tables;
  }

  /** The blocks of two lists of tables are the blocks of each, one after the other. */
  lemma {:induction false} BackupBlocksAppend(db: Db, escape: string -> string, optionsTable: string,
                                              xs: seq<string>, ys: seq<string>)
    ensures BackupBlocks(db, escape, optionsTable, xs + ys)
         == BackupBlocks(db, escape, optionsTable, xs) + BackupBlocks(db, escape, optionsTable, ys)
    decreases |ys|
  {
    if ys == [] {
      assert xs + ys == xs;
    } else {
      var init := ys[..|ys| - 1];
      assert (xs + ys)[..|xs + ys| - 1] == xs + init;
      assert (xs + ys)[|xs + ys| - 1] == ys[|ys| - 1];
      BackupBlocksAppend(db, escape, optionsTable, xs, init);
      AppendAssoc(BackupBlocks(db, escape, optionsTable, xs), BackupBlocks(db, escape, optionsTable, init),
        BackupBlock(db, escape, optionsTable, ys[|ys| - 1]));
    }
  }

  /** A table that fails the existence test leaves no trace in the backup's body. */
  lemma MissingTableSkipped(db: Db, escape: string -> string, optionsTable: string,
                            xs: seq<string>, t: string, ys: seq<string>)
    requires !TableExists(db, t)
    ensures BackupBlocks(db, escape, optionsTable, xs + [t] + ys) == BackupBlocks(db, escape, optionsTable, xs + ys)
  {
    BackupBlocksAppend(db, escape, optionsTable, xs + [t], ys);
    BackupBlocksAppend(db, escape, optionsTable, xs, [t]);
    BackupBlocksAppend(db, escape, optionsTable, xs, ys);
    assert BackupBlock(db, escape, optionsTable, t) == "";
    assert [t][..0] == [];
    assert BackupBlocks(db, escape, optionsTable, [t]) == "";
    assert BackupBlocks(db, escape, optionsTable, xs + [t]) == BackupBlocks(db, escape, optionsTable, xs);
  }

  /**
   * A table the database has, not named `0` or `""` and without `'` in its name, is written as its
   * structure comment, `DROP TABLE`, its `CREATE TABLE` text, and its data.
   */
  lemma ExistingTableWritten(db: Db, escape: string -> string, optionsTable: string, t: string)
    requires t in ShowTables(db) && !PhpEmpty(t) && '\'' !in t
    ensures ShowCreateTable(db, t).Some?
    ensures BackupBlock(db, escape, optionsTable, t)
         == ("\n-- Table structure for " + t + "\n")
          + ("DROP TABLE IF EXISTS `" + t + "`;\n")
          + (ShowCreateTable(db, t).value + ";\n\n")
          + BackupTableData(db, escape, optionsTable, t)
  {
  }

  /** A table named `0` is never written, even when the database has it: PHP reads the name `"0"` as false. */
  lemma ZeroNamedTableSkipped(db: Db, escape: string -> string, optionsTable: string,
                              xs: seq<string>, ys: seq<string>)
    ensures BackupBlocks(db, escape, optionsTable, xs + ["0"] + ys) == BackupBlocks(db, escape, optionsTable, xs + ys)
  {
    MissingTableSkipped(db, escape, optionsTable, xs, "0", ys);
  }

  /** A table whose name holds `'` is never written: the quote breaks the `LIKE` literal and the query fails. */
  lemma QuotedNameSkipped(db: Db, escape: string -> string, optionsTable: string,
                          xs: seq<string>, t: string, ys: seq<string>)
    requires '\'' in t
    ensures BackupBlocks(db, escape, optionsTable, xs + [t] + ys) == BackupBlocks(db, escape, optionsTable, xs + ys)
  {
    MissingTableSkipped(db, escape, optionsTable, xs, t, ys);
  }

  /** No table is backed up exactly when no statement is a `CREATE TABLE`. */
  lemma {:induction false} NothingCreated(statements: seq<string>)
    ensures Unique(CreatedNames(statements)) == []
        <==> forall i :: 0 <= i < |statements| ==> CreateTableName(statements[i]).None?
  {
    if Unique(CreatedNames(statements)) != [] {
      var name := Unique(CreatedNames(statements))[0];
      CreatedNamesAre(statements, name);
    } else {
      forall i | 0 <= i < |statements| ensures CreateTableName(statements[i]).None? {
        if CreateTableName(statements[i]).Some? {
          CreatedNamesAre(statements, CreateTableName(statements[i]).value);
        }
      }
    }
  }

  /**
   * The outcome of `create_backup`: `no_tables` exactly when the dump creates no table; otherwise
   * `backup_failed` when the file cannot be written, and else the backup name and a count of
   * every distinct table the dump creates, whether or not the database has it.
   */
  lemma BackupOutcomes(db: Db, escape: string -> string, optionsTable: string, importFilename: string,
                       sqlContent: string, generatedAt: string, siteUrl: string, written: bool)
    ensures var r := BackupOutcome(db, escape, optionsTable, importFilename, sqlContent, generatedAt, siteUrl, written);
      var statements := SqlStatements(sqlContent);
      && (r == Err(WpError("no_tables", "No tables found in import file"))
          <==> forall i :: 0 <= i < |statements| ==> CreateTableName(statements[i]).None?)
      && (r.Ok? <==> written && r != Err(WpError("no_tables", "No tables found in import file")))
      && (r.Ok? ==> (r.value.filename == BackupName(importFilename)
           && r.value.tablesBackedUp == |Unique(CreatedNames(statements))|))
  {
    NothingCreated(SqlStatements(sqlContent));
  }
}
