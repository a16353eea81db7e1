/**
 * The database as the plugin sees it through WordPress's `$wpdb`: tables with their
 * `CREATE TABLE` text and their rows, the few read queries the plugin issues
 * (`SHOW TABLES`, `SHOW CREATE TABLE`, `SELECT *`, `SELECT COUNT(*)`), and a connection on
 * which statements are executed inside a transaction.
 *
 * What a statement does to the data is not modelled: an `Engine` function, given to the
 * methods that execute statements, says for each statement whether it succeeds and, if so,
 * the database it leaves.
 */
module Database {
  import opened Wrappers

  /** A column value as `$wpdb` returns it: SQL `NULL` or a string. */
  datatype Value = Null | Str(s: string)

  /** A row as `ARRAY_A` returns it: column names with their values, in column order. */
  type Row = seq<(string, Value)>

  /** A table: its physical name, the text `SHOW CREATE TABLE` gives, and its rows in order. */
  datatype Table = Table(name: string, create: string, rows: seq<Row>)

  /** The tables of the database, in the order `SHOW TABLES` lists them. */
  datatype Db = Db(tables: seq<Table>)

  /** What one statement does: it succeeds and leaves a database, or fails with the engine's message. */
  datatype Outcome = Done(db: Db) | Failed(message: string)

  /** WordPress's `WP_Error`: an error code and a message. */
  datatype WpError = WpError(code: string, message: string)

  /** The SQL engine's behaviour on one statement. */
  type Engine = (Db, string) -> Outcome

  /** `SHOW TABLES`: the physical table names, in order. */
  function ShowTables(db: Db): (r: seq<string>)
    ensures |r| == |db.tables|
    ensures forall i :: 0 <= i < |r| ==> r[i] == db.tables[i].name
  {
    seq(|db.tables|, i requires 0 <= i < |db.tables| => db.tables[i].name)
  }

  /** The first table named `name`. */
  function FindTable(tables: seq<Table>, name: string): (r: Option<Table>)
    ensures r.Some? ==> r.value in tables && r.value.name == name
    ensures r.None? <==> forall i :: 0 <= i < |tables| ==> tables[i].name != name
  {
    if tables == [] then None
    else if tables[0].name == name then Some(tables[0])
    else FindTable(tables[1..], name)
  }

  /** `SHOW CREATE TABLE`: the second column of its row, or no row when the table does not exist. */
  function ShowCreateTable(db: Db, name: string): (r: Option<string>)
    ensures r.Some? <==> name in ShowTables(db)
  {
    match FindTable(db.tables, name)
    case None => None
    case Some(t) => Some(t.create)
  }

  /** `SELECT *`: the rows of the table, none when it does not exist. */
  function SelectAll(db: Db, name: string): (r: seq<Row>)
    ensures name !in ShowTables(db) ==> r == []
  {
    match FindTable(db.tables, name)
    case None => []
    case Some(t) => t.rows
  }

  /** `SELECT COUNT(*)`: the number of rows `SELECT *` returns. */
  function CountRows(db: Db, name: string): nat {
    |SelectAll(db, name)|
  }

  /**
   * A connection: the current database, the state saved by `START TRANSACTION`, the message
   * `$wpdb->last_error` holds, and every statement sent so far.
   */
  class Connection {
    var db: Db
    var snapshot: Option<Db>
    var lastError: string
    var sent: seq<string>

    constructor(db0: Db)
      ensures db == db0 && snapshot == None && lastError == "" && sent == []
    {
      db := db0;
      snapshot := None;
      lastError := "";
      sent := [];
    }

    /**
     * `START TRANSACTION`: the current database becomes the state a rollback returns to. Like
     * every `$wpdb->query`, it first clears `last_error`.
     */
    method StartTransaction()
      modifies this
      ensures db == old(db) && snapshot == Some(old(db)) && lastError == ""
      ensures sent == old(sent) + ["START TRANSACTION"]
    {
      lastError := "";
      snapshot := Some(db);
      sent := sent + ["START TRANSACTION"];
    }

    /** `COMMIT`: the changes stay, the saved state is dropped and `last_error` is cleared. */
    method Commit()
      modifies this
      ensures db == old(db) && snapshot == None && lastError == ""
      ensures sent == old(sent) + ["COMMIT"]
    {
      lastError := "";
      snapshot := None;
      sent := sent + ["COMMIT"];
    }

    /**
     * `ROLLBACK`: the database returns to the state saved by `START TRANSACTION`, and `last_error`
     * is cleared. The restore is idealised: MySQL's implicit commit at DDL statements is not
     * modelled.
     */
    method Rollback()
      modifies this
      ensures db == (if old(snapshot).Some? then old(snapshot).value else old(db))
      ensures snapshot == None && lastError == ""
      ensures sent == old(sent) + ["ROLLBACK"]
    {
      lastError := "";
      if snapshot.Some? {
        db := snapshot.value;
      }
      snapshot := None;
      sent := sent + ["ROLLBACK"];
    }

    /**
     * `$wpdb->query($q)`: true and the new database when the engine accepts the statement;
     * false, the database unchanged and the engine's message in `lastError` when it does not.
     */
    method Query(engine: Engine, q: string) returns (ok: bool)
      modifies this
      ensures ok <==> engine(old(db), q).Done?
      ensures db == (if ok then engine(old(db), q).db else old(db))
      ensures lastError == (if ok then "" else engine(old(db), q).message)
      ensures snapshot == old(snapshot) && sent == old(sent) + [q]
    {
      sent := sent + [q];
      match engine(db, q)
      case Done(db') =>
        db := db';
        lastError := "";
        ok := true;
      case Failed(message) =>
        lastError := message;
        ok := false;
    }
  }
}
