/**
 * `import_sql` (includes/class-import.php:340-388): the uploaded dump is stripped of comments,
 * cut at every `;`, trimmed, and executed statement by statement inside one transaction; the first
 * statement the database refuses rolls everything back.
 */
module Importer {
  import opened Wrappers
  import opened Text
  import opened Comments
  import opened Splitter
  import opened Database

  // ---------------------------------------------------------------------------------------------
  // The statements

  /** `array_map('trim', ...)`: one entry per piece. */
  function TrimEach(xs: seq<string>): (r: seq<string>)
    ensures |r| == |xs|
  {
    if xs == [] then [] else [Trim(xs[0])] + TrimEach(xs[1..])
  }

  /** Entry `k` of `array_map('trim', ...)` is piece `k` trimmed. */
  lemma {:induction false} TrimEachAt(xs: seq<string>, k: nat)
    requires k < |xs|
    ensures TrimEach(xs)[k] == Trim(xs[k])
  {
    var all := TrimEach(xs);
    var rest := TrimEach(xs[1..]);
    assert all == [Trim(xs[0])] + rest;
    if k > 0 {
      TrimEachAt(xs[1..], k - 1);
      assert xs[1..][k - 1] == xs[k];
      assert all[k] == rest[k - 1];
    }
  }

  /** `array_filter` without a callback: the strings for which `empty()` is false, in order. */
  function DropEmpty(xs: seq<string>): (r: seq<string>)
    ensures |r| <= |xs|
    ensures forall x :: x in r <==> x in xs && !PhpEmpty(x)
  {
    if xs == [] then []
    else
      assert xs == [xs[0]] + xs[1..];
      (if PhpEmpty(xs[0]) then [] else [xs[0]]) + DropEmpty(xs[1..])
  }

  /** `array_map` works piece by piece: it distributes over `+`. */
  lemma {:induction false} TrimEachAppend(xs: seq<string>, ys: seq<string>)
    ensures TrimEach(xs + ys) == TrimEach(xs) + TrimEach(ys)
  {
    if xs == [] {
      assert xs + ys == ys;
    } else {
      assert (xs + ys)[0] == xs[0] && (xs + ys)[1..] == xs[1..] + ys;
      TrimEachAppend(xs[1..], ys);
      AppendAssoc([Trim(xs[0])], TrimEach(xs[1..]), TrimEach(ys));
    }
  }

  /** `array_filter` works string by string: it distributes over `+`... */
  lemma {:induction false} DropEmptyAppend(xs: seq<string>, ys: seq<string>)
    ensures DropEmpty(xs + ys) == DropEmpty(xs) + DropEmpty(ys)
  {
    if xs == [] {
      assert xs + ys == ys;
    } else {
      assert (xs + ys)[0] == xs[0] && (xs + ys)[1..] == xs[1..] + ys;
      DropEmptyAppend(xs[1..], ys);
      AppendAssoc(if PhpEmpty(xs[0]) then [] else [xs[0]], DropEmpty(xs[1..]), DropEmpty(ys));
    }
  }

  /** ... and keeps one string exactly when it is not `empty()`. */
  lemma DropEmptySingleton(x: string)
    ensures DropEmpty([x]) == if PhpEmpty(x) then [] else [x]
  {
    assert [x][1..] == [];
  }

  /**
   * The statements the `foreach` of `import_sql` sends, by an independent one-pass reading: each
   * `;`-separated piece in order, trimmed, unless the trimmed piece is `empty()`.
   */
  function TrimmedStatements(pieces: seq<string>): seq<string> {
    if pieces == [] then []
    else (if PhpEmpty(Trim(pieces[0])) then [] else [Trim(pieces[0])]) + TrimmedStatements(pieces[1..])
  }

  /** `array_filter(array_map('trim', ...))` sends the pieces in order, once each, as the one-pass reading does. */
  lemma {:induction false} KeptInOrder(pieces: seq<string>)
    ensures DropEmpty(TrimEach(pieces)) == TrimmedStatements(pieces)
  {
    if pieces != [] {
      var head := [Trim(pieces[0])];
      DropEmptyAppend(head, TrimEach(pieces[1..]));
      DropEmptySingleton(Trim(pieces[0]));
      KeptInOrder(pieces[1..]);
    }
  }

  /** The statements `import_sql` executes: both comment passes, `explode(';')`, `trim`, `array_filter`. */
  function ImportQueries(sql: string): seq<string> {
    DropEmpty(TrimEach(Explode(StripComments(sql), ';')))
  }

  /** `trim()` only removes bytes, so it cannot introduce one. */
  lemma TrimAbsent(s: string, c: char)
    requires c !in s
    ensures c !in Trim(s)
  {
    var l := TrimLeft(s);
    var r := TrimRight(l);
    assert Trim(s) == r;
    forall i | 0 <= i < |r| ensures r[i] != c {
      assert r[i] == l[i];
      assert l[i] == s[|s| - |l| + i];
    }
  }

  /**
   * Every executed statement is trimmed, not `empty()`, and holds no `;`; and the executed
   * statements are exactly the trimmed `;`-separated pieces of the comment-stripped text that are
   * not `empty()`.
   */
  lemma ImportQueriesShape(sql: string)
    ensures forall q :: q in ImportQueries(sql) ==> Trim(q) == q && !PhpEmpty(q) && ';' !in q
    ensures forall q :: q in ImportQueries(sql) <==> !PhpEmpty(q) && TrimOfPiece(q, Explode(StripComments(sql), ';'))
    ensures ImportQueries(sql) == TrimmedStatements(Explode(StripComments(sql), ';'))
  {
    var pieces := Explode(StripComments(sql), ';');
    assert ImportQueries(sql) == DropEmpty(TrimEach(pieces));
    KeptInOrder(pieces);
    TrimmedPieces(pieces);
    KeptPieces(pieces);
  }

  /** `q` is one of the pieces, trimmed. */
  predicate TrimOfPiece(q: string, pieces: seq<string>) {
    exists k :: 0 <= k < |pieces| && q == Trim(pieces[k])
  }

  /** The kept pieces are trimmed, not `empty()`, and hold no `;`. */
  lemma TrimmedPieces(pieces: seq<string>)
    requires forall k :: 0 <= k < |pieces| ==> ';' !in pieces[k]
    ensures forall q :: q in DropEmpty(TrimEach(pieces)) ==> Trim(q) == q && !PhpEmpty(q) && ';' !in q
  {
    var trimmed := TrimEach(pieces);
    forall q | q in DropEmpty(trimmed) ensures Trim(q) == q && ';' !in q {
      var k :| 0 <= k < |trimmed| && trimmed[k] == q;
      TrimEachAt(pieces, k);
      TrimIdempotent(pieces[k]);
      TrimAbsent(pieces[k], ';');
    }
  }

  /** The kept pieces are exactly the trimmed pieces that are not `empty()`. */
  lemma KeptPieces(pieces: seq<string>)
    ensures forall q :: q in DropEmpty(TrimEach(pieces)) <==> !PhpEmpty(q) && TrimOfPiece(q, pieces)
  {
    var trimmed := TrimEach(pieces);
    forall q | q in DropEmpty(trimmed) ensures TrimOfPiece(q, pieces) {
      var k :| 0 <= k < |trimmed| && trimmed[k] == q;
      TrimEachAt(pieces, k);
    }
    forall q | !PhpEmpty(q) && TrimOfPiece(q, pieces)
      ensures q in DropEmpty(trimmed)
    {
      var k :| 0 <= k < |pieces| && q == Trim(pieces[k]);
      TrimEachAt(pieces, k);
      assert trimmed[k] == q;
    }
  }

  // ---------------------------------------------------------------------------------------------
  // Counting

  /** `preg_match('/^CREATE TABLE/i', $query)`. */
  predicate IsCreateTableQuery(q: string) {
    StartsWithIgnoreCase(q, "CREATE TABLE")
  }

  /** `preg_match('/^INSERT INTO/i', $query)`. */
  predicate IsInsertQuery(q: string) {
    StartsWithIgnoreCase(q, "INSERT INTO")
  }

  /** `tables_processed` after the statements `qs`: one per `CREATE TABLE`. */
  function CreateCount(qs: seq<string>): nat
    decreases |qs|
  {
    if qs == [] then 0
    else CreateCount(qs[..|qs| - 1]) + (if IsCreateTableQuery(qs[|qs| - 1]) then 1 else 0)
  }

  /** `rows_imported` after the statements `qs`: one per `INSERT INTO` statement, whatever its row count. */
  function InsertCount(qs: seq<string>): nat
    decreases |qs|
  {
    if qs == [] then 0
    else
      var q := qs[|qs| - 1];
      InsertCount(qs[..|qs| - 1]) + (if !IsCreateTableQuery(q) && IsInsertQuery(q) then 1 else 0)
  }

  /**
   * Each statement is counted at most once, and the two counters together count every statement
   * exactly when each of them is a `CREATE TABLE` or an `INSERT INTO`.
   */
  lemma {:induction false} CountsCoverStatements(qs: seq<string>)
    ensures CreateCount(qs) + InsertCount(qs) <= |qs|
    ensures CreateCount(qs) + InsertCount(qs) == |qs|
        <==> forall k :: 0 <= k < |qs| ==> IsCreateTableQuery(qs[k]) || IsInsertQuery(qs[k])
    decreases |qs|
  {
    if qs != [] {
      var init := qs[..|qs| - 1];
      CountsCoverStatements(init);
      assert forall k :: 0 <= k < |init| ==> init[k] == qs[k];
    }
  }

  // ---------------------------------------------------------------------------------------------
  // Executing

  /** How a run of statements ends: all accepted, leaving a database, or refused at `index`. */
  datatype Replayed = Completed(db: Db) | Stopped(index: nat, message: string)

  /** The statements `qs` executed one after the other from `db`, up to the first one refused. */
  function ReplayQueries(engine: Engine, db: Db, qs: seq<string>): (r: Replayed)
    ensures r.Stopped? ==> r.index < |qs|
    decreases |qs|
  {
    if qs == [] then Completed(db)
    else match ReplayQueries(engine, db, qs[..|qs| - 1])
      case Stopped(k, m) => Stopped(k, m)
      case Completed(d) =>
        match engine(d, qs[|qs| - 1])
        case Done(d') => Completed(d')
        case Failed(m) => Stopped(|qs| - 1, m)
  }

  /** One more statement after an accepted prefix. */
  lemma ReplayStep(engine: Engine, db: Db, qs: seq<string>, i: nat)
    requires i < |qs| && ReplayQueries(engine, db, qs[..i]).Completed?
    ensures var d := ReplayQueries(engine, db, qs[..i]).db;
      ReplayQueries(engine, db, qs[..i + 1])
        == match engine(d, qs[i]) case Done(d') => Completed(d') case Failed(m) => Stopped(i, m)
  {
    assert qs[..i + 1][..i] == qs[..i];
  }

  /** Once a statement is refused, the statements after it do not matter. */
  lemma {:induction false} StoppedStays(engine: Engine, db: Db, qs: seq<string>, i: nat)
    requires i <= |qs| && ReplayQueries(engine, db, qs[..i]).Stopped?
    ensures ReplayQueries(engine, db, qs) == ReplayQueries(engine, db, qs[..i])
    decreases |qs|
  {
    if i == |qs| {
      assert qs[..i] == qs;
    } else {
      var init := qs[..|qs| - 1];
      assert init[..i] == qs[..i];
      StoppedStays(engine, db, init, i);
    }
  }

  /**
   * A run stops at statement `k` with message `m` exactly when the statements before `k` were all
   * accepted and the database refused statement `k` with `m`.
   */
  lemma {:induction false} StopsAtFirstRefusal(engine: Engine, db: Db, qs: seq<string>, k: nat, m: string)
    ensures ReplayQueries(engine, db, qs) == Stopped(k, m)
        <==> (k < |qs| && ReplayQueries(engine, db, qs[..k]).Completed?
              && engine(ReplayQueries(engine, db, qs[..k]).db, qs[k]) == Failed(m))
    decreases |qs|
  {
    if k < |qs| && ReplayQueries(engine, db, qs[..k]).Completed?
      && engine(ReplayQueries(engine, db, qs[..k]).db, qs[k]) == Failed(m)
    {
      ReplayStep(engine, db, qs, k);
      StoppedStays(engine, db, qs, k + 1);
    }
    if ReplayQueries(engine, db, qs) == Stopped(k, m) {
      var init := qs[..|qs| - 1];
      if ReplayQueries(engine, db, init).Stopped? {
        StopsAtFirstRefusal(engine, db, init, k, m);
        assert init[..k] == qs[..k] && init[k] == qs[k];
      } else {
        assert init == qs[..k];
      }
    }
  }

  /** What `import_sql` returns on success. */
  datatype ImportSummary = ImportSummary(tablesProcessed: nat, rowsImported: nat, errors: seq<string>)

  /**
   * What the transaction leaves after running `queries` from database `db0` with `sent0` already
   * sent: when every statement is accepted, the database they lead to, the counters, and the
   * statements followed by `COMMIT`; at the first refused statement `k`, the database as it was,
   * an `import_failed` error carrying the database's message, and the statements up to `k`
   * followed by `ROLLBACK`.
   */
  predicate TransactionOutcome(engine: Engine, db0: Db, sent0: seq<string>, queries: seq<string>,
                               db: Db, sent: seq<string>, result: Result<ImportSummary, WpError>) {
    match ReplayQueries(engine, db0, queries)
    case Completed(d) =>
      && db == d
      && result == Ok(ImportSummary(CreateCount(queries), InsertCount(queries), []))
      && sent == sent0 + ["START TRANSACTION"] + queries + ["COMMIT"]
    case Stopped(k, message) =>
      && db == db0
      && result == Err(WpError("import_failed", "SQL Error: " + message))
      && sent == sent0 + ["START TRANSACTION"] + queries[..k + 1] + ["ROLLBACK"]
  }

  /** The counters after one more statement. */
  lemma CountStep(qs: seq<string>, i: nat)
    requires i < |qs|
    ensures CreateCount(qs[..i + 1]) == CreateCount(qs[..i]) + (if IsCreateTableQuery(qs[i]) then 1 else 0)
    ensures InsertCount(qs[..i + 1])
        == InsertCount(qs[..i]) + (if !IsCreateTableQuery(qs[i]) && IsInsertQuery(qs[i]) then 1 else 0)
  {
    assert qs[..i + 1][..i] == qs[..i];
  }

  /** The statements sent after one more statement. */
  lemma SentStep(prefix: seq<string>, qs: seq<string>, i: nat)
    requires i < |qs|
    ensures prefix + qs[..i] + [qs[i]] == prefix + qs[..i + 1]
  {
    assert qs[..i + 1] == qs[..i] + [qs[i]];
  }

  /**
   * The transaction of `import_sql` (lines 356-387) over the statement list `queries`:
   * `START TRANSACTION`, each statement in order, then `COMMIT` and the counters; at the first
   * refused statement, `ROLLBACK` and the error. The refusal's message is read into the error
   * before `ROLLBACK`, whose own query clears `$wpdb->last_error`, as `COMMIT` does on success.
   */
  method RunInTransaction(conn: Connection, engine: Engine, queries: seq<string>)
    returns (result: Result<ImportSummary, WpError>)
    modifies conn
    ensures TransactionOutcome(engine, old(conn.db), old(conn.sent), queries, conn.db, conn.sent, result)
    ensures conn.snapshot == None
    ensures conn.lastError == ""
  {
    ghost var db0 := conn.db;
    ghost var sent0 := conn.sent;
    var results := ImportSummary(0, 0, []);
    conn.StartTransaction();
    var i := 0;
    while i < |queries|
      invariant 0 <= i <= |queries|
      invariant conn.snapshot == Some(db0)
      invariant ReplayQueries(engine, db0, queries[..i]) == Completed(conn.db)
      invariant results == ImportSummary(CreateCount(queries[..i]), InsertCount(queries[..i]), [])
      invariant conn.sent == sent0 + ["START TRANSACTION"] + queries[..i]
      invariant conn.lastError == ""
    {
      var query := queries[i];
      ReplayStep(engine, db0, queries, i);
      CountStep(queries, i);
      SentStep(sent0 + ["START TRANSACTION"], queries, i);
      var ok := conn.Query(engine, query);
      if !ok {
        var message := "SQL Error: " + conn.lastError;
        StopsAtFirstRefusal(engine, db0, queries, i, conn.lastError);
        conn.Rollback();
        result := Err(WpError("import_failed", message));
        return;
      }
      if IsCreateTableQuery(query) {
        results := results.(tablesProcessed := results.tablesProcessed + 1);
      } else if IsInsertQuery(query) {
        results := results.(rowsImported := results.rowsImported + 1);
      }
      i := i + 1;
    }
    assert queries[..i] == queries;
    conn.Commit();
    result := Ok(results);
  }

  /**
   * `import_sql`: the statements of `ImportQueries` run in one transaction. (The `empty()` test
   * inside the loop never fires: `array_filter` has already removed those statements.)
   */
  method ImportSql(conn: Connection, engine: Engine, sqlContent: string)
    returns (result: Result<ImportSummary, WpError>)
    modifies conn
    ensures TransactionOutcome(engine, old(conn.db), old(conn.sent), ImportQueries(sqlContent), conn.db, conn.sent, result)
    ensures conn.snapshot == None && conn.lastError == ""
  {
    var text := StripLineComments(sqlContent);
    text := StripBlockComments(text);
    var queries := Explode(text, ';');
    queries := DropEmpty(TrimEach(queries));
    result := RunInTransaction(conn, engine, queries);
  }

  /**
   * A failed import changes nothing and reports the refusal; a successful one leaves exactly the
   * database the statements lead to.
   */
  lemma AllOrNothing(engine: Engine, db0: Db, sent0: seq<string>, queries: seq<string>,
                     db: Db, sent: seq<string>, result: Result<ImportSummary, WpError>)
    requires TransactionOutcome(engine, db0, sent0, queries, db, sent, result)
    ensures result.Err? <==> ReplayQueries(engine, db0, queries).Stopped?
    ensures result.Err? ==> db == db0 && result.error.code == "import_failed" && sent[|sent| - 1] == "ROLLBACK"
    ensures result.Ok? ==> db == ReplayQueries(engine, db0, queries).db && sent[|sent| - 1] == "COMMIT"
    ensures result.Ok? ==> result.value.tablesProcessed + result.value.rowsImported <= |queries|
  {
    CountsCoverStatements(queries);
  }

  // ---------------------------------------------------------------------------------------------
  // A `;` inside a quoted value

  /** A one-row, one-value `INSERT` of a quoted string: `p('value');`. */
  function QuotedInsert(p: string, value: string): string {
    p + "('" + value + "');"
  }

  /** What the statement before the value may be: no quote, parenthesis, backslash, `;` or comment mark. */
  predicate PlainPrefix(p: string) {
    p != [] && !IsTrimChar(p[0]) && Plain(p) && ';' !in p && '-' !in p && '/' !in p
  }

  /**
   * `explode(';')` does not know about quotes: an `INSERT` such as `INSERT INTO t VALUES ('a;b');`
   * is cut inside its value, and `import_sql` sends the broken fragment `INSERT INTO t VALUES ('a`
   * to the database.
   */
  lemma ImportCutsQuotedSemicolon(p: string)
    requires PlainPrefix(p)
    ensures ImportQueries(QuotedInsert(p, "a;b")) == [p + "('a", "b')"]
  {
    OpenValueHalf(p);
    CloseValueHalf();
    ImportCutsAtEverySemicolon(p + "('a", "b')");
  }

  /** The text up to the `;` in the value: trimmed, not `empty()`, with no `;` or comment mark. */
  lemma OpenValueHalf(p: string)
    requires PlainPrefix(p)
    ensures var x := p + "('a";
      && QuotedInsert(p, "a;b") == x + ";" + "b')" + ";"
      && ';' !in x && '-' !in x && '/' !in x && Trim(x) == x && !PhpEmpty(x)
  {
    var x := p + "('a";
    forall i | 0 <= i < |x| ensures x[i] != ';' && x[i] != '-' && x[i] != '/' {
      if i < |p| {
        assert x[i] == p[i];
      }
    }
    assert x[0] == p[0] && x[|x| - 1] == 'a';
    TrimmedAlready(x);
  }

  /** The text after the `;` in the value: trimmed, not `empty()`, with no `;` or comment mark. */
  lemma CloseValueHalf()
    ensures var y := "b')";
      ';' !in y && '-' !in y && '/' !in y && Trim(y) == y && !PhpEmpty(y)
  {
    CloseHalfUnmarked();
    TrimmedAlready("b')");
  }

  /** The text after the `;` holds no `;` or comment mark. */
  lemma CloseHalfUnmarked()
    ensures var y := "b')"; ';' !in y && '-' !in y && '/' !in y
  {
    var y := "b')";
    assert |y| == 3 && y[0] == 'b' && y[1] == '\'' && y[2] == ')';
    forall i | 0 <= i < |y| ensures y[i] != ';' && y[i] != '-' && y[i] != '/' {
    }
  }

  /** Two `;`-terminated pieces without comment marks are executed as two statements, without their `;`. */
  lemma ImportCutsAtEverySemicolon(x: string, y: string)
    requires ';' !in x && '-' !in x && '/' !in x && Trim(x) == x && !PhpEmpty(x)
    requires ';' !in y && '-' !in y && '/' !in y && Trim(y) == y && !PhpEmpty(y)
    ensures ImportQueries(x + ";" + y + ";") == [x, y]
  {
    var s := x + ";" + y + ";";
    assert '-' !in s && '/' !in s;
    assert StripComments(s) == s;
    ExplodeTwo(x, y);
    KeepTwo(x, y);
  }

  /** `explode` of two `;`-terminated pieces: the pieces and an empty tail. */
  lemma ExplodeTwo(x: string, y: string)
    requires ';' !in x && ';' !in y
    ensures Explode(x + ";" + y + ";", ';') == [x, y, []]
  {
    assert x + ";" + y + ";" == x + [';'] + (y + [';'] + []);
    ExplodeCut(x, y + [';'] + [], ';');
    ExplodeCut(y, [], ';');
    assert Explode([], ';') == [[]];
  }

  /** Trimmed pieces that are not `empty()` survive `trim` and `array_filter`; the empty tail does not. */
  lemma KeepTwo(x: string, y: string)
    requires Trim(x) == x && !PhpEmpty(x) && Trim(y) == y && !PhpEmpty(y)
    ensures DropEmpty(TrimEach([x, y, []])) == [x, y]
  {
    var pieces: seq<string> := [x, y, []];
    KeptInOrder(pieces);
    var last: seq<string> := [[]];
    assert pieces[1..] == [y] + last && last[1..] == [];
    assert Trim(last[0]) == [];
    assert TrimmedStatements(last) == [];
    assert TrimmedStatements([y] + last) == [y];
  }

  /** `explode` cuts at the first delimiter when the text before it has none. */
  lemma ExplodeCut(x: string, y: string, c: char)
    requires c !in x
    ensures Explode(x + [c] + y, c) == [x] + Explode(y, c)
  {
    IndexOfAfter(x, y, c);
    assert (x + [c] + y)[..|x|] == x;
    assert (x + [c] + y)[|x| + 1..] == y;
  }

  /** The first delimiter of `x + [c] + y` is the one after `x`, when `x` has none. */
  lemma {:induction false} IndexOfAfter(x: string, y: string, c: char)
    requires c !in x
    ensures IndexOf(x + [c] + y, c) == Some(|x|)
    decreases |x|
  {
    if x != [] {
      NotInTail(x, c);
      assert (x + [c] + y)[1..] == x[1..] + [c] + y;
      IndexOfAfter(x[1..], y, c);
    }
  }

  /**
   * The import with `split_sql`'s statements instead of `explode`'s pieces: the splitter that
   * the preview already uses, which does not cut inside quoted values.
   */
  method ImportSqlSplit(conn: Connection, engine: Engine, sqlContent: string)
    returns (result: Result<ImportSummary, WpError>)
    modifies conn
    ensures TransactionOutcome(engine, old(conn.db), old(conn.sent), SqlStatements(sqlContent), conn.db, conn.sent, result)
    ensures conn.snapshot == None && conn.lastError == ""
  {
    var queries := SplitSql(sqlContent);
    result := RunInTransaction(conn, engine, queries);
  }

  /**
   * With `split_sql`, an `INSERT` of one quoted value (without its quote or a backslash inside,
   * and no comment marks anywhere) is executed whole, whatever `;` the value holds.
   */
  lemma SplitKeepsQuotedValue(p: string, q: char, b: string)
    requires Plain(p) && ';' !in p && '-' !in p && '/' !in p
    requires IsQuote(q) && forall i :: 0 <= i < |b| ==> b[i] != q && b[i] != '\\' && b[i] != '-' && b[i] != '/'
    ensures var s := p + "(" + [q] + b + [q] + ");";
      SqlStatements(s) == [Trim(s)]
  {
    var s := p + "(" + [q] + b + [q] + ");";
    assert '-' !in s && '/' !in s;
    assert StripComments(s) == s;
    GroupPieces(p, q, b);
    SqlStatementsArePieces(s);
    StatementWithSemicolon(s);
  }

  /** The pieces of a plain prefix, a parenthesised quoted value and `;`: the whole text, then nothing. */
  lemma GroupPieces(p: string, q: char, b: string)
    requires Plain(p) && ';' !in p
    requires IsQuote(q) && forall i :: 0 <= i < |b| ==> b[i] != q && b[i] != '\\'
    ensures var s := p + "(" + [q] + b + [q] + ");";
      Pieces(Start, s) == [s, []]
  {
    var inner := Lex(false, "", false, 1);
    var m := [q] + b + [q] + ");";
    CloseGroupCuts(inner);
    QuotedLiteralGlues(inner, q, b, ");");
    OpenGroupGlues(m);
    PlainInert(Start, p);
    assert IndexOf(p, ';').None?;
    GlueOnto(Start, p, "(" + m, "(" + m, [[]]);
    GroupRegroup(p, q, b);
  }

  /** `p + "(" + [q] + b + [q] + ");"` grouped from the right. */
  lemma GroupRegroup(p: string, q: char, b: string)
    ensures p + "(" + [q] + b + [q] + ");" == p + ("(" + ([q] + b + [q] + ");"))
  {
    var m := [q] + b + [q] + ");";
    AppendAssoc(p + "(" + [q] + b, [q], ");");
    AppendAssoc(p + "(" + [q], b, [q] + ");");
    AppendAssoc(p + "(", [q], b + ([q] + ");"));
    AppendAssoc(p, "(", [q] + (b + ([q] + ");")));
    AppendAssoc([q] + b, [q], ");");
    AppendAssoc([q], b, [q] + ");");
  }

  /** From depth 1, `);` closes the group and ends the statement. */
  lemma CloseGroupCuts(l: Lex)
    requires l == Lex(false, "", false, 1)
    ensures Pieces(l, ");") == [");", []]
  {
    assert LexStep(l, ')') == Start;
    PiecesCons(l, ");");
    PiecesCut(Start, ";");
    assert ";"[1..] == [];
    assert Pieces(Start, []) == [[]];
    assert ");"[0] == ')' && ");"[1..] == ";" && [')'] + ";" == ");";
  }

  /** An opening parenthesis is glued to the text after it, which is read at depth 1. */
  lemma OpenGroupGlues(t: string)
    requires Pieces(Lex(false, "", false, 1), t) == [t, []]
    ensures Pieces(Start, "(" + t) == ["(" + t, []]
  {
    assert FirstCut(Start, "(").None?;
    assert LexRun(Start, "(") == Lex(false, "", false, 1);
    PiecesGlue(Start, "(", t);
  }

  /** A statement ending with `;` is kept whole: trimmed, it is neither `empty()` nor blank. */
  lemma StatementWithSemicolon(s: string)
    requires s != [] && s[|s| - 1] == ';'
    ensures Clean([s, []]) == [Trim(s)]
  {
    KeptWhole(s);
    CleanWithEmptyTail(s);
  }

  /** A piece ending with `;` becomes exactly its trimmed self. */
  lemma KeptWhole(s: string)
    requires s != [] && s[|s| - 1] == ';'
    ensures CleanOne(s) == [Trim(s)]
  {
    TrimKeepsLast(s);
    TrimIdempotent(s);
    EndsWithSemicolonKept(Trim(s));
  }

  /** A text ending with `;` is neither blank nor `empty()`. */
  lemma EndsWithSemicolonKept(t: string)
    requires t != [] && t[|t| - 1] == ';'
    ensures !IsBlank(t) && !PhpEmpty(t)
  {
    assert !IsSpace(t[|t| - 1]);
  }

  /** An empty last piece adds no statement. */
  lemma CleanWithEmptyTail(s: string)
    ensures Clean([s, []]) == CleanOne(s)
  {
    assert [s, []][0] == s && [s, []][1..] == [[]];
    var tail: seq<string> := [[]];
    assert tail[0] == [] && tail[1..] == [];
    assert Clean(tail) == CleanOne([]) + Clean([]);
    assert CleanOne([]) == [];
  }

  /** The `INSERT` that `import_sql` cuts in two is one statement for `split_sql`. */
  lemma SplitKeepsQuotedSemicolon(p: string)
    requires PlainPrefix(p)
    ensures SqlStatements(QuotedInsert(p, "a;b")) == [QuotedInsert(p, "a;b")]
  {
    var b := "a;b";
    assert forall i :: 0 <= i < |b| ==> b[i] != '\'' && b[i] != '\\' && b[i] != '-' && b[i] != '/';
    SplitKeepsQuotedValue(p, '\'', b);
    QuoteRegroup(p, b);
    InsertIsTrimmed(p, b);
  }

  /** An `INSERT` that starts with a non-blank byte is its own `trim()`. */
  lemma InsertIsTrimmed(p: string, b: string)
    requires p != [] && !IsTrimChar(p[0])
    ensures Trim(QuotedInsert(p, b)) == QuotedInsert(p, b)
  {
    var x := p + "('" + b;
    assert x[0] == p[0];
    EndsOf(x, "');");
    TrimmedAlready(QuotedInsert(p, b));
  }

  /** The same text, grouped as `SplitKeepsQuotedValue` reads it. */
  lemma QuoteRegroup(p: string, b: string)
    ensures p + "(" + ['\''] + b + ['\''] + ");" == QuotedInsert(p, b)
  {
    assert "(" + ['\''] == "('";
    assert ['\''] + ");" == "');";
    AppendAssoc(p + "(" + ['\''] + b, ['\''], ");");
  }

  /** The first and last bytes of a concatenation. */
  lemma EndsOf(x: string, y: string)
    requires x != [] && y != []
    ensures (x + y)[0] == x[0] && (x + y)[|x + y| - 1] == y[|y| - 1]
  {
  }
}
