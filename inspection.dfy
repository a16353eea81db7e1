/**
 * Reading a dump before it is imported (includes/class-import.php): the preview that counts the
 * rows of each table, and the list of tables a dump creates, both over the statements
 * `split_sql` returns.
 *
 * The two patterns the code matches, `^CREATE\s+TABLE\s+`name`` and `^INSERT\s+INTO\s+`name``
 * (case-insensitive), are matched by hand: both keywords, each followed by at least one PCRE
 * white-space byte, then a backtick, one or more bytes other than a backtick (the table name),
 * and a closing backtick.
 */
module Inspection {
  import opened Wrappers
  import opened Text
  import opened Splitter

  // ---------------------------------------------------------------------------------------------
  // The two patterns

  /** The number of white-space bytes `s` starts with (a greedy `\s*`). */
  function SpaceRun(s: string): (n: nat)
    ensures n <= |s|
    decreases |s|
  {
    if s != [] && IsSpace(s[0]) then 1 + SpaceRun(s[1..]) else 0
  }

  /** Every byte of `s` is white space. */
  predicate Blank(s: string)
    decreases |s|
  {
    s == [] || (IsSpace(s[0]) && Blank(s[1..]))
  }

  /** `Blank` is `Text.IsBlank` written recursively, which the proofs here unfold more cheaply. */
  lemma {:induction false} BlankIsBlank(s: string)
    ensures Blank(s) <==> IsBlank(s)
    decreases |s|
  {
    if s != [] {
      BlankIsBlank(s[1..]);
      assert forall i :: 0 < i < |s| ==> s[1..][i - 1] == s[i];
    }
  }

  /** `SpaceRun` covers white space only and stops at the first byte that is not white space. */
  lemma {:induction false} SpaceRunSpans(s: string)
    ensures Blank(s[..SpaceRun(s)])
    ensures SpaceRun(s) < |s| ==> !IsSpace(s[SpaceRun(s)])
    decreases |s|
  {
    if s != [] && IsSpace(s[0]) {
      SpaceRunSpans(s[1..]);
      var n := SpaceRun(s);
      assert s[..n][1..] == s[1..][..n - 1];
    }
  }

  /** A run of white space that ends before a byte that is not white space has exactly that length. */
  lemma {:induction false} SpaceRunExact(s: string, n: nat)
    requires n < |s| && !IsSpace(s[n]) && Blank(s[..n])
    ensures SpaceRun(s) == n
    decreases n
  {
    if n > 0 {
      assert s[..n][1..] == s[1..][..n - 1];
      SpaceRunExact(s[1..], n - 1);
    }
  }

  /** `kw` at the start of `s`, in any letter case (PCRE's `/i` on ASCII letters). */
  predicate KeywordAt(s: string, kw: string)
    ensures KeywordAt(s, kw) ==> |kw| <= |s|
    decreases |kw|, |s|
  {
    kw == [] || (s != [] && ToLowerChar(s[0]) == ToLowerChar(kw[0]) && KeywordAt(s[1..], kw[1..]))
  }

  /** A backtick, a non-empty run of bytes other than a backtick, and a backtick: the run. */
  function BacktickName(s: string): Option<string> {
    if s == [] || s[0] != '`' then None
    else
      match IndexOf(s[1..], '`')
      case None => None
      case Some(j) => if j == 0 then None else Some(s[1..1 + j])
  }

  /**
   * `preg_match` of `^kw1\s+kw2\s+…`([^`]+)`` with `/i`: each keyword in turn, in any letter case,
   * followed by at least one white-space byte, then `` `name` ``; the captured name, or no match.
   */
  function MatchAfter(s: string, keywords: seq<string>): Option<string>
    decreases |keywords|, |s|
  {
    if keywords == [] then BacktickName(s)
    else if !KeywordAt(s, keywords[0]) then None
    else
      var rest := s[|keywords[0]|..];
      var n := SpaceRun(rest);
      if n == 0 then None else MatchAfter(rest[n..], keywords[1..])
  }

  /**
   * `s` has the pattern's shape: each keyword in any letter case followed by the number of
   * white-space bytes `runs` gives for it, then `` `name` ``, with `name` a non-empty run of bytes
   * other than a backtick.
   */
  predicate Shaped(s: string, keywords: seq<string>, runs: seq<nat>, name: string)
    decreases |keywords|
  {
    |runs| == |keywords|
    && if keywords == [] then
         |name| + 2 <= |s| && s[0] == '`' && s[1..1 + |name|] == name && s[1 + |name|] == '`'
         && name != [] && '`' !in name
       else
         var k := |keywords[0]|;
         var n := runs[0];
         k + n <= |s| && KeywordAt(s, keywords[0])
         && n > 0 && Blank(s[k..k + n])
         && Shaped(s[k + n..], keywords[1..], runs[1..], name)
  }

  /** Keywords that start with a byte that is not white space, so a run of white space cannot swallow them. */
  predicate Delimited(keywords: seq<string>) {
    forall j :: 0 <= j < |keywords| ==> keywords[j] != [] && !IsSpace(ToLowerChar(keywords[j][0]))
  }

  /** `IndexOf` finds the first occurrence. */
  lemma IndexOfFirst(s: string, c: char, k: nat)
    requires k < |s| && s[k] == c && c !in s[..k]
    ensures IndexOf(s, c) == Some(k)
  {
    var j := IndexOf(s, c).value;
    forall i | 0 <= i < k ensures s[i] != c {
      assert s[..k][i] == s[i];
    }
    forall i | 0 <= i < j ensures s[i] != c {
      assert s[..j][i] == s[i];
    }
  }

  lemma SliceOfSlice(s: string, k: nat, n: nat)
    requires k + n <= |s|
    ensures s[k..][..n] == s[k..k + n]
  {
  }

  /** One keyword and its run of white space in front of a shaped rest. */
  lemma ShapedCons(s: string, keywords: seq<string>, n: nat, runs: seq<nat>, name: string)
    requires keywords != [] && |keywords[0]| <= |s| && KeywordAt(s, keywords[0])
    requires n == SpaceRun(s[|keywords[0]|..]) && n > 0
    requires Shaped(s[|keywords[0]| + n..], keywords[1..], runs, name)
    ensures Shaped(s, keywords, [n] + runs, name)
  {
    BlankRun(s, |keywords[0]|, n);
    assert ([n] + runs)[0] == n && ([n] + runs)[1..] == runs;
  }

  /** A captured backtick name sits between two backticks at the start of the text. */
  lemma BacktickNameSound(s: string, name: string)
    requires BacktickName(s) == Some(name)
    ensures |name| + 2 <= |s| && s[0] == '`' && s[1..1 + |name|] == name && s[1 + |name|] == '`'
    ensures name != [] && '`' !in name
  {
    var j := IndexOf(s[1..], '`').value;
    assert name == s[1..][..j];
    assert s[1 + j] == s[1..][j];
  }

  /** The first step of a match, as `MatchAfter` takes it, with `n` its run of white space. */
  lemma {:induction false} MatchAfterHead(s: string, keywords: seq<string>, name: string, n: nat)
    requires keywords != [] && MatchAfter(s, keywords) == Some(name)
    requires |keywords[0]| <= |s| && n == SpaceRun(s[|keywords[0]|..])
    ensures KeywordAt(s, keywords[0])
    ensures n > 0 && MatchAfter(s[|keywords[0]| + n..], keywords[1..]) == Some(name)
  {
    var rest := s[|keywords[0]|..];
    assert rest[n..] == s[|keywords[0]| + n..];
  }

  /** The white space run of length `n` at `k` is a blank slice of `s`. */
  lemma {:induction false} BlankRun(s: string, k: nat, n: nat)
    requires k <= |s| && n == SpaceRun(s[k..])
    ensures k + n <= |s| && Blank(s[k..k + n])
  {
    SpaceRunSpans(s[k..]);
    SliceOfSlice(s, k, n);
  }

  /** Every match comes from a text of the pattern's shape, with the name the pattern captures. */
  lemma {:induction false} MatchAfterSound(s: string, keywords: seq<string>, name: string) returns (runs: seq<nat>)
    requires MatchAfter(s, keywords) == Some(name)
    ensures Shaped(s, keywords, runs, name)
    decreases |keywords|
  {
    if keywords == [] {
      BacktickNameSound(s, name);
      runs := [];
    } else {
      var n := SpaceRun(s[|keywords[0]|..]);
      MatchAfterHead(s, keywords, name, n);
      var more := MatchAfterSound(s[|keywords[0]| + n..], keywords[1..], name);
      ShapedCons(s, keywords, n, more, name);
      runs := [n] + more;
    }
  }

  /** Every text of the pattern's shape matches, with its name captured, when the keywords are delimited. */
  lemma {:induction false} MatchAfterComplete(s: string, keywords: seq<string>, runs: seq<nat>, name: string)
    requires Shaped(s, keywords, runs, name)
    requires Delimited(keywords)
    ensures MatchAfter(s, keywords) == Some(name)
    decreases |keywords|
  {
    if keywords == [] {
      var t := s[1..];
      assert t[..|name|] == name;
      assert t[|name|] == '`';
      IndexOfFirst(t, '`', |name|);
    } else {
      var k := |keywords[0]|;
      var n := runs[0];
      var rest := s[k + n..];
      SliceOfSlice(s, k, n);
      assert s[k..][n..] == rest;
      assert Delimited(keywords[1..]) by {
        forall j | 0 <= j < |keywords[1..]| ensures keywords[1..][j] == keywords[j + 1] { }
      }
      assert rest != [] && !IsSpace(rest[0]) by {
        if keywords[1..] == [] {
          assert rest[0] == '`';
        } else {
          assert keywords[1..][0] == keywords[1];
          assert ToLowerChar(rest[0]) == ToLowerChar(keywords[1][0]);
        }
      }
      assert s[k..][n] == rest[0];
      SpaceRunExact(s[k..], n);
      MatchAfterComplete(rest, keywords[1..], runs[1..], name);
    }
  }

  /** With delimited keywords, the pattern matches exactly the texts of its shape. */
  lemma MatchAfterIff(s: string, keywords: seq<string>, name: string)
    requires Delimited(keywords)
    ensures MatchAfter(s, keywords) == Some(name) <==> exists runs :: Shaped(s, keywords, runs, name)
  {
    if MatchAfter(s, keywords) == Some(name) {
      var runs := MatchAfterSound(s, keywords, name);
      assert exists runs :: Shaped(s, keywords, runs, name);
    }
    if exists runs :: Shaped(s, keywords, runs, name) {
      var runs :| Shaped(s, keywords, runs, name);
      MatchAfterComplete(s, keywords, runs, name);
      assert MatchAfter(s, keywords) == Some(name);
    }
  }

  /** The keywords of the `CREATE TABLE` pattern. */
  const CreateKeywords: seq<string> := ["CREATE", "TABLE"]

  /** The keywords of the `INSERT INTO` pattern. */
  const InsertKeywords: seq<string> := ["INSERT", "INTO"]

  lemma CreateDelimited()
    ensures Delimited(CreateKeywords)
  {
    assert CreateKeywords[0][0] == 'C' && CreateKeywords[1][0] == 'T';
  }

  lemma InsertDelimited()
    ensures Delimited(InsertKeywords)
  {
    assert InsertKeywords[0][0] == 'I' && InsertKeywords[1][0] == 'I';
  }

  /** `preg_match('/^CREATE\s+TABLE\s+`([^`]+)`/i', statement)`. */
  function CreateTableName(statement: string): Option<string> {
    MatchAfter(statement, CreateKeywords)
  }

  /** `preg_match('/^INSERT\s+INTO\s+`([^`]+)`/i', statement)`. */
  function InsertTableName(statement: string): Option<string> {
    MatchAfter(statement, InsertKeywords)
  }

  /** The `CREATE TABLE` pattern matches exactly the statements of its shape. */
  lemma CreateTableNameIff(statement: string, name: string)
    ensures CreateTableName(statement) == Some(name) <==> exists runs :: Shaped(statement, CreateKeywords, runs, name)
  {
    CreateDelimited();
    MatchAfterIff(statement, CreateKeywords, name);
  }

  /** The `INSERT INTO` pattern matches exactly the statements of its shape. */
  lemma InsertTableNameIff(statement: string, name: string)
    ensures InsertTableName(statement) == Some(name) <==> exists runs :: Shaped(statement, InsertKeywords, runs, name)
  {
    InsertDelimited();
    MatchAfterIff(statement, InsertKeywords, name);
  }

  /** No statement matches both patterns: the first byte is `c`/`C` for one and `i`/`I` for the other. */
  lemma CreateOrInsert(statement: string)
    ensures CreateTableName(statement).None? || InsertTableName(statement).None?
  {
    assert CreateTableName(statement).Some? ==> ToLowerChar(statement[0]) == 'c' by {
      if CreateTableName(statement).Some? {
        assert KeywordAt(statement, CreateKeywords[0]);
      }
    }
    assert InsertTableName(statement).Some? ==> ToLowerChar(statement[0]) == 'i' by {
      if InsertTableName(statement).Some? {
        assert KeywordAt(statement, InsertKeywords[0]);
      }
    }
  }

  // ---------------------------------------------------------------------------------------------
  // The preview

  /** What the preview reports: the site URL, the row count per table, and the total row count. */
  datatype Preview = Preview(targetUrl: string, tables: map<string, nat>, totalRows: nat)

  /** The `$tables` map after the loop over `statements`. */
  function PreviewTables(statements: seq<string>): map<string, nat>
    decreases |statements|
  {
    if statements == [] then map[]
    else PreviewStep(PreviewTables(statements[..|statements| - 1]), statements[|statements| - 1])
  }

  /** One turn of the loop: a `CREATE TABLE` resets its table to zero, an `INSERT INTO` counts one row. */
  function PreviewStep(tables: map<string, nat>, statement: string): map<string, nat> {
    match CreateTableName(statement)
    case Some(name) => tables[name := 0]
    case None =>
      match InsertTableName(statement)
      case Some(name) => tables[name := if name in tables then tables[name] + 1 else 1]
      case None => tables
  }


  /** The number of `INSERT INTO` statements for `name`. */
  function InsertsInto(statements: seq<string>, name: string): nat
    decreases |statements|
  {
    if statements == [] then 0
    else
      InsertsInto(statements[..|statements| - 1], name)
      + (if InsertTableName(statements[|statements| - 1]) == Some(name) then 1 else 0)
  }

  /** The number of `INSERT INTO` statements, whatever their table. */
  function InsertStatements(statements: seq<string>): nat
    decreases |statements|
  {
    if statements == [] then 0
    else
      InsertStatements(statements[..|statements| - 1])
      + (if InsertTableName(statements[|statements| - 1]).Some? then 1 else 0)
  }

  /** The statements after the last `CREATE TABLE` of `name`: all of them when there is none. */
  function SinceLastCreate(statements: seq<string>, name: string): (r: seq<string>)
    ensures |r| <= |statements| && r == statements[|statements| - |r|..]
    ensures forall i :: 0 <= i < |r| ==> CreateTableName(r[i]) != Some(name)
    ensures |r| < |statements| ==> CreateTableName(statements[|statements| - |r| - 1]) == Some(name)
    decreases |statements|
  {
    if statements == [] then []
    else if CreateTableName(statements[|statements| - 1]) == Some(name) then []
    else SinceLastCreate(statements[..|statements| - 1], name) + [statements[|statements| - 1]]
  }

  /** `name` is the table of a `CREATE TABLE` or an `INSERT INTO`. */
  predicate Mentions(statement: string, name: string) {
    CreateTableName(statement) == Some(name) || InsertTableName(statement) == Some(name)
  }

  /** Statements that never insert into `name` count no row for it. */
  lemma {:induction false} NoInsertsInto(statements: seq<string>, name: string)
    requires forall i :: 0 <= i < |statements| ==> InsertTableName(statements[i]) != Some(name)
    ensures InsertsInto(statements, name) == 0
    decreases |statements|
  {
    if statements != [] {
      NoInsertsInto(statements[..|statements| - 1], name);
    }
  }

  /** The preview lists exactly the tables some statement creates or inserts into. */
  lemma {:induction false} PreviewKeys(statements: seq<string>, name: string)
    ensures name in PreviewTables(statements) <==> exists i :: 0 <= i < |statements| && Mentions(statements[i], name)
    decreases |statements|
  {
    if statements != [] {
      var init := statements[..|statements| - 1];
      var last := statements[|statements| - 1];
      PreviewKeys(init, name);
      CreateOrInsert(last);
      assert forall i :: 0 <= i < |init| ==> statements[i] == init[i];
      assert name in PreviewTables(statements) <==> name in PreviewTables(init) || Mentions(last, name);
      if Mentions(last, name) {
        assert Mentions(statements[|init|], name);
      }
    }
  }

  /** Counting the inserts of one more statement. */
  lemma InsertsIntoSnoc(statements: seq<string>, last: string, name: string)
    ensures InsertsInto(statements + [last], name)
            == InsertsInto(statements, name) + (if InsertTableName(last) == Some(name) then 1 else 0)
  {
    assert (statements + [last])[..|statements|] == statements;
  }

  /**
   * Each listed table counts the `INSERT INTO` statements after its last `CREATE TABLE` (all of
   * them when it is never created), never more than the total row count.
   */
  lemma {:induction false} PreviewCount(statements: seq<string>, name: string)
    requires name in PreviewTables(statements)
    ensures PreviewTables(statements)[name] == InsertsInto(SinceLastCreate(statements, name), name)
    ensures PreviewTables(statements)[name] <= InsertStatements(statements)
    decreases |statements|
  {
    var init := statements[..|statements| - 1];
    var last := statements[|statements| - 1];
    CreateOrInsert(last);
    if CreateTableName(last) != Some(name) {
      if name in PreviewTables(init) {
        PreviewCount(init, name);
        PreviewCountListed(statements, name);
      } else {
        PreviewCountFirst(statements, name);
      }
    }
  }

  /** The count of a table already listed before the last statement, which does not create it. */
  lemma {:induction false} PreviewCountListed(statements: seq<string>, name: string)
    requires statements != [] && CreateTableName(statements[|statements| - 1]) != Some(name)
    requires var init := statements[..|statements| - 1];
      name in PreviewTables(init)
      && PreviewTables(init)[name] == InsertsInto(SinceLastCreate(init, name), name)
      && PreviewTables(init)[name] <= InsertStatements(init)
    ensures name in PreviewTables(statements)
    ensures PreviewTables(statements)[name] == InsertsInto(SinceLastCreate(statements, name), name)
    ensures PreviewTables(statements)[name] <= InsertStatements(statements)
  {
    var init := statements[..|statements| - 1];
    var last := statements[|statements| - 1];
    assert PreviewTables(statements) == PreviewStep(PreviewTables(init), last);
    PreviewStepCount(PreviewTables(init), last, name);
    var since := SinceLastCreate(init, name);
    assert SinceLastCreate(statements, name) == since + [last];
    InsertsIntoSnoc(since, last, name);
  }

  /** A statement that does not create `name` adds its own insert, if any, to a listed count. */
  lemma PreviewStepCount(tables: map<string, nat>, statement: string, name: string)
    requires CreateTableName(statement) != Some(name) && name in tables
    ensures name in PreviewStep(tables, statement)
    ensures PreviewStep(tables, statement)[name]
        == tables[name] + (if InsertTableName(statement) == Some(name) then 1 else 0)
  {
    CreateOrInsert(statement);
  }

  /** The count of a table the last statement inserts into, never listed before it. */
  lemma {:induction false} PreviewCountFirst(statements: seq<string>, name: string)
    requires statements != [] && CreateTableName(statements[|statements| - 1]) != Some(name)
    requires name !in PreviewTables(statements[..|statements| - 1]) && name in PreviewTables(statements)
    ensures PreviewTables(statements)[name] == InsertsInto(SinceLastCreate(statements, name), name)
    ensures PreviewTables(statements)[name] <= InsertStatements(statements)
  {
    var init := statements[..|statements| - 1];
    var last := statements[|statements| - 1];
    assert PreviewTables(statements) == PreviewStep(PreviewTables(init), last);
    PreviewStepFirst(PreviewTables(init), last, name);
    var since := SinceLastCreate(init, name);
    assert SinceLastCreate(statements, name) == since + [last];
    InsertsIntoSnoc(since, last, name);
    UnlistedNoInserts(init, name);
  }

  /** A statement that lists a table not listed before inserts into it, and counts one row. */
  lemma PreviewStepFirst(tables: map<string, nat>, statement: string, name: string)
    requires CreateTableName(statement) != Some(name) && name !in tables
    requires name in PreviewStep(tables, statement)
    ensures InsertTableName(statement) == Some(name) && PreviewStep(tables, statement)[name] == 1
  {
    CreateOrInsert(statement);
  }

  /** A table the preview does not list has no `INSERT INTO` among the statements. */
  lemma {:induction false} UnlistedNoInserts(statements: seq<string>, name: string)
    requires name !in PreviewTables(statements)
    ensures InsertsInto(SinceLastCreate(statements, name), name) == 0
  {
    var since := SinceLastCreate(statements, name);
    var d := |statements| - |since|;
    assert since == statements[d..];
    forall i | 0 <= i < |since| ensures InsertTableName(since[i]) != Some(name) {
      assert since[i] == statements[d..][i] == statements[d + i];
      PreviewKeys(statements, name);
      assert !Mentions(statements[d + i], name);
    }
    NoInsertsInto(since, name);
  }

  /**
   * `generate_preview`: the statements `split_sql` returns, then one pass over them updating the
   * map and the total. `targetUrl` is the `siteurl` option.
   */
  method GeneratePreview(sqlContent: string, targetUrl: string) returns (preview: Preview)
    ensures preview.targetUrl == targetUrl
    ensures preview.tables == PreviewTables(SqlStatements(sqlContent))
    ensures preview.totalRows == InsertStatements(SqlStatements(sqlContent))
  {
    var statements := SplitSql(sqlContent);
    preview := CountStatements(statements, targetUrl);
  }

  /** The loop of `generate_preview` over the statements. */
  method CountStatements(statements: seq<string>, targetUrl: string) returns (preview: Preview)
    ensures preview.targetUrl == targetUrl
    ensures preview.tables == PreviewTables(statements)
    ensures preview.totalRows == InsertStatements(statements)
  {
    var tables: map<string, nat> := map[];
    var totalRows := 0;
    for i := 0 to |statements|
      invariant tables == PreviewTables(statements[..i])
      invariant totalRows == InsertStatements(statements[..i])
    {
      var statement := statements[i];
      assert statements[..i + 1][..i] == statements[..i];
      match CreateTableName(statement)
      case Some(tableName) =>
        tables := tables[tableName := 0];
      case None =>
        match InsertTableName(statement)
        case Some(tableName) =>
          if tableName in tables {
            tables := tables[tableName := tables[tableName] + 1];
          } else {
            tables := tables[tableName := 1];
          }
          totalRows := totalRows + 1;
        case None =>
    }
    assert statements[..|statements|] == statements;
    preview := Preview(targetUrl, tables, totalRows);
  }

  // ---------------------------------------------------------------------------------------------
  // The tables a dump creates

  /** The names of the `CREATE TABLE` statements, in order, repeats included. */
  function CreatedNames(statements: seq<string>): seq<string>
    decreases |statements|
  {
    if statements == [] then []
    else
      CreatedNames(statements[..|statements| - 1])
      + match CreateTableName(statements[|statements| - 1])
        case Some(name) => [name]
        case None => []
  }

  /** A name is listed exactly when some statement creates it. */
  lemma {:induction false} CreatedNamesAre(statements: seq<string>, name: string)
    ensures name in CreatedNames(statements)
        <==> exists i :: 0 <= i < |statements| && CreateTableName(statements[i]) == Some(name)
    decreases |statements|
  {
    if statements != [] {
      var init := statements[..|statements| - 1];
      CreatedNamesAre(init, name);
      assert forall i :: 0 <= i < |init| ==> statements[i] == init[i];
    }
  }

  /** `array_unique`: each value once, at its first position. */
  function Unique(xs: seq<string>): (r: seq<string>)
    ensures forall x :: x in r <==> x in xs
    ensures forall i, j :: 0 <= i < j < |r| ==> r[i] != r[j]
    ensures |r| <= |xs|
    decreases |xs|
  {
    if xs == [] then []
    else
      var init := xs[..|xs| - 1];
      var last := xs[|xs| - 1];
      assert forall x :: x in xs <==> x in init || x == last;
      if last in init then Unique(init) else Unique(init) + [last]
  }

  /** The position of the first `x` in `xs`. */
  function FirstIndex(xs: seq<string>, x: string): (k: nat)
    requires x in xs
    ensures k < |xs| && xs[k] == x && x !in xs[..k]
    decreases |xs|
  {
    if xs[0] == x then 0
    else
      var k := FirstIndex(xs[1..], x);
      assert xs[..k + 1] == [xs[0]] + xs[1..][..k];
      k + 1
  }

  /** The first position of a value seen in a prefix is the same in the whole sequence. */
  lemma FirstIndexPrefix(xs: seq<string>, ys: seq<string>, x: string)
    requires x in xs
    ensures FirstIndex(xs + ys, x) == FirstIndex(xs, x)
  {
    var k := FirstIndex(xs, x);
    var m := FirstIndex(xs + ys, x);
    forall i | 0 <= i < k ensures xs[i] != x {
      assert xs[..k][i] == xs[i];
    }
    forall i | 0 <= i < m ensures (xs + ys)[i] != x {
      assert (xs + ys)[..m][i] == (xs + ys)[i];
    }
    assert (xs + ys)[k] == x;
    assert m < |xs| ==> (xs + ys)[m] == xs[m];
  }

  /** `array_unique` keeps the values in the order of their first occurrence. */
  lemma {:induction false} UniqueFirstOccurrenceOrder(xs: seq<string>)
    ensures forall i, j :: 0 <= i < j < |Unique(xs)| ==> FirstIndex(xs, Unique(xs)[i]) < FirstIndex(xs, Unique(xs)[j])
    decreases |xs|
  {
    if xs != [] {
      var init := xs[..|xs| - 1];
      var last := xs[|xs| - 1];
      assert xs == init + [last];
      UniqueFirstOccurrenceOrder(init);
      var u := Unique(init);
      forall x | x in u ensures FirstIndex(xs, x) == FirstIndex(init, x) {
        FirstIndexPrefix(init, [last], x);
      }
      if last !in init {
        assert FirstIndex(xs, last) == |xs| - 1 by {
          assert xs[..|xs| - 1] == init;
        }
        assert Unique(xs) == u + [last];
      }
    }
  }

  /** A sequence without repeats is left as it is. */
  lemma {:induction false} UniqueOfDistinct(xs: seq<string>)
    requires forall i, j :: 0 <= i < j < |xs| ==> xs[i] != xs[j]
    ensures Unique(xs) == xs
    decreases |xs|
  {
    if xs != [] {
      var init := xs[..|xs| - 1];
      UniqueOfDistinct(init);
      assert xs[|xs| - 1] !in init;
      assert xs == init + [xs[|xs| - 1]];
    }
  }

  /**
   * `extract_tables_from_sql`: the names of the `CREATE TABLE` statements of the dump, each once,
   * in the order of their first creation.
   */
  method ExtractTablesFromSql(sqlContent: string) returns (tables: seq<string>)
    ensures tables == Unique(CreatedNames(SqlStatements(sqlContent)))
    ensures forall name :: (name in tables
        <==> exists i :: 0 <= i < |SqlStatements(sqlContent)| && CreateTableName(SqlStatements(sqlContent)[i]) == Some(name))
    ensures forall i, j :: 0 <= i < j < |tables| ==> tables[i] != tables[j]
  {
    var statements := SplitSql(sqlContent);
    var names := CollectCreated(statements);
    tables := Unique(names);
    forall name ensures (name in tables
        <==> exists i :: 0 <= i < |statements| && CreateTableName(statements[i]) == Some(name)) {
      CreatedNamesAre(statements, name);
    }
  }

  /** The loop of `extract_tables_from_sql`: the name of each `CREATE TABLE`, in order. */
  method CollectCreated(statements: seq<string>) returns (names: seq<string>)
    ensures names == CreatedNames(statements)
  {
    names := [];
    for i := 0 to |statements|
      invariant names == CreatedNames(statements[..i])
    {
      assert statements[..i + 1][..i] == statements[..i];
      match CreateTableName(statements[i])
      case Some(tableName) =>
        names := names + [tableName];
      case None =>
    }
    assert statements[..|statements|] == statements;
  }
}
