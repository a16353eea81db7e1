/**
 * The statement splitter `split_sql` (includes/class-import.php:263-335).
 *
 * After the two comment passes, one forward scan over the bytes carries a small lexer state
 * (inside a quoted string or not, which quote opened it, whether the previous byte was an
 * unconsumed backslash, and the parenthesis depth) together with the statement being built and
 * the statements found so far. A statement ends at a `;` read while outside any string and at
 * parenthesis depth 0.
 *
 * `Step` is one iteration of the PHP loop, written exactly as the loop body is; `SplitSql` is the
 * loop itself. The lemmas then characterise the result without the scanner: the text is cut after
 * every `;` met in a quiet state (`Pieces`), and each piece is trimmed and kept when non-empty.
 */
module Splitter {
  import opened Wrappers
  import opened Text
  import opened Comments

  /** The scanner's flags: `$in_string`, `$string_char`, `$escaped`, `$paren_depth`. */
  datatype Lex = Lex(inString: bool, stringChar: string, escaped: bool, parenDepth: int)

  /** The flags as the PHP code initialises them. */
  const Start := Lex(false, "", false, 0)

  /** The whole loop state: the flags, `$current_statement` and `$statements`. */
  datatype Scan = Scan(lex: Lex, current: string, statements: seq<string>)

  /** The state the loop starts in. */
  const Initial := Scan(Start, "", [])

  /** A quote that opens or closes a string literal. */
  predicate IsQuote(c: char) {
    c == '\'' || c == '"'
  }

  /** The flags the scan can reach: `$string_char` is the opening quote inside a string and "" outside. */
  predicate WellFormed(l: Lex) {
    if l.inString then |l.stringChar| == 1 && IsQuote(l.stringChar[0]) else l.stringChar == ""
  }

  /** Outside any string and any parenthesis, with no pending backslash. */
  predicate Quiet(l: Lex) {
    !l.escaped && !l.inString && l.parenDepth == 0
  }

  /** How one byte changes the flags (lines 282-314). */
  function LexStep(l: Lex, c: char): Lex {
    if l.escaped then l.(escaped := false)
    else if c == '\\' then l.(escaped := true)
    else
      var depth :=
        if !l.inString && c == '(' then l.parenDepth + 1
        else if !l.inString && c == ')' then l.parenDepth - 1
        else l.parenDepth;
      if !l.inString && IsQuote(c) then Lex(true, [c], false, depth)
      else if l.inString && [c] == l.stringChar then Lex(false, "", false, depth)
      else l.(parenDepth := depth)
  }

  /**
   * The test of line 317, which the loop reaches only when neither `continue` was taken:
   * the byte is `;` and, after the byte, the scan is outside any string at depth 0.
   */
  predicate EndsStatement(l: Lex, c: char) {
    !l.escaped && c != '\\' && c == ';' && !LexStep(l, c).inString && LexStep(l, c).parenDepth == 0
  }

  /** Lines 318-321: the trimmed statement is kept unless PHP's `empty()` holds for it. */
  function Keep(statements: seq<string>, current: string): (r: seq<string>)
    ensures r == statements || r == statements + [Trim(current)]
    ensures |r| == |statements| + 1 <==> !PhpEmpty(Trim(current))
  {
    var statement := Trim(current);
    if PhpEmpty(statement) then statements else statements + [statement]
  }

  /** One iteration of the `for` loop (lines 279-323). */
  function Step(s: Scan, c: char): Scan {
    var current := s.current + [c];
    if EndsStatement(s.lex, c) then Scan(LexStep(s.lex, c), "", Keep(s.statements, current))
    else Scan(LexStep(s.lex, c), current, s.statements)
  }

  /** The loop run over `text` from state `s`. */
  function Run(s: Scan, text: string): Scan
    decreases |text|
  {
    if text == [] then s else Run(Step(s, text[0]), text[1..])
  }

  /** The predicate given to `array_filter` (lines 332-334). */
  predicate Survives(statement: string) {
    !PhpEmpty(Trim(statement)) && !IsBlank(statement)
  }

  /** `array_filter` with `Survives`, keeping the order. */
  function FilterStatements(xs: seq<string>): (r: seq<string>)
    ensures |r| <= |xs|
    ensures forall k :: 0 <= k < |r| ==> Survives(r[k])
    ensures forall x :: x in r <==> x in xs && Survives(x)
  {
    if xs == [] then []
    else (if Survives(xs[0]) then [xs[0]] else []) + FilterStatements(xs[1..])
  }

  /** The filter keeps one statement exactly when it survives. */
  lemma FilterStatementsSingleton(x: string)
    ensures FilterStatements([x]) == if Survives(x) then [x] else []
  {
    assert [x][1..] == [];
  }

  /** After the loop: the remaining statement is kept (lines 327-330), then the filter runs. */
  function Finish(s: Scan): seq<string> {
    FilterStatements(Keep(s.statements, s.current))
  }

  /** What `split_sql` returns for `sql`. */
  function SqlStatements(sql: string): seq<string> {
    Finish(Run(Initial, StripComments(sql)))
  }

  /** `split_sql` as the PHP code writes it: the comment passes, then one loop over the bytes. */
  method SplitSql(sqlContent: string) returns (statements: seq<string>)
    ensures statements == SqlStatements(sqlContent)
  {
    var text := StripLineComments(sqlContent);
    text := StripBlockComments(text);
    statements := [];
    var currentStatement := "";
    var inString := false;
    var stringChar := "";
    var escaped := false;
    var parenDepth := 0;
    for i := 0 to |text|
      invariant Run(Scan(Lex(inString, stringChar, escaped, parenDepth), currentStatement, statements), text[i..])
             == Run(Initial, text)
    {
      ghost var before := Scan(Lex(inString, stringChar, escaped, parenDepth), currentStatement, statements);
      assert text[i..][0] == text[i] && text[i..][1..] == text[i + 1..];
      var c := text[i];
      if escaped {
        currentStatement := currentStatement + [c];
        escaped := false;
      } else if c == '\\' {
        escaped := true;
        currentStatement := currentStatement + [c];
      } else {
        if !inString {
          if c == '(' {
            parenDepth := parenDepth + 1;
          } else if c == ')' {
            parenDepth := parenDepth - 1;
          }
        }
        if !inString && (c == '\'' || c == '"') {
          inString := true;
          stringChar := [c];
          currentStatement := currentStatement + [c];
        } else if inString && [c] == stringChar {
          inString := false;
          stringChar := "";
          currentStatement := currentStatement + [c];
        } else {
          currentStatement := currentStatement + [c];
        }
        if !inString && parenDepth == 0 && c == ';' {
          var statement := Trim(currentStatement);
          if !PhpEmpty(statement) {
            statements := statements + [statement];
          }
          currentStatement := "";
        }
      }
      assert Scan(Lex(inString, stringChar, escaped, parenDepth), currentStatement, statements) == Step(before, c);
    }
    var remaining := Trim(currentStatement);
    if !PhpEmpty(remaining) {
      statements := statements + [remaining];
    }
    statements := FilterStatements(statements);
  }

  // ---------------------------------------------------------------------------------------------
  // The boundary rules

  /** The scan only ever reaches well-formed flags. */
  lemma LexStepWellFormed(l: Lex, c: char)
    requires WellFormed(l)
    ensures WellFormed(LexStep(l, c))
  {
  }

  /**
   * A statement ends exactly at a `;` read in a quiet state, and the flags after it are the
   * initial ones: a `;` inside a string, inside parentheses or right after a backslash never
   * ends a statement.
   */
  lemma BoundaryRule(l: Lex, c: char)
    requires WellFormed(l)
    ensures EndsStatement(l, c) <==> c == ';' && Quiet(l)
    ensures EndsStatement(l, c) ==> LexStep(l, c) == Start
  {
    if !l.escaped && c == ';' && l.inString {
      assert [c] != l.stringChar by { assert l.stringChar[0] != ';'; }
    }
  }

  /**
   * A backslash outside an escape is copied and makes the next byte inert: the pair leaves the
   * flags as they were, so an escaped quote neither opens nor closes a string and an escaped
   * parenthesis does not count.
   */
  lemma EscapedPairIsInert(l: Lex, c: char)
    requires !l.escaped
    ensures LexStep(LexStep(l, '\\'), c) == l
    ensures !EndsStatement(l, '\\') && !EndsStatement(LexStep(l, '\\'), c)
  {
  }

  // ---------------------------------------------------------------------------------------------
  // The scanner-free description: cut after every quiet `;`

  /** The flags after reading `t` from `l`. */
  function LexRun(l: Lex, t: string): Lex
    decreases |t|
  {
    if t == [] then l else LexRun(LexStep(l, t[0]), t[1..])
  }

  /** The position of the first `;` in `t` read in a quiet state, starting from flags `l`. */
  function FirstCut(l: Lex, t: string): (r: Option<nat>)
    ensures r.Some? ==> r.value < |t| && t[r.value] == ';' && Quiet(LexRun(l, t[..r.value]))
    decreases |t|
  {
    if t == [] then None
    else if t[0] == ';' && Quiet(l) then Some(0)
    else match FirstCut(LexStep(l, t[0]), t[1..])
      case None => None
      case Some(j) =>
        var u := t[..j + 1];
        assert u != [] && u[0] == t[0] && u[1..] == t[1..][..j];
        assert LexRun(l, u) == LexRun(LexStep(l, t[0]), t[1..][..j]);
        Some(j + 1)
  }

  /**
   * `t` cut after every `;` read in a quiet state; the flags restart from `Start` after each cut.
   * The last piece is the text after the last cut (possibly empty).
   */
  function Pieces(l: Lex, t: string): (r: seq<string>)
    ensures |r| >= 1
    decreases |t|
  {
    match FirstCut(l, t)
    case None => [t]
    case Some(i) => [t[..i + 1]] + Pieces(Start, t[i + 1..])
  }

  /** One piece as a statement: trimmed, kept unless `empty()`, then passed through the filter. */
  function CleanOne(piece: string): (r: seq<string>)
    ensures |r| <= 1
  {
    var s := Trim(piece);
    if !PhpEmpty(s) && Survives(s) then [s] else []
  }

  /** The statements the pieces give, in order. */
  function Clean(pieces: seq<string>): seq<string> {
    if pieces == [] then [] else CleanOne(pieces[0]) + Clean(pieces[1..])
  }

  /** `Clean` of one piece. */
  lemma CleanSingleton(p: string)
    ensures Clean([p]) == CleanOne(p)
  {
    assert [p][0] == p && [p][1..] == [];
  }

  /** Trimming and filtering distributes over `+`. */
  lemma {:induction false} FilterStatementsAppend(xs: seq<string>, ys: seq<string>)
    ensures FilterStatements(xs + ys) == FilterStatements(xs) + FilterStatements(ys)
  {
    if xs == [] {
      assert xs + ys == ys;
    } else {
      assert (xs + ys)[0] == xs[0] && (xs + ys)[1..] == xs[1..] + ys;
      FilterStatementsAppend(xs[1..], ys);
    }
  }

  /** `Keep` followed by the filter is `Clean` on one piece. */
  lemma KeepThenFilter(statements: seq<string>, piece: string)
    ensures FilterStatements(Keep(statements, piece)) == FilterStatements(statements) + Clean([piece])
  {
    var s := Trim(piece);
    CleanSingleton(piece);
    if !PhpEmpty(s) {
      FilterStatementsAppend(statements, [s]);
      assert FilterStatements([s]) == (if Survives(s) then [s] else []) + FilterStatements([]);
    }
  }

  /** Reading a byte that is not a quiet `;` extends the first piece by that byte. */
  lemma PiecesCons(l: Lex, t: string)
    requires t != [] && !(t[0] == ';' && Quiet(l))
    ensures var q := Pieces(LexStep(l, t[0]), t[1..]);
      Pieces(l, t) == [[t[0]] + q[0]] + q[1..]
  {
    var l' := LexStep(l, t[0]);
    match FirstCut(l', t[1..])
    case None =>
      assert FirstCut(l, t).None?;
      assert t == [t[0]] + t[1..];
    case Some(j) =>
      assert FirstCut(l, t) == Some(j + 1);
      PiecesConsCut(l, t, j);
  }

  /** The case of `PiecesCons` where the rest of the text is cut after `j + 1` more bytes. */
  lemma PiecesConsCut(l: Lex, t: string, j: nat)
    requires t != [] && FirstCut(l, t) == Some(j + 1) && FirstCut(LexStep(l, t[0]), t[1..]) == Some(j)
    ensures var q := Pieces(LexStep(l, t[0]), t[1..]);
      Pieces(l, t) == [[t[0]] + q[0]] + q[1..]
  {
    var q := Pieces(LexStep(l, t[0]), t[1..]);
    assert q == [t[1..][..j + 1]] + Pieces(Start, t[1..][j + 1..]);
    assert Pieces(l, t) == [t[..j + 2]] + Pieces(Start, t[j + 2..]);
    assert t[..j + 2] == [t[0]] + t[1..][..j + 1];
    assert t[j + 2..] == t[1..][j + 1..];
  }

  /** A quiet `;` is a piece boundary on its own. */
  lemma PiecesCut(l: Lex, t: string)
    requires t != [] && t[0] == ';' && Quiet(l)
    ensures Pieces(l, t) == [";"] + Pieces(Start, t[1..])
  {
    assert t[..1] == ";";
  }

  /** The loop consumes the first byte with `Step`. */
  lemma RunCons(s: Scan, t: string)
    requires t != []
    ensures Run(s, t) == Run(Step(s, t[0]), t[1..])
  {
  }

  /** The case of a quiet `;`: the statement under construction is finished with it. */
  lemma CutCase(l: Lex, current: string, statements: seq<string>, t: string, rest: seq<string>)
    requires t != [] && t[0] == ';' && Quiet(l)
    requires rest == FilterStatements(Keep(statements, current + [t[0]])) + Clean(Pieces(Start, t[1..]))
    ensures var p := Pieces(l, t);
      rest == FilterStatements(statements) + Clean([current + p[0]] + p[1..])
  {
    var q := Pieces(Start, t[1..]);
    var p := Pieces(l, t);
    PiecesCut(l, t);
    assert p[0] == ";" && p[1..] == q;
    KeepThenFilter(statements, current + [t[0]]);
    CleanAppend([current + [t[0]]], q);
    assert [current + p[0]] + p[1..] == [current + [t[0]]] + q;
    calc {
      rest;
      FilterStatements(Keep(statements, current + [t[0]])) + Clean(q);
      FilterStatements(statements) + Clean([current + [t[0]]]) + Clean(q);
      { AppendAssoc(FilterStatements(statements), Clean([current + [t[0]]]), Clean(q)); }
      FilterStatements(statements) + (Clean([current + [t[0]]]) + Clean(q));
      FilterStatements(statements) + Clean([current + [t[0]]] + q);
    }
  }

  /** The case of any other byte: it joins the statement under construction. */
  lemma ExtendCase(l: Lex, current: string, statements: seq<string>, t: string, rest: seq<string>)
    requires t != [] && !(t[0] == ';' && Quiet(l))
    requires var q := Pieces(LexStep(l, t[0]), t[1..]);
      rest == FilterStatements(statements) + Clean([current + [t[0]] + q[0]] + q[1..])
    ensures var p := Pieces(l, t);
      rest == FilterStatements(statements) + Clean([current + p[0]] + p[1..])
  {
    var q := Pieces(LexStep(l, t[0]), t[1..]);
    var p := Pieces(l, t);
    PiecesCons(l, t);
    assert p[0] == [t[0]] + q[0] && p[1..] == q[1..];
    AppendAssoc(current, [t[0]], q[0]);
  }

  /**
   * The scan from any reachable state: what the loop still has to emit is the clean pieces of the
   * rest of the text, the first piece joined to the statement under construction.
   */
  lemma {:induction false} RunIsClean(l: Lex, current: string, statements: seq<string>, t: string)
    requires WellFormed(l)
    ensures var p := Pieces(l, t);
      Finish(Run(Scan(l, current, statements), t))
        == FilterStatements(statements) + Clean([current + p[0]] + p[1..])
    decreases |t|
  {
    var p := Pieces(l, t);
    if t == [] {
      assert p == [t];
      assert current + p[0] == current;
      KeepThenFilter(statements, current);
    } else {
      var c := t[0];
      var st := Scan(l, current, statements);
      BoundaryRule(l, c);
      LexStepWellFormed(l, c);
      RunCons(st, t);
      var st' := Step(st, c);
      RunIsClean(st'.lex, st'.current, st'.statements, t[1..]);
      var rest := Finish(Run(st', t[1..]));
      if c == ';' && Quiet(l) {
        assert st' == Scan(Start, "", Keep(statements, current + [c]));
        var q := Pieces(Start, t[1..]);
        EmptyJoinHead(q);
        CutCase(l, current, statements, t, rest);
      } else {
        assert st' == Scan(LexStep(l, c), current + [c], statements);
        ExtendCase(l, current, statements, t, rest);
      }
    }
  }

  /** `Clean` of a non-empty list: the first piece, then the rest. */
  lemma CleanCons(xs: seq<string>)
    requires xs != []
    ensures Clean(xs) == CleanOne(xs[0]) + Clean(xs[1..])
  {
  }

  /** `Clean` distributes over `+`. */
  lemma {:induction false} CleanAppend(xs: seq<string>, ys: seq<string>)
    ensures Clean(xs + ys) == Clean(xs) + Clean(ys)
  {
    if xs == [] {
      assert xs + ys == ys;
    } else {
      var zs := xs + ys;
      assert zs[0] == xs[0] && zs[1..] == xs[1..] + ys;
      CleanAppend(xs[1..], ys);
      CleanCons(zs);
      AppendAssoc(CleanOne(xs[0]), Clean(xs[1..]), Clean(ys));
    }
  }

  /**
   * The main characterisation: `split_sql` returns, in order, the trimmed pieces of the
   * comment-stripped text cut after every `;` met outside strings and parentheses and not after a
   * backslash, dropping those that are empty, `"0"` or blank.
   */
  lemma SqlStatementsArePieces(sql: string)
    ensures SqlStatements(sql) == Clean(Pieces(Start, StripComments(sql)))
  {
    var t := StripComments(sql);
    var p := Pieces(Start, t);
    RunIsClean(Start, "", [], t);
    EmptyJoinHead(p);
    assert FilterStatements([]) == [];
  }

  // ---------------------------------------------------------------------------------------------
  // What the pieces look like

  /** Cutting loses and reorders nothing: the pieces put back together are the text. */
  lemma {:induction false} ConcatPieces(l: Lex, t: string)
    ensures Concat(Pieces(l, t)) == t
    decreases |t|
  {
    match FirstCut(l, t)
    case None =>
    case Some(i) =>
      ConcatPieces(Start, t[i + 1..]);
      assert Concat(Pieces(l, t)) == t[..i + 1] + Concat(Pieces(Start, t[i + 1..]));
      assert t == t[..i + 1] + t[i + 1..];
  }

  /** A piece that is followed by another ends with the `;` that cut it. */
  predicate EndsWithSemicolon(s: string) {
    s != [] && s[|s| - 1] == ';'
  }

  /** Every piece but the last ends with its boundary `;`. */
  lemma {:induction false} PiecesEndWithSemicolon(l: Lex, t: string)
    ensures var p := Pieces(l, t); forall k :: 0 <= k < |p| - 1 ==> EndsWithSemicolon(p[k])
    decreases |t|
  {
    match FirstCut(l, t)
    case None =>
    case Some(i) =>
      PiecesEndWithSemicolon(Start, t[i + 1..]);
      var p := Pieces(l, t);
      assert p == [t[..i + 1]] + Pieces(Start, t[i + 1..]);
      assert EndsWithSemicolon(p[0]);
  }

  /** A text whose reading never meets a quiet `;` is glued in front of the first piece of what follows. */
  lemma {:induction false} PiecesGlue(l: Lex, u: string, t: string)
    requires FirstCut(l, u).None?
    ensures var p := Pieces(LexRun(l, u), t); Pieces(l, u + t) == [u + p[0]] + p[1..]
    decreases |u|
  {
    if u == [] {
      assert u + t == t;
      EmptyJoinHead(Pieces(l, t));
    } else {
      var l' := LexStep(l, u[0]);
      var p := Pieces(LexRun(l, u), t);
      assert !(u[0] == ';' && Quiet(l));
      assert FirstCut(l', u[1..]).None?;
      PiecesGlue(l', u[1..], t);
      assert (u + t)[0] == u[0] && (u + t)[1..] == u[1..] + t;
      PiecesCons(l, u + t);
      assert u == [u[0]] + u[1..];
      AppendAssoc([u[0]], u[1..], p[0]);
    }
  }

  /** Inside a string, text with neither the closing quote nor a backslash changes nothing and cuts nowhere. */
  lemma {:induction false} InsideStringInert(l: Lex, b: string)
    requires WellFormed(l) && l.inString && !l.escaped
    requires forall i :: 0 <= i < |b| ==> b[i] != l.stringChar[0] && b[i] != '\\'
    ensures FirstCut(l, b).None? && LexRun(l, b) == l
    decreases |b|
  {
    if b != [] {
      assert [b[0]] != l.stringChar;
      assert LexStep(l, b[0]) == l;
      InsideStringInert(l, b[1..]);
    }
  }

  /**
   * A quoted literal without a backslash or its closing quote inside stays in the statement being
   * read, whatever it holds (a `;`, `);`, parentheses): it is glued to the first piece that follows.
   */
  lemma QuotedLiteralGlues(l: Lex, q: char, b: string, t: string)
    requires WellFormed(l) && !l.inString && !l.escaped && IsQuote(q)
    requires forall i :: 0 <= i < |b| ==> b[i] != q && b[i] != '\\'
    ensures var p := Pieces(l, t); Pieces(l, [q] + b + [q] + t) == [[q] + b + [q] + p[0]] + p[1..]
  {
    var inside := Lex(true, [q], false, l.parenDepth);
    assert LexStep(l, q) == inside;
    assert LexStep(inside, q) == l;
    InsideStringInert(inside, b);
    assert FirstCut(inside, [q]).None? && LexRun(inside, [q]) == l;
    assert FirstCut(l, [q]).None? && LexRun(l, [q]) == inside;
    var p := Pieces(l, t);
    var h := p[0];
    var rest := p[1..];
    assert p == [h] + rest;
    GlueOnto(inside, [q], t, h, rest);
    GlueOnto(inside, b, [q] + t, [q] + h, rest);
    GlueOnto(l, [q], b + ([q] + t), b + ([q] + h), rest);
    AppendAssoc([q] + b, [q], t);
    AppendAssoc([q], b, [q] + t);
    AppendAssoc([q] + b, [q], h);
    AppendAssoc([q], b, [q] + h);
  }

  /** `PiecesGlue` with the pieces that follow given by name. */
  lemma GlueOnto(l: Lex, u: string, t: string, h: string, rest: seq<string>)
    requires FirstCut(l, u).None? && Pieces(LexRun(l, u), t) == [h] + rest
    ensures Pieces(l, u + t) == [u + h] + rest
  {
    PiecesGlue(l, u, t);
    assert ([h] + rest)[0] == h && ([h] + rest)[1..] == rest;
  }

  /** A backslash and the byte after it stay together in the current statement, whatever that byte is. */
  lemma EscapedPairGlues(l: Lex, c: char, t: string)
    requires !l.escaped
    ensures var p := Pieces(l, t); Pieces(l, ['\\', c] + t) == [['\\', c] + p[0]] + p[1..]
  {
    var u := ['\\', c];
    EscapedPairIsInert(l, c);
    assert u[1..] == [c];
    assert FirstCut(LexStep(l, '\\'), [c]).None?;
    assert FirstCut(l, u).None?;
    assert u[0] == '\\' && [c][1..] == [];
    assert LexRun(LexStep(l, '\\'), [c]) == LexRun(LexStep(LexStep(l, '\\'), c), []);
    PiecesGlue(l, u, t);
  }

  /** Bytes that touch neither quotes, parentheses nor escapes. */
  predicate Plain(t: string) {
    forall i :: 0 <= i < |t| ==> !IsQuote(t[i]) && t[i] != '(' && t[i] != ')' && t[i] != '\\'
  }

  /** Outside strings, plain text leaves the flags alone, and cuts nowhere while the depth is not 0. */
  lemma {:induction false} PlainInert(l: Lex, b: string)
    requires WellFormed(l) && !l.inString && !l.escaped && Plain(b)
    ensures LexRun(l, b) == l
    ensures l.parenDepth != 0 ==> FirstCut(l, b).None?
    ensures l.parenDepth == 0 ==> FirstCut(l, b) == IndexOf(b, ';')
    decreases |b|
  {
    if b != [] {
      assert LexStep(l, b[0]) == l;
      PlainInert(l, b[1..]);
    }
  }

  /** A `;` between parentheses does not end the statement: a plain parenthesised group stays glued. */
  lemma ParenGroupGlues(l: Lex, b: string, t: string)
    requires WellFormed(l) && !l.inString && !l.escaped && l.parenDepth >= 0 && Plain(b)
    ensures var p := Pieces(l, t); Pieces(l, ['('] + b + [')'] + t) == [['('] + b + [')'] + p[0]] + p[1..]
  {
    var inside := l.(parenDepth := l.parenDepth + 1);
    assert LexStep(l, '(') == inside;
    assert LexStep(inside, ')') == l;
    PlainInert(inside, b);
    assert FirstCut(inside, [')']).None?;
    assert FirstCut(l, ['(']).None?;
    var p3 := Pieces(l, t);
    PiecesGlue(inside, [')'], t);
    PiecesGlue(inside, b, [')'] + t);
    PiecesGlue(l, ['('], b + ([')'] + t));
    AppendAssoc(['('] + b, [')'], t);
    AppendAssoc(['('], b, [')'] + t);
    AppendAssoc(['('] + b, [')'], p3[0]);
    AppendAssoc(['('], b, [')'] + p3[0]);
  }

  /** The pieces of `explode`, each but the last given back its `;`. */
  function WithSemicolons(xs: seq<string>): (r: seq<string>)
    ensures |r| == |xs|
  {
    if |xs| <= 1 then xs else [xs[0] + ";"] + WithSemicolons(xs[1..])
  }

  /**
   * On plain text the scanner and `explode(';')` cut at the same places: `split_sql`'s pieces are
   * `explode`'s pieces with their `;` kept.
   */
  lemma {:induction false} PlainPiecesAreExplode(t: string)
    requires Plain(t)
    ensures Pieces(Start, t) == WithSemicolons(Explode(t, ';'))
    decreases |t|
  {
    PlainInert(Start, t);
    match IndexOf(t, ';')
    case None =>
    case Some(i) =>
      var a := t[..i];
      var rest := t[i + 1..];
      assert Plain(a) && Plain(rest);
      PlainInert(Start, a);
      assert ';' !in a;
      assert IndexOf(a, ';').None?;
      assert t == a + (";" + rest);
      PiecesGlue(Start, a, ";" + rest);
      PiecesCut(Start, ";" + rest);
      assert (";" + rest)[1..] == rest;
      PlainPiecesAreExplode(rest);
      var e := Explode(rest, ';');
      assert Explode(t, ';') == [a] + e;
      assert WithSemicolons([a] + e) == [a + ";"] + WithSemicolons(e);
  }

  // ---------------------------------------------------------------------------------------------
  // What `split_sql` returns

  /** What every returned statement satisfies: trimmed, not `empty()`, not blank. */
  predicate IsStatement(s: string) {
    Trim(s) == s && !PhpEmpty(s) && !IsBlank(s)
  }

  /** A property of every element holds on a concatenation when it holds on both parts. */
  lemma SeqAllAppend(xs: seq<string>, ys: seq<string>)
    requires forall k :: 0 <= k < |xs| ==> IsStatement(xs[k])
    requires forall k :: 0 <= k < |ys| ==> IsStatement(ys[k])
    ensures forall k :: 0 <= k < |xs + ys| ==> IsStatement((xs + ys)[k])
  {
    forall k | 0 <= k < |xs + ys| ensures IsStatement((xs + ys)[k]) {
      if k >= |xs| {
        assert (xs + ys)[k] == ys[k - |xs|];
      }
    }
  }

  /** `Clean` only produces proper statements. */
  lemma {:induction false} CleanYieldsStatements(ps: seq<string>)
    ensures forall k :: 0 <= k < |Clean(ps)| ==> IsStatement(Clean(ps)[k])
  {
    if ps != [] {
      var s := Trim(ps[0]);
      var head := if !PhpEmpty(s) && Survives(s) then [s] else [];
      var rest := Clean(ps[1..]);
      assert Clean(ps) == head + rest;
      CleanYieldsStatements(ps[1..]);
      TrimIdempotent(ps[0]);
      assert forall k :: 0 <= k < |head| ==> IsStatement(head[k]);
      SeqAllAppend(head, rest);
    }
  }

  /** Pieces that end with `;` (all but possibly the last) give statements that end with `;`. */
  lemma {:induction false} CleanKeepsSemicolons(ps: seq<string>)
    requires forall k :: 0 <= k < |ps| - 1 ==> EndsWithSemicolon(ps[k])
    ensures var c := Clean(ps); forall k :: 0 <= k < |c| - 1 ==> EndsWithSemicolon(c[k])
  {
    if |ps| > 1 {
      forall k | 0 <= k < |ps[1..]| - 1 ensures EndsWithSemicolon(ps[1..][k]) {
        assert ps[1..][k] == ps[k + 1];
      }
      CleanKeepsSemicolons(ps[1..]);
      CleanConsSemicolon(ps);
    } else if ps != [] {
      assert ps == [ps[0]];
      CleanSingleton(ps[0]);
    }
  }

  /** A first piece ending with `;` keeps the property of the statements after it. */
  lemma CleanConsSemicolon(ps: seq<string>)
    requires |ps| > 1 && EndsWithSemicolon(ps[0])
    requires var c := Clean(ps[1..]); forall k :: 0 <= k < |c| - 1 ==> EndsWithSemicolon(c[k])
    ensures var c := Clean(ps); forall k :: 0 <= k < |c| - 1 ==> EndsWithSemicolon(c[k])
  {
    CleanOneSemicolon(ps[0]);
    CleanSingleton(ps[0]);
    assert ps == [ps[0]] + ps[1..];
    CleanAppend([ps[0]], ps[1..]);
    SemicolonsAppend(Clean([ps[0]]), Clean(ps[1..]));
  }

  /** A piece ending with `;` gives a statement ending with `;`, if any. */
  lemma CleanOneSemicolon(p: string)
    requires EndsWithSemicolon(p)
    ensures forall k :: 0 <= k < |CleanOne(p)| ==> EndsWithSemicolon(CleanOne(p)[k])
  {
    TrimEndsWithSemicolon(p);
  }

  /** `trim()` keeps a final `;`. */
  lemma TrimEndsWithSemicolon(p: string)
    requires EndsWithSemicolon(p)
    ensures EndsWithSemicolon(Trim(p))
  {
    TrimKeepsLast(p);
  }

  /** Prefixing statements that end with `;` keeps every statement but the last ending with `;`. */
  lemma SemicolonsAppend(xs: seq<string>, ys: seq<string>)
    requires forall k :: 0 <= k < |xs| ==> EndsWithSemicolon(xs[k])
    requires forall k :: 0 <= k < |ys| - 1 ==> EndsWithSemicolon(ys[k])
    ensures forall k :: 0 <= k < |xs + ys| - 1 ==> EndsWithSemicolon((xs + ys)[k])
  {
    forall k | 0 <= k < |xs + ys| - 1 ensures EndsWithSemicolon((xs + ys)[k]) {
      if k >= |xs| {
        assert (xs + ys)[k] == ys[k - |xs|];
      }
    }
  }

  /**
   * The statements `split_sql` returns are trimmed, neither `empty()` nor blank, and each of them but
   * the last ends with the `;` that closed it; the last may be unterminated text after the final `;`.
   */
  lemma SqlStatementsShape(sql: string)
    ensures forall k :: 0 <= k < |SqlStatements(sql)| ==> IsStatement(SqlStatements(sql)[k])
    ensures forall k :: 0 <= k < |SqlStatements(sql)| - 1 ==> EndsWithSemicolon(SqlStatements(sql)[k])
  {
    var t := StripComments(sql);
    SqlStatementsArePieces(sql);
    CleanYieldsStatements(Pieces(Start, t));
    PiecesEndWithSemicolon(Start, t);
    CleanKeepsSemicolons(Pieces(Start, t));
  }

  /** A text without any `;` is one statement: the whole trimmed text, unless it is `empty()` or blank. */
  lemma NoSemicolonOneStatement(sql: string)
    requires ';' !in StripComments(sql)
    ensures var t := Trim(StripComments(sql));
      SqlStatements(sql) == if PhpEmpty(t) || IsBlank(t) then [] else [t]
  {
    var t := StripComments(sql);
    SqlStatementsArePieces(sql);
    NoSemicolonNoCut(Start, t);
    assert Pieces(Start, t) == [t];
    CleanSingleton(t);
    TrimIdempotent(t);
  }

  /** Without a `;` there is nothing to cut at. */
  lemma {:induction false} NoSemicolonNoCut(l: Lex, t: string)
    requires ';' !in t
    ensures FirstCut(l, t).None?
    decreases |t|
  {
    if t != [] {
      NotInTail(t, ';');
      NoSemicolonNoCut(LexStep(l, t[0]), t[1..]);
    }
  }

  /** Empty or white-space-only input (after the comment passes) gives no statements. */
  lemma BlankInputNoStatements(sql: string)
    requires IsBlank(StripComments(sql))
    ensures SqlStatements(sql) == []
  {
    var t := StripComments(sql);
    assert ';' !in t;
    NoSemicolonOneStatement(sql);
    BlankTrim(t);
  }
}
