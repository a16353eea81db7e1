/**
 * The comment-stripping pass that `split_sql` and `import_sql` run before anything else
 * (includes/class-import.php:265-268 and :350-351): two regular-expression replacements,
 * written out here as the scans the regular-expression engine performs.
 * Neither pass knows about string literals, so a `--` or a block comment inside a quoted
 * value is removed as well (block comments are written "slash-star ... star-slash" below).
 */
module Comments {
  import opened Wrappers
  import opened Text

  /** The part of `s` from its first newline on ("" when there is none): what `--.*$` under `/m` leaves standing. */
  function FromNewline(s: string): (r: string)
    ensures |r| <= |s|
    ensures r == [] || r[0] == '\n'
    decreases |s|
  {
    if s == [] || s[0] == '\n' then s else FromNewline(s[1..])
  }

  /** What `FromNewline` drops is a newline-free prefix: the pass never crosses a line. */
  lemma {:induction false} FromNewlineIsSuffix(s: string)
    ensures var r := FromNewline(s); r == s[|s| - |r|..] && '\n' !in s[..|s| - |r|]
    decreases |s|
  {
    if s != [] && s[0] != '\n' {
      FromNewlineIsSuffix(s[1..]);
      var r := FromNewline(s);
      assert s[|s| - |r|..] == s[1..][|s| - 1 - |r|..];
      assert s[..|s| - |r|] == [s[0]] + s[1..][..|s| - 1 - |r|];
    }
  }

  /** No two adjacent dashes: the text holds no line comment. */
  ghost predicate NoDoubleDash(r: string) {
    forall i, j {:trigger r[i], r[j]} :: 0 <= i < |r| && j == i + 1 && j < |r| ==> !(r[i] == '-' && r[j] == '-')
  }

  /** `s` opens a line comment. */
  predicate IsLineCommentStart(s: string) {
    |s| >= 2 && s[0] == '-' && s[1] == '-'
  }

  /**
   * `preg_replace('/--.*$/m', '', s)`: every `--` and the rest of its line (up to, not including,
   * the newline) is removed, scanning left to right.
   */
  function StripLineComments(s: string): (r: string)
    ensures |r| <= |s|
    ensures '-' !in s ==> r == s
    decreases |s|
  {
    if IsLineCommentStart(s) then
      var rest := FromNewline(s);
      assert s[0] == '-';
      StripLineComments(rest)
    else if s == [] then []
    else
      assert '-' !in s ==> '-' !in s[1..] && s == [s[0]] + s[1..] by {
        if '-' !in s { NotInTail(s, '-'); }
      }
      [s[0]] + StripLineComments(s[1..])
  }

  /** After the pass no `--` is left: it removes every line comment, including any it brings together. */
  lemma {:induction false} StripLineCommentsLeavesNoDoubleDash(s: string)
    ensures var r := StripLineComments(s);
      (s != [] && !IsLineCommentStart(s) ==> r != [] && r[0] == s[0]) && NoDoubleDash(r)
    decreases |s|
  {
    var r := StripLineComments(s);
    if IsLineCommentStart(s) {
      var rest := FromNewline(s);
      assert s[0] == '-';
      StripLineCommentsLeavesNoDoubleDash(rest);
    } else if s != [] {
      var tail := StripLineComments(s[1..]);
      StripLineCommentsLeavesNoDoubleDash(s[1..]);
      assert r == [s[0]] + tail;
      if |s| >= 2 && s[0] == '-' {
        assert s[1] != '-';
        assert !IsLineCommentStart(s[1..]);
        assert tail[0] == s[1];
      }
      forall i, j | 1 <= i < |r| && j == i + 1 && j < |r| ensures !(r[i] == '-' && r[j] == '-') {
        assert r[i] == tail[i - 1] && r[j] == tail[j - 1];
      }
    }
  }

  /** Text without a newline, followed by a newline or nothing, is skipped whole by the `.*$` part. */
  lemma {:induction false} FromNewlineSkips(b: string, c: string)
    requires '\n' !in b
    requires c == [] || c[0] == '\n'
    ensures FromNewline(b + c) == c
    decreases |b|
  {
    if b != [] {
      assert (b + c)[1..] == b[1..] + c;
      FromNewlineSkips(b[1..], c);
    } else {
      assert b + c == c;
    }
  }

  /** `s` opens a block comment. */
  predicate IsBlockCommentStart(s: string) {
    |s| >= 2 && s[0] == '/' && s[1] == '*'
  }

  /** The position in `s` of the first star that is followed by a slash. */
  function FindCommentClose(s: string): (r: Option<nat>)
    ensures r.Some? ==> r.value + 2 <= |s| && s[r.value] == '*' && s[r.value + 1] == '/'
    ensures r.Some? ==> forall j :: 0 <= j < r.value ==> !(s[j] == '*' && s[j + 1] == '/')
    ensures r.None? ==> forall j :: 0 <= j < |s| - 1 ==> !(s[j] == '*' && s[j + 1] == '/')
    decreases |s|
  {
    if |s| < 2 then None
    else if s[0] == '*' && s[1] == '/' then Some(0)
    else match FindCommentClose(s[1..])
      case None => None
      case Some(j) => Some(j + 1)
  }

  /**
   * The block-comment `preg_replace` (pattern: slash-star, lazy `.*?` under `/s`, star-slash):
   * every slash-star that has a later star-slash is removed together with the shortest text up to
   * and including that star-slash; an unclosed slash-star stays.
   */
  function StripBlockComments(s: string): (r: string)
    ensures |r| <= |s|
    ensures '/' !in s ==> r == s
    decreases |s|
  {
    if IsBlockCommentStart(s) && FindCommentClose(s[2..]).Some? then
      StripBlockComments(s[2 + FindCommentClose(s[2..]).value + 2..])
    else if s == [] then []
    else
      assert '/' !in s ==> '/' !in s[1..] && s == [s[0]] + s[1..] by {
        if '/' !in s { NotInTail(s, '/'); }
      }
      [s[0]] + StripBlockComments(s[1..])
  }

  /** Both passes, line comments first, as the PHP code runs them. */
  function StripComments(s: string): (r: string)
    ensures |r| <= |s|
    ensures '-' !in s && '/' !in s ==> r == s
  {
    StripBlockComments(StripLineComments(s))
  }

  /** Splitting off the first character of a non-empty prefix. */
  lemma SeqConsSplit(a: string, t: string)
    requires a != []
    ensures a + t == [a[0]] + (a[1..] + t) && a == [a[0]] + a[1..]
  {
  }

  /** A character other than a dash is kept, and the scan goes on after it. */
  lemma StripLineCommentsCons(x: char, s: string)
    requires x != '-'
    ensures StripLineComments([x] + s) == [x] + StripLineComments(s)
  {
    var xs := [x] + s;
    assert xs[0] == x;
    assert !IsLineCommentStart(xs);
    assert xs[1..] == s;
  }

  /** A line that starts with `--` is removed up to its newline. */
  lemma StripLineCommentAtStart(b: string, c: string)
    requires '\n' !in b
    requires c == [] || c[0] == '\n'
    ensures StripLineComments("--" + b + c) == StripLineComments(c)
  {
    var s := "--" + b + c;
    assert IsLineCommentStart(s);
    FromNewlineSkips("--" + b, c);
  }

  /** Text without a dash passes through unchanged, and the scan resumes right after it. */
  lemma {:induction false} StripLineCommentsKeepsPrefix(a: string, t: string)
    requires forall i :: 0 <= i < |a| ==> a[i] != '-'
    ensures StripLineComments(a + t) == a + StripLineComments(t)
    decreases |a|
  {
    if a == [] {
      assert a + t == t;
    } else {
      var s' := a[1..] + t;
      assert a + t == [a[0]] + s' by { SeqConsSplit(a, t); }
      StripLineCommentsKeepsPrefix(a[1..], t);
      StripLineCommentsCons(a[0], s');
    }
  }

  /**
   * A `--` removes the rest of its line wherever it stands, also inside a quoted value:
   * the pass does not track quotes.
   */
  lemma DashDashCutsLine(a: string, b: string, c: string)
    requires forall i :: 0 <= i < |a| ==> a[i] != '-'
    requires '\n' !in b
    requires c == [] || c[0] == '\n'
    ensures StripLineComments(a + "--" + b + c) == a + StripLineComments(c)
  {
    assert a + "--" + b + c == a + ("--" + b + c);
    StripLineCommentsKeepsPrefix(a, "--" + b + c);
    StripLineCommentAtStart(b, c);
  }
}
