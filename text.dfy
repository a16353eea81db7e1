/**
 * The PHP string built-ins the plugin relies on, over byte strings.
 * A PHP string is a sequence of bytes; each byte is one `char` here.
 */
module Text {
  import opened Wrappers

  /** The characters PHP's `trim()` removes by default: space, \t, \n, \r, \0 and \x0B. */
  predicate IsTrimChar(c: char) {
    c == ' ' || c == '\t' || c == '\n' || c == '\r' || c == '\0' || c == '\U{000B}'
  }

  /** PCRE's `\s`: space, \t, \n, \x0B, \f and \r (no \0, but \f, unlike `trim()`). */
  predicate IsSpace(c: char) {
    c == ' ' || c == '\t' || c == '\n' || c == '\r' || c == '\U{000B}' || c == '\U{000C}'
  }

  predicate IsDigit(c: char) {
    '0' <= c <= '9'
  }

  /** PHP's `empty()` on a string: true for "" and for "0". */
  predicate PhpEmpty(s: string) {
    s == "" || s == "0"
  }

  /** `preg_match('/^\s*$/', s)`: every byte is PCRE white space. */
  predicate IsBlank(s: string) {
    forall i :: 0 <= i < |s| ==> IsSpace(s[i])
  }

  predicate StartsWith(s: string, prefix: string) {
    |prefix| <= |s| && s[..|prefix|] == prefix
  }

  predicate EndsWith(s: string, suffix: string) {
    |suffix| <= |s| && s[|s| - |suffix|..] == suffix
  }

  /** `strpos($s, $needle) !== false`. */
  predicate Contains(s: string, needle: string)
    decreases |s|
  {
    StartsWith(s, needle) || (s != [] && Contains(s[1..], needle))
  }

  /** `needle` occurs in `s` at position `i`. */
  predicate OccursAt(s: string, needle: string, i: int) {
    0 <= i && i + |needle| <= |s| && s[i..i + |needle|] == needle
  }

  /** `Contains` finds exactly the occurrences of `needle` at some position of `s`. */
  lemma {:induction false} ContainsAt(s: string, needle: string)
    ensures Contains(s, needle) <==> exists i :: OccursAt(s, needle, i)
    decreases |s|
  {
    if StartsWith(s, needle) {
      assert OccursAt(s, needle, 0);
    } else if s != [] {
      ContainsAt(s[1..], needle);
      if exists i :: OccursAt(s, needle, i) {
        var i :| OccursAt(s, needle, i);
        assert i != 0;
        assert OccursAt(s[1..], needle, i - 1) by {
          assert s[1..][i - 1..i - 1 + |needle|] == s[i..i + |needle|];
        }
      }
      if Contains(s[1..], needle) {
        var i :| OccursAt(s[1..], needle, i);
        assert OccursAt(s, needle, i + 1) by {
          assert s[1..][i..i + |needle|] == s[i + 1..i + 1 + |needle|];
        }
      }
    } else {
      assert forall i :: OccursAt(s, needle, i) ==> i == 0;
    }
  }

  /** A character absent from a string is absent from its tail. */
  lemma NotInTail(s: string, c: char)
    requires s != [] && c !in s
    ensures c !in s[1..] && s == [s[0]] + s[1..]
  {
    assert s == [s[0]] + s[1..];
  }

  /** Sequence concatenation is associative (stated once, so that proofs need not re-derive it). */
  lemma AppendAssoc<T>(a: seq<T>, b: seq<T>, c: seq<T>)
    ensures a + b + c == a + (b + c)
  {
  }

  /** Joining the empty string to the first element changes nothing. */
  lemma EmptyJoinHead<T>(q: seq<seq<T>>)
    requires q != []
    ensures [[] + q[0]] + q[1..] == q
  {
    assert [] + q[0] == q[0];
  }

  /** `ltrim()`: the longest suffix of `s` that does not start with a trim character. */
  function TrimLeft(s: string): (r: string)
    ensures |r| <= |s| && r == s[|s| - |r|..]
    ensures forall i :: 0 <= i < |s| - |r| ==> IsTrimChar(s[i])
    ensures r != [] ==> !IsTrimChar(r[0])
    decreases |s|
  {
    if s != [] && IsTrimChar(s[0]) then TrimLeft(s[1..]) else s
  }

  /** `rtrim()`: the longest prefix of `s` that does not end with a trim character. */
  function TrimRight(s: string): (r: string)
    ensures |r| <= |s| && r == s[..|r|]
    ensures forall i :: |r| <= i < |s| ==> IsTrimChar(s[i])
    ensures r != [] ==> !IsTrimChar(r[|r| - 1])
    decreases |s|
  {
    if s != [] && IsTrimChar(s[|s| - 1]) then TrimRight(s[..|s| - 1]) else s
  }

  /** `trim()`: `s` with its leading and trailing trim characters removed. */
  function Trim(s: string): (r: string)
    ensures r == [] || (!IsTrimChar(r[0]) && !IsTrimChar(r[|r| - 1]))
    ensures r == [] <==> forall i :: 0 <= i < |s| ==> IsTrimChar(s[i])
  {
    var l := TrimLeft(s);
    var r := TrimRight(l);
    assert r == [] ==> l == [];
    r
  }

  /** Trimming an already trimmed string changes nothing. */
  lemma TrimIdempotent(s: string)
    ensures Trim(Trim(s)) == Trim(s)
  {
    var t := Trim(s);
    if t != [] {
      assert TrimLeft(t) == t;
      assert TrimRight(t) == t;
    }
  }

  /** A string that neither starts nor ends with a trim character is left as it is by `trim()`. */
  lemma TrimmedAlready(s: string)
    requires s != [] && !IsTrimChar(s[0]) && !IsTrimChar(s[|s| - 1])
    ensures Trim(s) == s
  {
    assert TrimLeft(s) == s;
    assert TrimRight(s) == s;
  }

  /** Trimming blank text leaves blank text (it only removes bytes from the ends). */
  lemma BlankTrim(s: string)
    requires IsBlank(s)
    ensures IsBlank(Trim(s))
  {
    var l := TrimLeft(s);
    forall i | 0 <= i < |l| ensures IsSpace(l[i]) {
      assert l[i] == s[|s| - |l| + i];
    }
    var r := TrimRight(l);
    forall i | 0 <= i < |r| ensures IsSpace(r[i]) {
      assert r[i] == l[i];
    }
  }

  /** A string whose last byte is not a trim character keeps that byte last after `trim()`. */
  lemma TrimKeepsLast(s: string)
    requires s != [] && !IsTrimChar(s[|s| - 1])
    ensures Trim(s) != [] && Trim(s)[|Trim(s)| - 1] == s[|s| - 1]
  {
    var l := TrimLeft(s);
    assert l != [] && l[|l| - 1] == s[|s| - 1] by {
      assert l[|l| - 1] == s[|s| - |l| + |l| - 1];
    }
    assert TrimRight(l) == l;
  }

  function ToLowerChar(c: char): char {
    if 'A' <= c <= 'Z' then (c as int + 32) as char else c
  }

  function ToUpperChar(c: char): char {
    if 'a' <= c <= 'z' then (c as int - 32) as char else c
  }

  /** `strtolower()` on ASCII letters. */
  function ToLower(s: string): (r: string)
    ensures |r| == |s| && forall i :: 0 <= i < |s| ==> r[i] == ToLowerChar(s[i])
  {
    seq(|s|, i requires 0 <= i < |s| => ToLowerChar(s[i]))
  }

  /** `ucfirst()`: the first byte upper-cased. */
  function UcFirst(s: string): (r: string)
    ensures |r| == |s| && (s != [] ==> r[0] == ToUpperChar(s[0]) && r[1..] == s[1..])
  {
    if s == [] then s else [ToUpperChar(s[0])] + s[1..]
  }

  /** A case-insensitive (PCRE `/i`) match of `prefix` at the start of `s`. */
  predicate StartsWithIgnoreCase(s: string, prefix: string) {
    |prefix| <= |s| && ToLower(s[..|prefix|]) == ToLower(prefix)
  }

  /** `str_replace($from, $to, $s)`: every non-overlapping occurrence of `from`, leftmost first, becomes `to`. */
  function ReplaceAll(s: string, from: string, to: string): (r: string)
    ensures from == [] ==> r == s
    decreases |s|
  {
    if from == [] then s
    else if StartsWith(s, from) then to + ReplaceAll(s[|from|..], from, to)
    else if s == [] then []
    else [s[0]] + ReplaceAll(s[1..], from, to)
  }

  /** A string that does not contain `from` is left as it is by `str_replace`. */
  lemma {:induction false} ReplaceAllAbsent(s: string, from: string, to: string)
    requires !Contains(s, from)
    ensures ReplaceAll(s, from, to) == s
    decreases |s|
  {
    if from != [] && s != [] {
      ReplaceAllAbsent(s[1..], from, to);
    }
  }

  /** `str_replace` with single-character search and replacement strings. */
  function ReplaceChar(s: string, from: char, to: char): (r: string)
    ensures |r| == |s|
    ensures forall i :: 0 <= i < |s| ==> r[i] == (if s[i] == from then to else s[i])
  {
    seq(|s|, i requires 0 <= i < |s| => if s[i] == from then to else s[i])
  }

  /** `implode($sep, $xs)`. */
  function Join(sep: string, xs: seq<string>): string {
    if xs == [] then ""
    else if |xs| == 1 then xs[0]
    else xs[0] + sep + Join(sep, xs[1..])
  }

  /** Concatenation of a sequence of strings. */
  function Concat(xs: seq<string>): string {
    if xs == [] then "" else xs[0] + Concat(xs[1..])
  }

  lemma {:induction false} ConcatAppend(xs: seq<string>, ys: seq<string>)
    ensures Concat(xs + ys) == Concat(xs) + Concat(ys)
  {
    if xs != [] {
      assert (xs + ys)[0] == xs[0] && (xs + ys)[1..] == xs[1..] + ys;
      ConcatAppend(xs[1..], ys);
      calc {
        Concat(xs + ys);
        xs[0] + Concat(xs[1..] + ys);
        xs[0] + (Concat(xs[1..]) + Concat(ys));
        (xs[0] + Concat(xs[1..])) + Concat(ys);
      }
    } else {
      assert xs + ys == ys;
    }
  }

  /** The position of the first `c` in `s`, as `strpos` finds it. */
  function IndexOf(s: string, c: char): (r: Option<nat>)
    ensures r.Some? ==> r.value < |s| && s[r.value] == c && c !in s[..r.value]
    ensures r.None? <==> c !in s
    decreases |s|
  {
    if s == [] then None
    else if s[0] == c then Some(0)
    else match IndexOf(s[1..], c)
      case None => None
      case Some(j) => Some(j + 1)
  }

  /** `explode($c, $s)`: the pieces of `s` between occurrences of `c`. */
  function Explode(s: string, c: char): (r: seq<string>)
    ensures |r| >= 1
    ensures forall k :: 0 <= k < |r| ==> c !in r[k]
    decreases |s|
  {
    match IndexOf(s, c)
    case None => [s]
    case Some(i) => [s[..i]] + Explode(s[i + 1..], c)
  }

  /** `implode` undoes `explode`: nothing between the delimiters is lost or reordered. */
  lemma {:induction false} ExplodeJoin(s: string, c: char)
    ensures Join([c], Explode(s, c)) == s
    decreases |s|
  {
    match IndexOf(s, c)
    case None =>
    case Some(i) =>
      ExplodeJoin(s[i + 1..], c);
      var rest := Explode(s[i + 1..], c);
      assert Explode(s, c) == [s[..i]] + rest;
      assert Join([c], Explode(s, c)) == s[..i] + [c] + Join([c], rest);
      assert s == s[..i] + [c] + s[i + 1..];
  }

  function DigitChar(d: nat): char
    requires d < 10
  {
    ('0' as int + d) as char
  }

  /** PHP's conversion of a non-negative integer to its decimal string. */
  function NatToString(n: nat): (r: string)
    ensures r != [] && forall i :: 0 <= i < |r| ==> IsDigit(r[i])
  {
    if n < 10 then [DigitChar(n)] else NatToString(n / 10) + [DigitChar(n % 10)]
  }
}
