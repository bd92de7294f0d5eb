/** The optional value returned by the scanners when nothing matches. */
module Wrappers {
  datatype Option<+T> = None | Some(value: T)
}

/**
 * The few JavaScript string built-ins the converter relies on: `startsWith`,
 * `trim`, `split(/\r?\n/)` and `join`. Strings are sequences of Unicode
 * scalar values.
 */
module Strings {

  /** `s.startsWith(prefix)` */
  predicate StartsWith(s: string, prefix: string) {
    |prefix| <= |s| && s[..|prefix|] == prefix
  }

  /** `prefix` occurs in `s` starting at index `i`. */
  predicate StartsAt(s: string, i: nat, p: string) {
    i + |p| <= |s| && s[i..i + |p|] == p
  }

  /** The characters a regular-expression `.` does not match, and where a multiline `^` may follow. */
  predicate IsLineTerminator(c: char) {
    c == '\n' || c == '\r' || c == '\U{2028}' || c == '\U{2029}'
  }

  /** The characters `String.prototype.trim` removes: WhiteSpace (including the Zs category) and LineTerminator. */
  predicate IsWhitespace(c: char) {
    || IsLineTerminator(c)
    || c == '\t' || c == '\U{B}' || c == '\U{C}' || c == ' '
    || c == '\U{A0}' || c == '\U{FEFF}' || c == '\U{1680}'
    || ('\U{2000}' <= c <= '\U{200A}')
    || c == '\U{202F}' || c == '\U{205F}' || c == '\U{3000}'
  }

  /** A string that trims to nothing. */
  predicate IsBlank(s: string) {
    forall k :: 0 <= k < |s| ==> IsWhitespace(s[k])
  }

  /** The first index at or after `i` that does not hold whitespace, or `|s|`. */
  function SkipWhitespace(s: string, i: nat): (r: nat)
    requires i <= |s|
    ensures i <= r <= |s|
    ensures forall k :: i <= k < r ==> IsWhitespace(s[k])
    ensures r < |s| ==> !IsWhitespace(s[r])
    decreases |s| - i
  {
    if i < |s| && IsWhitespace(s[i]) then SkipWhitespace(s, i + 1) else i
  }

  /** The index just past the last non-whitespace character of `s[lo..j]`, or `lo`. */
  function SkipWhitespaceBack(s: string, lo: nat, j: nat): (r: nat)
    requires lo <= j <= |s|
    ensures lo <= r <= j
    ensures forall k :: r <= k < j ==> IsWhitespace(s[k])
    ensures r > lo ==> !IsWhitespace(s[r - 1])
    decreases j
  {
    if j > lo && IsWhitespace(s[j - 1]) then SkipWhitespaceBack(s, lo, j - 1) else j
  }

  /** `s.trim()`: empty exactly for a blank string, otherwise a part of `s` with no whitespace at either end. */
  function Trim(s: string): (r: string)
    ensures r == [] <==> IsBlank(s)
    ensures r != [] ==> !IsWhitespace(r[0]) && !IsWhitespace(r[|r| - 1])
    ensures |r| <= |s|
    ensures exists a, b :: 0 <= a <= b <= |s| && r == s[a..b] && IsBlank(s[..a]) && IsBlank(s[b..])
  {
    var a := SkipWhitespace(s, 0);
    var b := SkipWhitespaceBack(s, a, |s|);
    assert IsBlank(s[..a]) by {
      forall k | 0 <= k < a ensures IsWhitespace(s[..a][k]) {
        assert s[..a][k] == s[k];
      }
    }
    assert IsBlank(s[b..]) by {
      forall k | 0 <= k < |s| - b ensures IsWhitespace(s[b..][k]) {
        assert s[b..][k] == s[b + k];
      }
    }
    s[a..b]
  }

  /**
   * `s.split(/\r?\n/)`: every '\n' ends a line, and a '\r' right before it
   * belongs to the separator. There is always at least one line.
   */
  function SplitLines(s: string): (lines: seq<string>)
    ensures |lines| >= 1
    ensures forall k :: 0 <= k < |lines| ==> '\n' !in lines[k]
  {
    if s == [] then [[]]
    else if s[0] == '\n' then [[]] + SplitLines(s[1..])
    else if s[0] == '\r' && |s| >= 2 && s[1] == '\n' then [[]] + SplitLines(s[2..])
    else
      var rest := SplitLines(s[1..]);
      [[s[0]] + rest[0]] + rest[1..]
  }

  /** `lines.join(sep)` */
  function Join(lines: seq<string>, sep: string): string {
    if |lines| == 0 then []
    else if |lines| == 1 then lines[0]
    else lines[0] + sep + Join(lines[1..], sep)
  }

  /** Every "\r\n" replaced by "\n", scanning left to right. */
  function NormalizeNewlines(s: string): string {
    if s == [] then []
    else if s[0] == '\r' && |s| >= 2 && s[1] == '\n' then "\n" + NormalizeNewlines(s[2..])
    else [s[0]] + NormalizeNewlines(s[1..])
  }

  /** Joining the first line with a prefix character prepended prepends that character to the whole. */
  lemma {:induction false} JoinConsFirst(c: char, lines: seq<string>, sep: string)
    requires |lines| >= 1
    ensures Join([[c] + lines[0]] + lines[1..], sep) == [c] + Join(lines, sep)
  {
    var l := [[c] + lines[0]] + lines[1..];
    if |lines| > 1 {
      assert l[1..] == lines[1..];
    }
  }

  /** Splitting into lines and joining them back with "\n" only normalises "\r\n" to "\n". */
  lemma {:induction false} JoinSplitLines(s: string)
    ensures Join(SplitLines(s), "\n") == NormalizeNewlines(s)
  {
    if s == [] {
    } else if s[0] == '\n' {
      JoinSplitLines(s[1..]);
      assert ([[]] + SplitLines(s[1..]))[1..] == SplitLines(s[1..]);
    } else if s[0] == '\r' && |s| >= 2 && s[1] == '\n' {
      JoinSplitLines(s[2..]);
      assert ([[]] + SplitLines(s[2..]))[1..] == SplitLines(s[2..]);
    } else {
      JoinSplitLines(s[1..]);
      JoinConsFirst(s[0], SplitLines(s[1..]), "\n");
    }
  }

  /** No '\n' and no '\r'. */
  predicate OneLine(a: string) {
    forall k :: 0 <= k < |a| ==> a[k] != '\n' && a[k] != '\r'
  }

  /** A string without line breaks is one line. */
  lemma {:induction false} SplitLinesOneLine(a: string)
    requires OneLine(a)
    ensures SplitLines(a) == [a]
  {
    if a != [] {
      SplitLinesOneLine(a[1..]);
      assert [a[0]] + a[1..] == a;
    }
  }

  /** A line followed by "\n" is split off as the first line. */
  lemma {:induction false} SplitLinesBreak(a: string, b: string)
    requires OneLine(a)
    ensures SplitLines(a + "\n" + b) == [a] + SplitLines(b)
  {
    if a == [] {
      assert a + "\n" + b == "\n" + b;
      assert ("\n" + b)[1..] == b;
    } else {
      var s := a + "\n" + b;
      assert s[1..] == a[1..] + "\n" + b;
      SplitLinesBreak(a[1..], b);
      assert [a[0]] + a[1..] == a;
    }
  }

  /** Two lines separated by one "\n" split into exactly those two lines. */
  lemma SplitTwoLines(a: string, b: string)
    requires OneLine(a) && OneLine(b)
    ensures SplitLines(a + "\n" + b) == [a, b]
  {
    SplitLinesBreak(a, b);
    SplitLinesOneLine(b);
  }
}
