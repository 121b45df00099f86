/** Python string operations used by the p4 wrapper, on `seq<char>`. */
module Strings {

  /** `c.isdigit()` on a one-character Python 2 `str`: ASCII digits only. */
  predicate IsDigit(c: char) {
    '0' <= c <= '9'
  }

  /** `all([c.isdigit() for c in s])`; the empty string passes. */
  predicate AllDigits(s: string) {
    forall i :: 0 <= i < |s| ==> IsDigit(s[i])
  }

  /** Number of occurrences of `c` in `s`. */
  function Count(s: string, c: char): nat {
    if s == [] then 0 else (if s[0] == c then 1 else 0) + Count(s[1..], c)
  }

  /** `s.split(sep)` for a one-character separator: empty fields are kept. */
  function SplitOn(s: string, sep: char): (r: seq<string>)
    ensures |r| == Count(s, sep) + 1
    ensures forall k :: 0 <= k < |r| ==> sep !in r[k]
    decreases |s|
  {
    if s == [] then [[]]
    else
      var rest := SplitOn(s[1..], sep);
      if s[0] == sep then [[]] + rest
      else [[s[0]] + rest[0]] + rest[1..]
  }

  /** `sep.join(fields)`, the inverse of `SplitOn`. */
  function JoinOn(fields: seq<string>, sep: char): string
    requires |fields| > 0
  {
    if |fields| == 1 then fields[0] else fields[0] + [sep] + JoinOn(fields[1..], sep)
  }

  lemma {:induction false} SplitOnJoins(s: string, sep: char)
    ensures JoinOn(SplitOn(s, sep), sep) == s
    decreases |s|
  {
    if s != [] {
      SplitOnJoins(s[1..], sep);
      var rest := SplitOn(s[1..], sep);
      if s[0] == sep {
        assert [[]] + rest == [[]] + rest[..];
        assert s == [sep] + s[1..];
      } else if |rest| == 1 {
        assert s == [s[0]] + s[1..];
      } else {
        var r := SplitOn(s, sep);
        assert r[1..] == rest[1..];
        assert s == [s[0]] + s[1..];
      }
    }
  }

  /** Splitting at a first separator: the first field is everything before it. */
  lemma {:induction false} SplitOnFirst(a: string, sep: char, b: string)
    requires sep !in a
    ensures SplitOn(a + [sep] + b, sep) == [a] + SplitOn(b, sep)
    decreases |a|
  {
    if a == [] {
      assert a + [sep] + b == [sep] + b;
    } else {
      SplitOnFirst(a[1..], sep, b);
      assert (a + [sep] + b)[1..] == a[1..] + [sep] + b;
      assert [a[0]] + a[1..] == a;
    }
  }

  /** `s.partition(c)[0]`: everything before the first `c`, or all of `s`. */
  function Before(s: string, c: char): (r: string)
    ensures |r| <= |s| && r == s[..|r|]
    ensures c !in r
    ensures |r| < |s| ==> s[|r|] == c
    decreases |s|
  {
    if s == [] then []
    else if s[0] == c then []
    else [s[0]] + Before(s[1..], c)
  }

  lemma {:induction false} BeforeFirst(a: string, c: char, b: string)
    requires c !in a
    ensures Before(a + [c] + b, c) == a
    decreases |a|
  {
    if a != [] {
      BeforeFirst(a[1..], c, b);
      assert (a + [c] + b)[1..] == a[1..] + [c] + b;
      assert [a[0]] + a[1..] == a;
    }
  }

  /** `s.rstrip(c)` for a single character: removes every trailing `c`. */
  function RStrip(s: string, c: char): (r: string)
    ensures |r| <= |s| && r == s[..|r|]
    ensures r == [] || r[|r| - 1] != c
    ensures forall i :: |r| <= i < |s| ==> s[i] == c
    decreases |s|
  {
    if s != [] && s[|s| - 1] == c then RStrip(s[..|s| - 1], c) else s
  }

  /** A line break for Python 2 `str.splitlines`. */
  predicate IsLineBreak(c: char) {
    c == '\n' || c == '\r'
  }

  predicate NoLineBreak(s: string) {
    forall i :: 0 <= i < |s| ==> !IsLineBreak(s[i])
  }

  /** Index of the first line break of `s`, or `|s|` when there is none. */
  function LineEnd(s: string): (k: nat)
    ensures k <= |s|
    ensures NoLineBreak(s[..k])
    ensures k < |s| ==> IsLineBreak(s[k])
    decreases |s|
  {
    if s == [] then 0
    else if IsLineBreak(s[0]) then 0
    else
      var k := 1 + LineEnd(s[1..]);
      assert s[..k] == [s[0]] + s[1..][..k - 1];
      k
  }

  /** Python 2 `str.splitlines()`: lines end at '\n', '\r' or "\r\n"; the
      breaks are dropped, and a final break does not start an empty line. */
  function SplitLines(s: string): (lines: seq<string>)
    ensures forall k :: 0 <= k < |lines| ==> NoLineBreak(lines[k])
    decreases |s|
  {
    if s == [] then []
    else
      var k := LineEnd(s);
      if k == |s| then [s]
      else
        var skip := if s[k] == '\r' && k + 1 < |s| && s[k + 1] == '\n' then 2 else 1;
        [s[..k]] + SplitLines(s[k + skip..])
  }

  /** Each line followed by '\n'. */
  function Unlines(lines: seq<string>): string {
    if lines == [] then [] else lines[0] + "\n" + Unlines(lines[1..])
  }

  lemma {:induction false} UnlinesAppend(a: seq<string>, b: seq<string>)
    ensures Unlines(a + b) == Unlines(a) + Unlines(b)
    decreases |a|
  {
    if a == [] {
      assert a + b == b;
    } else {
      UnlinesAppend(a[1..], b);
      assert (a + b)[1..] == a[1..] + b;
      assert (a + b)[0] == a[0];
    }
  }

  /** A line without breaks, then '\n', "\r\n" or a '\r' not followed by
      '\n', is split off as one line, its break dropped. */
  lemma SplitLinesCons(line: string, rest: string)
    requires NoLineBreak(line)
    ensures SplitLines(line + "\n" + rest) == [line] + SplitLines(rest)
    ensures SplitLines(line + "\r\n" + rest) == [line] + SplitLines(rest)
    ensures rest == [] || rest[0] != '\n' ==> SplitLines(line + "\r" + rest) == [line] + SplitLines(rest)
  {
    var s := line + "\n" + rest;
    LineEndOf(line, '\n', rest);
    assert s[..|line|] == line;
    assert s[|line| + 1..] == rest;
    var t := line + "\r\n" + rest;
    assert t == line + ['\r'] + ("\n" + rest);
    LineEndOf(line, '\r', "\n" + rest);
    assert t[..|line|] == line;
    assert t[|line| + 1] == '\n';
    assert t[|line| + 2..] == rest;
    var u := line + "\r" + rest;
    LineEndOf(line, '\r', rest);
    assert u[..|line|] == line;
    assert u[|line| + 1..] == rest;
  }

  /** Text without a line break is one line, or none when it is empty. */
  lemma SplitLinesOneLine(s: string)
    requires NoLineBreak(s)
    ensures s == [] ==> SplitLines(s) == []
    ensures s != [] ==> SplitLines(s) == [s]
  {
    LineEndNone(s);
  }

  lemma {:induction false} LineEndNone(s: string)
    requires NoLineBreak(s)
    ensures LineEnd(s) == |s|
    decreases |s|
  {
    if s != [] {
      LineEndNone(s[1..]);
    }
  }

  lemma {:induction false} LineEndOf(line: string, br: char, rest: string)
    requires NoLineBreak(line) && IsLineBreak(br)
    ensures LineEnd(line + [br] + rest) == |line|
    decreases |line|
  {
    var s := line + [br] + rest;
    if line != [] {
      assert s[1..] == line[1..] + [br] + rest;
      LineEndOf(line[1..], br, rest);
    }
  }

  /** Splitting '\n'-terminated lines gives the lines back. */
  lemma {:induction false} SplitLinesUnlines(lines: seq<string>)
    requires forall k :: 0 <= k < |lines| ==> NoLineBreak(lines[k])
    ensures SplitLines(Unlines(lines)) == lines
    decreases |lines|
  {
    if lines != [] {
      SplitLinesUnlines(lines[1..]);
      SplitLinesCons(lines[0], Unlines(lines[1..]));
    }
  }

  /** Length of the maximal prefix of ASCII digits. */
  function DigitRun(s: string): (k: nat)
    ensures k <= |s|
    ensures AllDigits(s[..k])
    ensures k < |s| ==> !IsDigit(s[k])
    decreases |s|
  {
    if s == [] || !IsDigit(s[0]) then 0
    else
      var k := 1 + DigitRun(s[1..]);
      assert s[..k] == [s[0]] + s[1..][..k - 1];
      k
  }

  lemma {:induction false} DigitRunOf(d: string, t: string)
    requires AllDigits(d)
    requires t == [] || !IsDigit(t[0])
    ensures DigitRun(d + t) == |d|
    decreases |d|
  {
    if d != [] {
      assert (d + t)[1..] == d[1..] + t;
      DigitRunOf(d[1..], t);
    } else {
      assert d + t == t;
    }
  }
}
