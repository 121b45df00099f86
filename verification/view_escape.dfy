/** Escaping of depot paths for a branch spec's View field (`_view_escape`). */
module ViewEscaper {

  import opened Outcomes

  /** The characters `'@#*% '` that a view path may not carry literally. */
  predicate IsBad(c: char) {
    c == '@' || c == '#' || c == '*' || c == '%' || c == ' '
  }

  predicate HasBad(s: string) {
    exists i :: 0 <= i < |s| && IsBad(s[i])
  }

  /** Number of bad characters in `s`. */
  function BadCount(s: string): nat {
    if s == [] then 0 else (if IsBad(s[0]) then 1 else 0) + BadCount(s[1..])
  }

  /** A lowercase hexadecimal digit, as Python's `hex()` writes it. */
  function HexDigit(n: nat): (c: char)
    requires n < 16
    ensures IsHexDigit(c) && HexValue(c) == n
  {
    if n < 10 then ('0' as int + n) as char else ('a' as int + n - 10) as char
  }

  predicate IsHexDigit(c: char) {
    '0' <= c <= '9' || 'a' <= c <= 'f' || 'A' <= c <= 'F'
  }

  function HexValue(c: char): (n: nat)
    requires IsHexDigit(c)
    ensures n < 16
  {
    if '0' <= c <= '9' then c as int - '0' as int
    else if 'a' <= c <= 'f' then c as int - 'a' as int + 10
    else c as int - 'A' as int + 10
  }

  /** `hex(n)[2:]`: lowercase hexadecimal without padding or leading zeros. */
  function LowerHex(n: nat): (r: string)
    ensures |r| >= 1
    decreases n
  {
    if n < 16 then [HexDigit(n)] else LowerHex(n / 16) + [HexDigit(n % 16)]
  }

  /** What one character of the input becomes in the output. */
  function EscapeChar(c: char): (r: string)
    ensures IsBad(c) ==> |r| == 3 && r[0] == '%' && IsHexDigit(r[1]) && IsHexDigit(r[2])
                         && 16 * HexValue(r[1]) + HexValue(r[2]) == c as int
                         && r[1] != '%' && r[2] != '%'
    ensures !IsBad(c) ==> r == [c]
  {
    if IsBad(c) then
      var n := c as int;
      assert 16 <= n < 256 && n / 16 < 16;
      assert LowerHex(n) == [HexDigit(n / 16), HexDigit(n % 16)];
      "%" + LowerHex(n)
    else [c]
  }

  /** Python's `hex()` gives exactly these five escapes. */
  lemma EscapeTable()
    ensures EscapeChar('@') == "%40"
    ensures EscapeChar('#') == "%23"
    ensures EscapeChar('*') == "%2a"
    ensures EscapeChar('%') == "%25"
    ensures EscapeChar(' ') == "%20"
  {
  }

  /** The specification of `_view_escape`'s general loop: each character escaped in order. */
  function Escaped(s: string): string {
    if s == [] then [] else EscapeChar(s[0]) + Escaped(s[1..])
  }

  lemma {:induction false} EscapedAppend(a: string, b: string)
    ensures Escaped(a + b) == Escaped(a) + Escaped(b)
    decreases |a|
  {
    if a == [] {
      assert a + b == b;
    } else {
      assert (a + b)[0] == a[0];
      assert (a + b)[1..] == a[1..] + b;
      EscapedAppend(a[1..], b);
    }
  }

  /** Every bad character grows by two; nothing else changes length. */
  lemma {:induction false} EscapedLength(s: string)
    ensures |Escaped(s)| == |s| + 2 * BadCount(s)
    decreases |s|
  {
    if s != [] {
      EscapedLength(s[1..]);
    }
  }

  /** The fast path is sound: escaping changes `s` exactly when `s` has a bad character. */
  lemma {:induction false} EscapedIdentity(s: string)
    ensures Escaped(s) == s <==> !HasBad(s)
    decreases |s|
  {
    if s == [] {
    } else {
      EscapedIdentity(s[1..]);
      EscapedLength(s);
      EscapedLength(s[1..]);
      if IsBad(s[0]) {
        assert HasBad(s);
      } else {
        assert HasBad(s[1..]) ==> HasBad(s) by {
          if HasBad(s[1..]) {
            var i :| 0 <= i < |s[1..]| && IsBad(s[1..][i]);
            assert IsBad(s[i + 1]);
          }
        }
        assert HasBad(s) ==> HasBad(s[1..]) by {
          if HasBad(s) {
            var i :| 0 <= i < |s| && IsBad(s[i]);
            assert i != 0;
            assert IsBad(s[1..][i - 1]);
          }
        }
        assert s == [s[0]] + s[1..];
      }
    }
  }

  /** The escaped text contains none of `@ # *` or space; a `%` is always
      followed by two hexadecimal digits; every other character comes from
      the input. */
  lemma {:induction false} EscapedIsClean(s: string)
    ensures forall i :: 0 <= i < |Escaped(s)| ==> !IsBad(Escaped(s)[i]) || Escaped(s)[i] == '%'
    ensures forall i :: 0 <= i < |Escaped(s)| && Escaped(s)[i] == '%' ==>
              i + 2 < |Escaped(s)| && IsHexDigit(Escaped(s)[i + 1]) && IsHexDigit(Escaped(s)[i + 2])
    ensures forall i :: 0 <= i < |Escaped(s)| ==>
              Escaped(s)[i] in s || Escaped(s)[i] == '%' || IsHexDigit(Escaped(s)[i])
    decreases |s|
  {
    if s != [] {
      EscapedIsClean(s[1..]);
      var e, t := EscapeChar(s[0]), Escaped(s[1..]);
      assert Escaped(s) == e + t;
      forall i | 0 <= i < |e + t|
        ensures !IsBad((e + t)[i]) || (e + t)[i] == '%'
        ensures (e + t)[i] == '%' ==>
                  i + 2 < |e + t| && IsHexDigit((e + t)[i + 1]) && IsHexDigit((e + t)[i + 2])
        ensures (e + t)[i] in s || (e + t)[i] == '%' || IsHexDigit((e + t)[i])
      {
        if i >= |e| {
          assert (e + t)[i] == t[i - |e|];
          assert t[i - |e|] in s[1..] ==> t[i - |e|] in s;
          if t[i - |e|] == '%' {
            assert (e + t)[i + 1] == t[i - |e| + 1];
            assert (e + t)[i + 2] == t[i - |e| + 2];
          }
        }
      }
    }
  }

  /** Decoding of `%xx` escapes; text that is not a well-formed escape fails. */
  function Unescape(s: string): Option<string>
    decreases |s|
  {
    if s == [] then Some([])
    else if s[0] == '%' then
      if |s| >= 3 && IsHexDigit(s[1]) && IsHexDigit(s[2]) then
        match Unescape(s[3..])
        case Some(t) => Some([(16 * HexValue(s[1]) + HexValue(s[2])) as char] + t)
        case None => None
      else None
    else
      match Unescape(s[1..])
      case Some(t) => Some([s[0]] + t)
      case None => None
  }

  /** Decoding undoes escaping. */
  lemma {:induction false} UnescapeEscaped(s: string)
    ensures Unescape(Escaped(s)) == Some(s)
    decreases |s|
  {
    if s != [] {
      UnescapeEscaped(s[1..]);
      var e, t := EscapeChar(s[0]), Escaped(s[1..]);
      var w := e + t;
      if IsBad(s[0]) {
        assert w[0] == '%' && w[1] == e[1] && w[2] == e[2];
        assert w[3..] == t;
      } else {
        assert w[0] == s[0] && w[1..] == t;
      }
      assert s == [s[0]] + s[1..];
    }
  }

  /** Escaping is injective: distinct paths never share an escaped form. */
  lemma EscapedInjective(s: string, t: string)
    requires Escaped(s) == Escaped(t)
    ensures s == t
  {
    UnescapeEscaped(s);
    UnescapeEscaped(t);
  }

  /** `_view_escape`: the identity when no bad character is present, else the
      escaping loop. */
  method ViewEscape(s: string) returns (escaped: string)
    ensures escaped == Escaped(s)
    ensures !HasBad(s) ==> escaped == s
  {
    EscapedIdentity(s);
    if !exists i :: 0 <= i < |s| && IsBad(s[i]) {
      return s;
    }
    escaped := "";
    for i := 0 to |s|
      invariant escaped == Escaped(s[..i])
    {
      if IsBad(s[i]) {
        escaped := escaped + "%" + LowerHex(s[i] as int);
      } else {
        escaped := escaped + [s[i]];
      }
      EscapedAppend(s[..i], [s[i]]);
      assert s[..i + 1] == s[..i] + [s[i]];
    }
    assert s[..|s|] == s;
  }
}
