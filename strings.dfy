/** Text helpers with Python's semantics: `str.strip`, `str.split(sep)[0]`,
    `str.startswith`, `str.endswith`, `str(n)` and `"\n".join`. */
module Strings {

  /** The characters for which Python's `str.isspace()` holds; `str.strip()`
      without arguments removes exactly these. */
  const Whitespace: set<char> :=
    {' ', '\t', '\n', '\r', '\U{000B}', '\U{000C}', '\U{001C}', '\U{001D}', '\U{001E}', '\U{001F}',
     '\U{0085}', '\U{00A0}', '\U{1680}', '\U{2000}', '\U{2001}', '\U{2002}', '\U{2003}', '\U{2004}',
     '\U{2005}', '\U{2006}', '\U{2007}', '\U{2008}', '\U{2009}', '\U{200A}', '\U{2028}', '\U{2029}',
     '\U{202F}', '\U{205F}', '\U{3000}'}

  predicate StartsWith(s: string, p: string)
  {
    |p| <= |s| && s[..|p|] == p
  }

  predicate EndsWith(s: string, p: string)
  {
    |p| <= |s| && s[|s| - |p|..] == p
  }

  /** `s.lstrip(cs)`: drop leading characters that belong to `cs`. */
  function StripLeft(s: string, cs: set<char>): (r: string)
    ensures |r| <= |s| && r == s[|s| - |r|..]
    ensures r == [] || r[0] !in cs
    ensures forall i :: 0 <= i < |s| - |r| ==> s[i] in cs
  {
    if |s| > 0 && s[0] in cs then StripLeft(s[1..], cs) else s
  }

  /** `s.rstrip(cs)`: drop trailing characters that belong to `cs`. */
  function StripRight(s: string, cs: set<char>): (r: string)
    ensures |r| <= |s| && r == s[..|r|]
    ensures r == [] || r[|r| - 1] !in cs
    ensures forall i :: |r| <= i < |s| ==> s[i] in cs
  {
    if |s| > 0 && s[|s| - 1] in cs then StripRight(s[..|s| - 1], cs) else s
  }

  /** `s.strip(cs)`: drop characters of `cs` at both ends. */
  function StripChars(s: string, cs: set<char>): (r: string)
    ensures |r| <= |s|
    ensures r == [] || (r[0] !in cs && r[|r| - 1] !in cs)
  {
    StripRight(StripLeft(s, cs), cs)
  }

  /** `s.strip()`. */
  function Strip(s: string): (r: string)
    ensures |r| <= |s|
    ensures r == [] || (r[0] !in Whitespace && r[|r| - 1] !in Whitespace)
  {
    StripChars(s, Whitespace)
  }

  /** `r` is `s[a..a + |r|]`, and every character of `s` outside it is in `cs`. */
  predicate Window(s: string, cs: set<char>, a: nat, r: string)
  {
    a + |r| <= |s| && r == s[a..a + |r|] &&
    (forall i :: 0 <= i < a ==> s[i] in cs) &&
    (forall i :: a + |r| <= i < |s| ==> s[i] in cs)
  }

  /** Stripping keeps a window of the input: only characters of `cs` are
      removed, and only at the two ends. */
  lemma StripCharsWindow(s: string, cs: set<char>)
    ensures exists a: nat :: Window(s, cs, a, StripChars(s, cs))
  {
    var l := StripLeft(s, cs);
    var r := StripRight(l, cs);
    var a := |s| - |l|;
    assert Window(s, cs, a, r) by {
      assert r == s[a..a + |r|] by {
        assert r == l[..|r|] && l == s[a..];
      }
      forall i | a + |r| <= i < |s|
        ensures s[i] in cs
      {
        assert s[i] == l[i - a];
      }
    }
    assert StripChars(s, cs) == r;
  }

  /** `s.strip()` removes whitespace at the two ends and nothing else. */
  lemma StripWindow(s: string)
    ensures exists a: nat :: Window(s, Whitespace, a, Strip(s))
  {
    StripCharsWindow(s, Whitespace);
    var a: nat :| Window(s, Whitespace, a, StripChars(s, Whitespace));
    assert Strip(s) == StripChars(s, Whitespace);
  }

  /** Stripping is the identity on a string whose ends are outside `cs`. */
  lemma {:induction false} StripCharsUnchanged(s: string, cs: set<char>)
    requires s == [] || (s[0] !in cs && s[|s| - 1] !in cs)
    ensures StripChars(s, cs) == s
  {
  }

  /** Stripping `cs` from `v` between two characters of `cs` gives back `v`
      when neither end of `v` is in `cs`. */
  lemma StripCharsWrapped(v: string, c: char, cs: set<char>)
    requires c in cs
    requires v == [] || (v[0] !in cs && v[|v| - 1] !in cs)
    ensures StripChars([c] + v + [c], cs) == v
  {
    StripLeftWrapped(v, c, cs);
    if v != [] {
      StripRightAppended(v, c, cs);
    }
  }

  lemma StripLeftWrapped(v: string, c: char, cs: set<char>)
    requires c in cs
    requires v == [] || v[0] !in cs
    ensures StripLeft([c] + v + [c], cs) == if v == [] then [] else v + [c]
  {
    var w := [c] + v + [c];
    var t := v + [c];
    assert w[0] == c && w[1..] == t;
    if v == [] {
      assert t[0] == c && t[1..] == [];
    } else {
      assert t[0] == v[0];
    }
  }

  lemma StripRightAppended(v: string, c: char, cs: set<char>)
    requires c in cs
    requires v != [] && v[|v| - 1] !in cs
    ensures StripRight(v + [c], cs) == v
  {
    var t := v + [c];
    assert t[|t| - 1] == c && t[..|t| - 1] == v;
  }

  /** Stripping removes characters and never adds one. */
  lemma StripKeepsOut(s: string, cs: set<char>, c: char)
    requires c !in s
    ensures c !in StripChars(s, cs)
  {
    var l := StripLeft(s, cs);
    assert forall i :: 0 <= i < |l| ==> l[i] == s[|s| - |l| + i];
    var r := StripRight(l, cs);
    assert forall i :: 0 <= i < |r| ==> r[i] == l[i];
  }

  /** Index of the first occurrence of `c` in `s`, or `|s|` when there is none. */
  function FirstIndex(s: string, c: char): (i: nat)
    ensures i <= |s|
    ensures i < |s| ==> s[i] == c
    ensures forall j :: 0 <= j < i ==> s[j] != c
  {
    if |s| == 0 then 0
    else if s[0] == c then 0
    else 1 + FirstIndex(s[1..], c)
  }

  /** `s.split(c)[0]`: everything before the first `c`. */
  function FirstSegment(s: string, c: char): (r: string)
    ensures c !in r
    ensures StartsWith(s, r)
    ensures r == s || s[|r|] == c
  {
    s[..FirstIndex(s, c)]
  }

  /** A decimal digit for a number below ten. */
  function Digit(d: nat): (c: char)
    requires d < 10
    ensures '0' <= c <= '9'
  {
    "0123456789"[d]
  }

  /** The value of a decimal digit character. */
  function DigitValue(c: char): nat
    requires '0' <= c <= '9'
  {
    c as int - '0' as int
  }

  /** `str(n)` for a natural number. */
  function NatToString(n: nat): (r: string)
    ensures |r| > 0
    ensures forall i :: 0 <= i < |r| ==> '0' <= r[i] <= '9'
    ensures |r| > 1 ==> r[0] != '0'
  {
    if n < 10 then [Digit(n)] else NatToString(n / 10) + [Digit(n % 10)]
  }

  /** `str(i)` for any integer: a minus sign before the magnitude. */
  function IntToString(i: int): (r: string)
    ensures |r| > 0
    ensures i < 0 <==> r[0] == '-'
  {
    if i < 0 then "-" + NatToString(-i) else NatToString(i)
  }

  predicate IsDecimal(s: string)
  {
    forall i :: 0 <= i < |s| ==> '0' <= s[i] <= '9'
  }

  /** The number a string of decimal digits denotes (Python's `int(s)`). */
  function DecimalValue(s: string): nat
    requires IsDecimal(s)
  {
    if |s| == 0 then 0 else 10 * DecimalValue(s[..|s| - 1]) + DigitValue(s[|s| - 1])
  }

  /** `int(str(n)) == n`: the decimal text of a number reads back as it. */
  lemma {:induction false} NatToStringRoundTrip(n: nat)
    ensures IsDecimal(NatToString(n)) && DecimalValue(NatToString(n)) == n
  {
    var r := NatToString(n);
    if n >= 10 {
      NatToStringRoundTrip(n / 10);
      assert r[..|r| - 1] == NatToString(n / 10);
    }
  }

  /** `sep.join(parts)`. */
  function Join(parts: seq<string>, sep: string): string
  {
    if |parts| == 0 then ""
    else if |parts| == 1 then parts[0]
    else parts[0] + sep + Join(parts[1..], sep)
  }
}
