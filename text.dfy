/** Python string operations used by the command layer: `sep.join(xs)`,
    `s.split(c)`, `str(n)` for integers and the substring test `sub in s`. */
module Text {

  /** `sep.join(xs)`: the pieces in order, separated by `sep`. */
  function Join(xs: seq<string>, sep: string): (r: string)
    ensures |xs| == 1 ==> r == xs[0]
    ensures |xs| == 0 ==> r == ""
  {
    if |xs| == 0 then ""
    else if |xs| == 1 then xs[0]
    else xs[0] + sep + Join(xs[1..], sep)
  }

  /** `s.split(c)` for a one-character separator: every occurrence of `c`
      cuts, empty pieces are kept, and there is always at least one piece. */
  function Split(s: string, c: char): (r: seq<string>)
    ensures |r| >= 1
    ensures forall i :: 0 <= i < |r| ==> c !in r[i]
    ensures |r| == 1 + Occurrences(s, c)
  {
    if s == [] then [""]
    else
      var rest := Split(s[1..], c);
      if s[0] == c then [""] + rest
      else [[s[0]] + rest[0]] + rest[1..]
  }

  /** How many times `c` occurs in `s`. */
  function Occurrences(s: string, c: char): nat
  {
    if s == [] then 0 else (if s[0] == c then 1 else 0) + Occurrences(s[1..], c)
  }

  /** Every piece of a join is a substring of the joined text. */
  lemma {:induction false} JoinContainsPieces(xs: seq<string>, sep: string, i: nat)
    requires i < |xs|
    ensures Contains(Join(xs, sep), xs[i])
  {
    if |xs| == 1 {
      ContainsSelf(xs[0]);
    } else if i == 0 {
      ContainsSelf(xs[0]);
      ContainsExtend(xs[0], sep + Join(xs[1..], sep), xs[0]);
      assert xs[0] + sep + Join(xs[1..], sep) == xs[0] + (sep + Join(xs[1..], sep));
    } else {
      JoinContainsPieces(xs[1..], sep, i - 1);
      ContainsPrepend(xs[0] + sep, Join(xs[1..], sep), xs[i]);
    }
  }

  /** `sub in s` for strings. */
  predicate Contains(s: string, sub: string)
    decreases |s|
  {
    IsPrefix(sub, s) || (|s| > 0 && Contains(s[1..], sub))
  }

  predicate IsPrefix(p: string, s: string)
  {
    |p| <= |s| && s[..|p|] == p
  }

  predicate IsSuffix(p: string, s: string)
  {
    |p| <= |s| && s[|s| - |p|..] == p
  }

  lemma ContainsSelf(s: string)
    ensures Contains(s, s)
  {
    assert IsPrefix(s, s);
  }

  lemma {:induction false} ContainsExtend(s: string, t: string, sub: string)
    requires Contains(s, sub)
    ensures Contains(s + t, sub)
    decreases |s|
  {
    if IsPrefix(sub, s) {
      assert (s + t)[..|sub|] == s[..|sub|];
    } else {
      ContainsExtend(s[1..], t, sub);
      assert (s + t)[1..] == s[1..] + t;
    }
  }

  lemma {:induction false} ContainsPrepend(p: string, s: string, sub: string)
    requires Contains(s, sub)
    ensures Contains(p + s, sub)
    decreases |p|
  {
    if p != [] {
      ContainsPrepend(p[1..], s, sub);
      assert (p + s)[1..] == p[1..] + s;
      assert Contains((p + s)[1..], sub);
    } else {
      assert p + s == s;
    }
  }

  // ---------------------------------------------------------------------
  // Decimal rendering of integers, as Python's `str(n)` and f-strings do.
  // ---------------------------------------------------------------------

  predicate IsDigit(ch: char)
  {
    '0' <= ch <= '9'
  }

  predicate AllDigits(s: string)
  {
    forall i :: 0 <= i < |s| ==> IsDigit(s[i])
  }

  function DigitChar(d: nat): (ch: char)
    requires d < 10
    ensures IsDigit(ch) && ch as int - '0' as int == d
  {
    (d + '0' as int) as char
  }

  /** The decimal digits of `n`, most significant first, without leading zeros. */
  function NatToString(n: nat): (r: string)
    ensures |r| >= 1 && AllDigits(r)
    ensures r[0] == '0' ==> n == 0
  {
    if n < 10 then [DigitChar(n)]
    else NatToString(n / 10) + [DigitChar(n % 10)]
  }

  /** `str(n)` for a Python int: a minus sign for negatives, then the digits. */
  function IntToString(n: int): (r: string)
  {
    if n < 0 then "-" + NatToString(-n) else NatToString(n)
  }

  /** The number a string of decimal digits denotes. */
  function DigitsValue(s: string): nat
    requires AllDigits(s)
  {
    if s == [] then 0
    else DigitsValue(s[..|s| - 1]) * 10 + (s[|s| - 1] as int - '0' as int)
  }

  /** The number an optionally signed decimal numeral denotes (Python `int(s)`). */
  function DecimalValue(s: string): int
    requires |s| >= 1
    requires if s[0] == '-' then AllDigits(s[1..]) else AllDigits(s)
  {
    if s[0] == '-' then -(DigitsValue(s[1..]) as int) else DigitsValue(s)
  }

  lemma {:induction false} NatToStringRoundTrip(n: nat)
    ensures DigitsValue(NatToString(n)) == n
  {
    if n >= 10 {
      NatToStringRoundTrip(n / 10);
      var r := NatToString(n);
      assert r[..|r| - 1] == NatToString(n / 10);
    }
  }

  /** Reading back the decimal rendering of an integer gives the integer. */
  lemma IntToStringRoundTrip(n: int)
    ensures |IntToString(n)| >= 1
    ensures var s := IntToString(n);
            (if s[0] == '-' then AllDigits(s[1..]) else AllDigits(s)) && DecimalValue(s) == n
  {
    var s := IntToString(n);
    if n < 0 {
      NatToStringRoundTrip(-n);
      assert s[1..] == NatToString(-n);
    } else {
      NatToStringRoundTrip(n);
    }
  }

  /** Distinct integers render differently. */
  lemma IntToStringInjective(m: int, n: int)
    requires IntToString(m) == IntToString(n)
    ensures m == n
  {
    IntToStringRoundTrip(m);
    IntToStringRoundTrip(n);
  }

  /** The rendering of an integer holds only digits and possibly a minus sign. */
  lemma IntToStringChars(n: int, ch: char)
    requires ch != '-' && !IsDigit(ch)
    ensures ch !in IntToString(n)
  {
    var s := IntToString(n);
    if n < 0 {
      assert s == "-" + NatToString(-n);
      assert forall i :: 1 <= i < |s| ==> s[i] == NatToString(-n)[i - 1];
    }
  }

  /** Texts that agree after a common start are equal. */
  lemma DropPrefix(p: string, x: string, y: string)
    requires p + x == p + y
    ensures x == y
  {
    assert x == (p + x)[|p|..];
    assert y == (p + y)[|p|..];
  }

  /** Texts that agree before a common end are equal. */
  lemma DropSuffix(x: string, y: string, q: string)
    requires x + q == y + q
    ensures x == y
  {
    assert x == (x + q)[..|x|];
    assert y == (y + q)[..|y|];
  }

  /** A marker opening `m1`, right after `a1`, cannot fall inside a marker-free `a2`. */
  lemma MarkerNotInside(a1: string, m1: string, a2: string, m2: string, ch: char)
    requires ch !in a2
    requires |m1| > 0 && m1[0] == ch
    requires a1 + m1 == a2 + m2
    ensures |a2| <= |a1|
  {
    var s := a2 + m2;
    assert s[|a1|] == (a1 + m1)[|a1|] == ch;
    forall i | 0 <= i < |a2|
      ensures s[i] != ch
    {
      assert s[i] == a2[i] && a2[i] in a2;
    }
  }

  /** Two texts that each start with a marker-free part followed by a part
      opening with the marker agree on both parts. */
  lemma SplitAtMarker(a1: string, m1: string, a2: string, m2: string, ch: char)
    requires ch !in a1 && ch !in a2
    requires |m1| > 0 && m1[0] == ch && |m2| > 0 && m2[0] == ch
    requires a1 + m1 == a2 + m2
    ensures a1 == a2 && m1 == m2
  {
    MarkerNotInside(a1, m1, a2, m2, ch);
    MarkerNotInside(a2, m2, a1, m1, ch);
    var s := a1 + m1;
    assert a1 == s[..|a1|] == (a2 + m2)[..|a2|] == a2;
    assert m1 == s[|a1|..] == (a2 + m2)[|a2|..] == m2;
  }
}
