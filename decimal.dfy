/** Decimal text of integers and booleans, as Rust's `Display` writes them
    for `u32`, `i32` and `bool` (the `{}` placeholders of `write!`). */
module Decimal {

  predicate IsDigit(c: char) {
    '0' <= c <= '9'
  }

  predicate IsNumeral(s: string) {
    forall i :: 0 <= i < |s| ==> IsDigit(s[i])
  }

  function DigitChar(d: nat): (c: char)
    requires d < 10
    ensures IsDigit(c) && c as int - '0' as int == d
  {
    ('0' as int + d) as char
  }

  function DigitValue(c: char): (d: nat)
    requires IsDigit(c)
    ensures d < 10 && DigitChar(d) == c
  {
    c as int - '0' as int
  }

  /** Digits of `n`, most significant first, with no leading zero. */
  function NatToString(n: nat): (s: string)
    ensures |s| >= 1 && IsNumeral(s)
    ensures s[0] == '0' <==> n == 0
    ensures n < 10 <==> |s| == 1
    decreases n
  {
    if n < 10 then [DigitChar(n)] else NatToString(n / 10) + [DigitChar(n % 10)]
  }

  /** The number a string of digits denotes (the reader side of NatToString). */
  function NumeralValue(s: string): nat
    requires IsNumeral(s)
    decreases |s|
  {
    if s == [] then 0 else NumeralValue(s[..|s| - 1]) * 10 + DigitValue(s[|s| - 1])
  }

  lemma {:induction false} NatToStringRoundTrip(n: nat)
    ensures NumeralValue(NatToString(n)) == n
    decreases n
  {
    var s := NatToString(n);
    if n >= 10 {
      assert s[..|s| - 1] == NatToString(n / 10);
      NatToStringRoundTrip(n / 10);
    }
  }

  lemma NatToStringInjective(m: nat, n: nat)
    ensures NatToString(m) == NatToString(n) <==> m == n
  {
    NatToStringRoundTrip(m);
    NatToStringRoundTrip(n);
  }

  /** A numeral as Rust writes one: at least one digit and no leading zero. */
  predicate IsCanonicalNumeral(s: string) {
    |s| >= 1 && IsNumeral(s) && (s[0] == '0' ==> |s| == 1)
  }

  /** A numeral that starts with a non-zero digit denotes a positive number. */
  lemma {:induction false} LeadingDigitPositive(s: string)
    requires |s| >= 1 && IsNumeral(s) && s[0] != '0'
    ensures NumeralValue(s) >= 1
    decreases |s|
  {
    if |s| > 1 {
      LeadingDigitPositive(s[..|s| - 1]);
    }
  }

  /** NatToString writes the only canonical numeral of each number. */
  lemma {:induction false} CanonicalNumeralIsNatToString(s: string)
    requires IsCanonicalNumeral(s)
    ensures s == NatToString(NumeralValue(s))
    decreases |s|
  {
    var n := NumeralValue(s);
    if |s| > 1 {
      var front := s[..|s| - 1];
      LeadingDigitPositive(front);
      CanonicalNumeralIsNatToString(front);
      assert n / 10 == NumeralValue(front) && n % 10 == DigitValue(s[|s| - 1]);
      assert s == front + [s[|s| - 1]];
    }
  }

  /** Signed decimal: a leading `-` for negative values, then the digits of the magnitude. */
  function IntToString(i: int): (s: string)
    ensures |s| >= 1
    ensures s[0] == '-' <==> i < 0
    ensures i >= 0 ==> IsNumeral(s)
    ensures i < 0 ==> |s| >= 2 && IsNumeral(s[1..])
    ensures s[if i < 0 then 1 else 0] == '0' <==> i == 0
  {
    if i < 0 then "-" + NatToString(-i) else NatToString(i)
  }

  predicate IsSignedNumeral(s: string) {
    if |s| > 0 && s[0] == '-' then IsNumeral(s[1..]) else IsNumeral(s)
  }

  /** A signed numeral as Rust writes one: a canonical numeral, or `-` and a
      canonical numeral of a non-zero magnitude. */
  predicate IsCanonicalSigned(s: string) {
    if |s| > 0 && s[0] == '-' then IsCanonicalNumeral(s[1..]) && s[1] != '0' else IsCanonicalNumeral(s)
  }

  /** The integer a signed numeral denotes (the reader side of IntToString). */
  function SignedNumeralValue(s: string): int
    requires IsSignedNumeral(s)
  {
    if |s| > 0 && s[0] == '-' then -(NumeralValue(s[1..]) as int) else NumeralValue(s)
  }

  lemma IntToStringRoundTrip(i: int)
    ensures IsSignedNumeral(IntToString(i))
    ensures SignedNumeralValue(IntToString(i)) == i
  {
    var s := IntToString(i);
    if i < 0 {
      assert s[1..] == NatToString(-i);
      NatToStringRoundTrip(-i);
    } else {
      NatToStringRoundTrip(i);
    }
  }

  lemma IntToStringCanonical(i: int)
    ensures IsCanonicalSigned(IntToString(i))
  {
    var s := IntToString(i);
    if i < 0 {
      assert s[1..] == NatToString(-i);
    }
  }

  /** IntToString writes the only canonical signed numeral of each integer. */
  lemma CanonicalSignedIsIntToString(s: string)
    requires IsCanonicalSigned(s)
    ensures s == IntToString(SignedNumeralValue(s))
  {
    if s[0] == '-' {
      CanonicalNumeralIsNatToString(s[1..]);
      LeadingDigitPositive(s[1..]);
      assert s == "-" + s[1..];
    } else {
      CanonicalNumeralIsNatToString(s);
    }
  }

  lemma IntToStringInjective(i: int, j: int)
    ensures IntToString(i) == IntToString(j) <==> i == j
  {
    IntToStringRoundTrip(i);
    IntToStringRoundTrip(j);
  }

  /** Rust's `Display` for `bool`. */
  function BoolToString(b: bool): (s: string)
    ensures s == "true" || s == "false"
    ensures (s == "true") == b
  {
    if b then "true" else "false"
  }

  /** A numeral followed by text starting with a non-digit splits in exactly one way:
      the rendered number ends where the first non-digit begins. */
  lemma NumeralPrefixUnique(p1: string, t1: string, p2: string, t2: string)
    requires IsNumeral(p1) && IsNumeral(p2)
    requires |t1| > 0 && !IsDigit(t1[0]) && |t2| > 0 && !IsDigit(t2[0])
    requires p1 + t1 == p2 + t2
    ensures p1 == p2 && t1 == t2
  {
    if |p1| < |p2| {
      ConcatAt(p1, t1, |p1|);
      ConcatAt(p2, t2, |p1|);
      assert false;
    } else if |p2| < |p1| {
      ConcatAt(p1, t1, |p2|);
      ConcatAt(p2, t2, |p2|);
      assert false;
    }
    assert p1 == (p1 + t1)[..|p1|];
    assert p2 == (p2 + t2)[..|p2|];
    assert t1 == (p1 + t1)[|p1|..];
    assert t2 == (p2 + t2)[|p2|..];
  }

  /** The same for signed numerals, when the following text starts with neither a digit nor `-`. */
  lemma SignedPrefixUnique(i: int, t1: string, j: int, t2: string)
    requires |t1| > 0 && !IsDigit(t1[0]) && t1[0] != '-'
    requires |t2| > 0 && !IsDigit(t2[0]) && t2[0] != '-'
    requires IntToString(i) + t1 == IntToString(j) + t2
    ensures i == j && t1 == t2
  {
    var s, u := IntToString(i), IntToString(j);
    assert (s + t1)[0] == s[0] && (u + t2)[0] == u[0];
    if i < 0 {
      assert j < 0;
      assert s + t1 == "-" + (s[1..] + t1);
      assert u + t2 == "-" + (u[1..] + t2);
      StripPrefix("-", s[1..] + t1, u[1..] + t2);
      NumeralPrefixUnique(s[1..], t1, u[1..], t2);
      assert s == "-" + s[1..] && u == "-" + u[1..];
    } else {
      assert j >= 0;
      NumeralPrefixUnique(s, t1, u, t2);
    }
    IntToStringInjective(i, j);
  }

  /** Where the characters of a concatenation come from. */
  lemma ConcatAt(p: string, t: string, k: int)
    ensures 0 <= k < |p| ==> (p + t)[k] == p[k]
    ensures |p| <= k < |p| + |t| ==> (p + t)[k] == t[k - |p|]
  {
  }

  /** Equal strings with equal prefixes have equal remainders. */
  lemma StripPrefix(p: string, a: string, b: string)
    requires p + a == p + b
    ensures a == b
  {
    assert a == (p + a)[|p|..];
    assert b == (p + b)[|p|..];
  }

  /** Equal strings with equal suffixes have equal beginnings. */
  lemma StripSuffix(a: string, b: string, t: string)
    requires a + t == b + t
    ensures a == b
  {
    assert a == (a + t)[..|a|];
    assert b == (b + t)[..|b|];
  }
}
