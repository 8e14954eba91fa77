/** Decimal rendering of non-negative integers, as a JavaScript template literal
    `${n}` renders a whole number below 10^21 (from there on JavaScript switches to
    exponent notation, which is not modelled), together with the reading back that
    makes the rendering injective. */
module Decimal {

  predicate IsDigit(ch: char) {
    '0' <= ch <= '9'
  }

  predicate AllDigits(s: string) {
    forall k :: 0 <= k < |s| ==> IsDigit(s[k])
  }

  function DigitChar(d: nat): (ch: char)
    requires d < 10
    ensures IsDigit(ch)
  {
    "0123456789"[d]
  }

  function DigitValue(ch: char): (d: nat)
    requires IsDigit(ch)
    ensures d < 10
  {
    (ch as int - '0' as int) as nat
  }

  lemma DigitRoundTrip(d: nat)
    requires d < 10
    ensures DigitValue(DigitChar(d)) == d
  {
  }

  /** Shortest decimal rendering of `n`, most significant digit first. */
  function NatToString(n: nat): (s: string)
    ensures |s| >= 1 && AllDigits(s)
    ensures |s| > 1 ==> s[0] != '0'
  {
    if n < 10 then [DigitChar(n)]
    else NatToString(n / 10) + [DigitChar(n % 10)]
  }

  /** The value of a string of decimal digits. */
  function ParseNat(s: string): nat
    requires AllDigits(s)
  {
    if |s| == 0 then 0 else 10 * ParseNat(s[..|s| - 1]) + DigitValue(s[|s| - 1])
  }

  lemma {:induction false} ParseRender(n: nat)
    ensures ParseNat(NatToString(n)) == n
  {
    var s := NatToString(n);
    DigitRoundTrip(n % 10);
    if n >= 10 {
      assert s[..|s| - 1] == NatToString(n / 10);
      ParseRender(n / 10);
    }
  }

  lemma NatToStringInjective(a: nat, b: nat)
    requires NatToString(a) == NatToString(b)
    ensures a == b
  {
    ParseRender(a);
    ParseRender(b);
  }

  /** Length of the run of digits at the front of `s`. */
  function LeadingDigits(s: string): (n: nat)
    ensures n <= |s|
  {
    if |s| == 0 || !IsDigit(s[0]) then 0 else 1 + LeadingDigits(s[1..])
  }

  lemma {:induction false} LeadingDigitsOfNumber(p: string, x: string)
    requires AllDigits(p)
    requires |x| > 0 && !IsDigit(x[0])
    ensures LeadingDigits(p + x) == |p|
  {
    if |p| > 0 {
      assert (p + x)[1..] == p[1..] + x;
      LeadingDigitsOfNumber(p[1..], x);
    }
  }

  /** A rendered number followed by a non-digit splits back into the number and the
      rest: the digits end exactly where the first non-digit starts. */
  lemma SplitAfterNumber(a: nat, x: string, b: nat, y: string)
    requires NatToString(a) + x == NatToString(b) + y
    requires |x| > 0 && !IsDigit(x[0])
    requires |y| > 0 && !IsDigit(y[0])
    ensures a == b && x == y
  {
    var p, q := NatToString(a), NatToString(b);
    LeadingDigitsOfNumber(p, x);
    LeadingDigitsOfNumber(q, y);
    assert p == (p + x)[..|p|] == (q + y)[..|q|] == q;
    NatToStringInjective(a, b);
    assert x == (p + x)[|p|..] == (q + y)[|q|..] == y;
  }
}
