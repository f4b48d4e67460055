/**
 * Rust's `Display` for integers, as `format!("{}", x)` writes an `i64`:
 * base 10, most significant digit first, no leading zeros, and a leading `-`
 * for negative values only.  `DigitsValue` and `DecimalValue` give the
 * number such a text denotes, so that the rendering can be checked against it.
 */
module Decimal {
  import opened Divisibility

  predicate IsDigit(c: char) {
    '0' <= c <= '9'
  }

  function DigitChar(k: nat): (c: char)
    requires k < 10
    ensures IsDigit(c) && DigitValue(c) == k
  {
    (48 + k) as char
  }

  function DigitValue(c: char): nat
    requires IsDigit(c)
  {
    c as int - 48
  }

  predicate AllDigits(s: string) {
    forall i :: 0 <= i < |s| ==> IsDigit(s[i])
  }

  /** The number a string of digits denotes in base 10. */
  function DigitsValue(s: string): nat
    requires AllDigits(s)
  {
    if s == [] then 0 else DigitsValue(s[..|s| - 1]) * 10 + DigitValue(s[|s| - 1])
  }

  /** The digits of `n`: at least one, and no leading zero unless `n` is zero. */
  function NatToDecimal(n: nat): (s: string)
    ensures |s| >= 1 && AllDigits(s)
    ensures s[0] == '0' ==> n == 0
  {
    if n < 10 then [DigitChar(n)] else NatToDecimal(n / 10) + [DigitChar(n % 10)]
  }

  lemma {:induction false} NatToDecimalValue(n: nat)
    ensures DigitsValue(NatToDecimal(n)) == n
  {
    if n >= 10 {
      var s := NatToDecimal(n);
      assert s[..|s| - 1] == NatToDecimal(n / 10);
      NatToDecimalValue(n / 10);
    }
  }

  /** A decimal integer as `Display` writes one: an optional `-`, then digits. */
  predicate IsDecimal(s: string) {
    if |s| >= 1 && s[0] == '-' then |s| >= 2 && AllDigits(s[1..]) else |s| >= 1 && AllDigits(s)
  }

  /** The integer a decimal text denotes. */
  function DecimalValue(s: string): int
    requires IsDecimal(s)
  {
    if s[0] == '-' then -(DigitsValue(s[1..]) as int) else DigitsValue(s)
  }

  /** The digits of a decimal text, without its sign. */
  function Magnitude(s: string): string
    requires IsDecimal(s)
  {
    if s[0] == '-' then s[1..] else s
  }

  /**
   * The one way `Display` writes each integer: no leading zero unless the
   * number is zero, and no `-0`.
   */
  predicate IsCanonicalDecimal(s: string) {
    IsDecimal(s) && (Magnitude(s)[0] == '0' ==> s == "0")
  }

  /** A digit string that does not start with `0` denotes a positive number. */
  lemma {:induction false} LeadingDigitPositive(s: string)
    requires |s| >= 1 && AllDigits(s) && s[0] != '0'
    ensures DigitsValue(s) > 0
  {
    if |s| > 1 {
      LeadingDigitPositive(s[..|s| - 1]);
    }
  }

  /** A digit string without leading zeros is the rendering of its value. */
  lemma {:induction false} DigitsRoundTrip(s: string)
    requires |s| >= 1 && AllDigits(s) && (s[0] == '0' ==> s == "0")
    ensures NatToDecimal(DigitsValue(s)) == s
  {
    var p, c := s[..|s| - 1], s[|s| - 1];
    var v := DigitsValue(s);
    if |s| == 1 {
      assert DigitsValue(p) == 0;
      assert [DigitChar(DigitValue(c))] == s;
    } else {
      LeadingDigitPositive(p);
      DigitsRoundTrip(p);
      DivModUnique(v, 10, DigitsValue(p), DigitValue(c));
      assert NatToDecimal(v) == p + [DigitChar(DigitValue(c))];
      assert p + [c] == s;
    }
  }

  /** Two canonical decimal texts denoting the same integer are the same text. */
  lemma CanonicalDecimalUnique(s: string, t: string)
    requires IsCanonicalDecimal(s) && IsCanonicalDecimal(t)
    requires DecimalValue(s) == DecimalValue(t)
    ensures s == t
  {
    DigitsRoundTrip(Magnitude(s));
    DigitsRoundTrip(Magnitude(t));
    if s[0] == '-' {
      LeadingDigitPositive(Magnitude(s));
      assert s == "-" + Magnitude(s);
    }
    if t[0] == '-' {
      LeadingDigitPositive(Magnitude(t));
      assert t == "-" + Magnitude(t);
    }
  }

  /** `format!("{}", n)` for an integer `n`; it never contains a `/`. */
  function IntToDecimal(n: int): (s: string)
    ensures IsCanonicalDecimal(s) && '/' !in s
    ensures s[0] == '-' <==> n < 0
  {
    if n < 0 then "-" + NatToDecimal(-n) else NatToDecimal(n)
  }

  /** The rendering denotes exactly the integer rendered. */
  lemma IntToDecimalValue(n: int)
    ensures DecimalValue(IntToDecimal(n)) == n
  {
    var s := IntToDecimal(n);
    if n < 0 {
      assert s[1..] == NatToDecimal(-n);
      NatToDecimalValue(-n);
    } else {
      NatToDecimalValue(n);
    }
  }

  /** Different integers are rendered differently. */
  lemma IntToDecimalInjective(a: int, b: int)
    requires IntToDecimal(a) == IntToDecimal(b)
    ensures a == b
  {
    IntToDecimalValue(a);
    IntToDecimalValue(b);
  }
}
