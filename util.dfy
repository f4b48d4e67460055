/**
 * The VoydWalkr `util` crate: `Rate`, the reduced rational used for rates
 * across the suite, and `SerRate`, its serialisable numerator/denominator
 * pair, with the conversions between them and the text form of a `SerRate`.
 */
module Util {
  import opened Int64
  import opened Wrappers
  import opened Rational
  import Decimal
  import opened Divisibility

  /** The suite's rate type: an alias of `Rational64`. */
  type Rate = Rational64

  /**
   * The serialisable pair.  It is never reduced and may carry a negative or a
   * zero denominator; equality on it is field by field.
   */
  datatype SerRate = SerRate(numer: i64, denom: i64)

  /** `SerRate::new`: stores both parts exactly as given. */
  function NewSerRate(numer: i64, denom: i64): (s: SerRate)
    ensures s.numer == numer && s.denom == denom
  {
    SerRate(numer, denom)
  }

  /** The pair is in lowest terms with a positive denominator, as every `Rate` is. */
  predicate InLowestTerms(s: SerRate) {
    Normalised(Ratio(s.numer, s.denom))
  }

  /**
   * `From<SerRate> for Rate`: hands both parts to the normalising constructor.
   * It fails exactly on a zero denominator or on the i64::MIN overflow.
   */
  function RateFromSerRate(rate: SerRate): (r: Result<Rate, RateError>)
    ensures r == Err(ZeroDenominator) <==> rate.denom == 0
    ensures r == Err(NegationOverflow) <==> rate.denom != 0 && NegationOverflows(rate.numer, rate.denom)
    ensures r.Ok? ==> SameValue(rate.numer as int, rate.denom as int, r.value.numer as int, r.value.denom as int)
  {
    New(rate.numer, rate.denom)
  }

  /**
   * `From<Rate> for SerRate`: copies `numer()` and `denom()`.  It is total, and
   * what it produces is in lowest terms because every `Rate` is.
   */
  function SerRateFromRate(rate: Rate): (s: SerRate)
    ensures s.numer == rate.numer && s.denom == rate.denom
    ensures InLowestTerms(s)
  {
    NewSerRate(rate.numer, rate.denom)
  }

  /**
   * `s` is `numer` and `denom` written as canonical decimals on either side of
   * the `/` at position `k`.
   */
  predicate IsRendering(s: string, k: nat, numer: int, denom: int) {
    && k < |s| && s[k] == '/'
    && Decimal.IsCanonicalDecimal(s[..k]) && Decimal.DecimalValue(s[..k]) == numer
    && Decimal.IsCanonicalDecimal(s[k + 1..]) && Decimal.DecimalValue(s[k + 1..]) == denom
  }

  /** At most one text renders a given pair of integers. */
  lemma RenderingUnique(s: string, k: nat, t: string, j: nat, numer: int, denom: int)
    requires IsRendering(s, k, numer, denom) && IsRendering(t, j, numer, denom)
    ensures s == t
  {
    Decimal.CanonicalDecimalUnique(s[..k], t[..j]);
    Decimal.CanonicalDecimalUnique(s[k + 1..], t[j + 1..]);
    assert s == s[..k] + "/" + s[k + 1..];
    assert t == t[..j] + "/" + t[j + 1..];
  }

  /**
   * `From<SerRate> for String`: the decimal numerator, a `/`, the decimal
   * denominator, from the literal fields, with no reduction and no sign
   * change.  By `RenderingUnique` this fixes the text completely.
   */
  function StringFromSerRate(rate: SerRate): (s: string)
    ensures IsRendering(s, |Decimal.IntToDecimal(rate.numer as int)|, rate.numer as int, rate.denom as int)
    ensures '/' !in s[..|Decimal.IntToDecimal(rate.numer as int)|]
  {
    var n, d := Decimal.IntToDecimal(rate.numer as int), Decimal.IntToDecimal(rate.denom as int);
    var s := n + "/" + d;
    assert s[..|n|] == n && s[|n| + 1..] == d;
    Decimal.IntToDecimalValue(rate.numer as int);
    Decimal.IntToDecimalValue(rate.denom as int);
    s
  }

  /** Round trip: a `Rate` sent through `SerRate` comes back unchanged. */
  lemma RateRoundTrip(a: Rate)
    ensures RateFromSerRate(SerRateFromRate(a)) == Ok(a)
  {
    NewOfNormalised(a);
  }

  /**
   * A `SerRate` survives the trip through `Rate` exactly when it is already
   * in lowest terms with a positive denominator; otherwise it comes back reduced.
   */
  lemma SerRateRoundTrip(s: SerRate)
    ensures (RateFromSerRate(s).Ok? && SerRateFromRate(RateFromSerRate(s).value) == s) <==> InLowestTerms(s)
  {
    if InLowestTerms(s) {
      var a: Rate := Ratio(s.numer, s.denom);
      NewOfNormalised(a);
    }
  }

  /**
   * Converting to `Rate` picks the one `Rate` equal in value to the pair: a
   * candidate is the result exactly when its cross products agree.
   */
  lemma RateFromSerRateCanonical(s: SerRate, a: Rate)
    requires RateFromSerRate(s).Ok?
    ensures RateFromSerRate(s).value == a <==> SameValue(s.numer as int, s.denom as int, a.numer as int, a.denom as int)
  {
    NewCanonical(s.numer, s.denom, a);
  }

  /**
   * Conversion identifies pairs by value, not by field: two convertible pairs
   * give the same `Rate` exactly when they denote the same ratio.
   */
  lemma SameRateIffSameValue(s1: SerRate, s2: SerRate)
    requires RateFromSerRate(s1).Ok? && RateFromSerRate(s2).Ok?
    ensures RateFromSerRate(s1) == RateFromSerRate(s2) <==> SameValue(s1.numer as int, s1.denom as int, s2.numer as int, s2.denom as int)
  {
    var r1, r2 := RateFromSerRate(s1).value, RateFromSerRate(s2).value;
    var n1, d1, n2, d2 := s1.numer as int, s1.denom as int, s2.numer as int, s2.denom as int;
    if r1 == r2 {
      SameValueSymmetric(n2, d2, r2.numer as int, r2.denom as int);
      SameValueTransitive(n1, d1, r1.numer as int, r1.denom as int, n2, d2);
    }
    if SameValue(n1, d1, n2, d2) {
      SameValueTransitive(n2, d2, n1, d1, r1.numer as int, r1.denom as int);
      NewCanonical(s2.numer, s2.denom, r1);
    }
  }

  /** The text form loses nothing: different pairs are written differently. */
  lemma StringFromSerRateInjective(a: SerRate, b: SerRate)
    requires StringFromSerRate(a) == StringFromSerRate(b)
    ensures a == b
  {
  }

  /** `SerRate::new(1, 2)` and `SerRate::new(2, 4)` differ, yet give the same `Rate`. */
  lemma StructuralEquality()
    ensures NewSerRate(1, 2) != NewSerRate(2, 4)
    ensures RateFromSerRate(NewSerRate(1, 2)) == RateFromSerRate(NewSerRate(2, 4))
  {
    SameRateIffSameValue(NewSerRate(1, 2), NewSerRate(2, 4));
  }

  /** The crate's own test: reduction happens in `Rate::new`, never in `SerRate::new`. */
  lemma RateFromExamples()
    ensures New(42, 2).Ok? && SerRateFromRate(New(42, 2).value) == NewSerRate(21, 1)
    ensures RateFromSerRate(NewSerRate(42, 2)) == New(21, 1)
    ensures NewSerRate(42, 2).numer == 42 && NewSerRate(42, 2).denom == 2
  {
    assert Gcd(42, 2) == 2;
    assert Gcd(21, 1) == 1;
  }

  /** A zero denominator is stored by `SerRate::new` but rejected on conversion. */
  lemma ZeroDenominatorRejected(numer: i64)
    ensures NewSerRate(numer, 0).denom == 0
    ensures RateFromSerRate(NewSerRate(numer, 0)) == Err(ZeroDenominator)
  {
  }

  /** The text form keeps the literal fields, including a negative denominator. */
  lemma StringExamples()
    ensures StringFromSerRate(NewSerRate(-3, 4)) == "-3/4"
    ensures StringFromSerRate(NewSerRate(3, -4)) == "3/-4"
    ensures StringFromSerRate(NewSerRate(42, 2)) == "42/2"
  {
    assert Decimal.NatToDecimal(42) == "42";
  }
}
