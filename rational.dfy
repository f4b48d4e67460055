/**
 * An abstract model of `num_rational::Rational64` (`Ratio<i64>`): only the
 * normalising constructor `Rational64::new` and the read accessors `numer()`
 * and `denom()`, which are all the bridge uses.  Arithmetic on rationals is
 * not modelled.
 */
module Rational {
  import opened Int64
  import opened Divisibility
  import opened Wrappers

  /** The raw pair a `Ratio<i64>` stores. */
  datatype Ratio = Ratio(numer: i64, denom: i64)

  /** Lowest terms with a positive denominator: the invariant of every `Rational64`. */
  predicate Normalised(r: Ratio) {
    r.denom > 0 && Gcd(Abs(r.numer as int), r.denom as nat) == 1
  }

  /** The values `Rational64::new` can produce. */
  type Rational64 = r: Ratio | Normalised(r) witness Ratio(0, 1)

  /** Why `Rational64::new` panics instead of returning a value. */
  datatype RateError =
    | ZeroDenominator    // "denominator == 0"
    | NegationOverflow   // moving the sign to the numerator negates i64::MIN

  /** `n1 / d1` and `n2 / d2` denote the same ratio (by cross-multiplication). */
  predicate SameValue(n1: int, d1: int, n2: int, d2: int) {
    n1 * d2 == n2 * d1
  }

  /**
   * The inputs for which, after dividing by the gcd, the denominator is still
   * negative and one of the two parts is i64::MIN, so that negating it to make
   * the denominator positive overflows.  That happens exactly when a part is
   * i64::MIN and the other part is odd (so the gcd is 1).
   */
  predicate NegationOverflows(numer: i64, denom: i64) {
    denom < 0 &&
    ((numer as int == MIN && (denom as int) % 2 == 1) ||
     (denom as int == MIN && (numer as int) % 2 == 1))
  }

  /**
   * `Rational64::new(numer, denom)`: reduce to lowest terms and make the
   * denominator positive.  The library's special cases (a zero numerator, equal
   * parts) are kept.  Every panic of the library becomes an error value.
   */
  function New(numer: i64, denom: i64): (r: Result<Rational64, RateError>)
    ensures r == Err(ZeroDenominator) <==> denom == 0
    ensures r == Err(NegationOverflow) <==> denom != 0 && NegationOverflows(numer, denom)
    ensures r.Ok? ==> SameValue(numer as int, denom as int, r.value.numer as int, r.value.denom as int)
  {
    if denom == 0 then Err(ZeroDenominator)
    else if numer == 0 then
      assert Gcd(0, 1) == 1;
      Ok(Ratio(0, 1))
    else if numer == denom then
      assert Gcd(1, 1) == 1;
      Ok(Ratio(1, 1))
    else
      var g := Gcd(Abs(numer as int), Abs(denom as int));
      ReduceFacts(numer, denom);
      var n, d := numer as int / g, denom as int / g;
      ScaledSameValue(n, d, g);
      if d < 0 then
        if n == MIN || d == MIN then Err(NegationOverflow)
        else
          assert Abs(-n) == Abs(n) && Abs(-d) == Abs(d);
          Ok(Ratio((-n) as i64, (-d) as i64))
      else
        Ok(Ratio(n as i64, d as i64))
  }

  /** Dividing both parts by a common factor, and negating both, keeps the value. */
  lemma ScaledSameValue(n: int, d: int, g: int)
    ensures SameValue(n * g, d * g, n, d)
    ensures SameValue(n * g, d * g, -n, -d)
  {
    assert (n * g) * d == n * (d * g);
    assert (n * g) * (-d) == (-n) * (d * g);
  }

  /** Exact division by a positive divisor of the magnitude keeps the sign. */
  lemma ExactDiv(x: int, g: nat)
    requires Divides(g, Abs(x))
    ensures x == (x / g) * g
    ensures Abs(x / g) == Abs(x) / g
    ensures x / g < 0 <==> x < 0
  {
    var q := Abs(x) / g;
    DivisionIdentity(Abs(x), g);
    assert Abs(x) == q * g;
    if x < 0 {
      assert x == (-q) * g + 0;
      DivModUnique(x, g, -q, 0);
      assert q > 0 by { NonNegFactor(g, q); assert q != 0; }
    } else {
      DivModUnique(x, g, q, 0);
      NonNegFactor(g, q);
    }
  }

  /** If `q * g` has magnitude at most `2^63`, then so does `q`, with equality only for `g == 1`. */
  lemma QuotientBound(x: int, g: nat)
    requires Divides(g, Abs(x)) && Abs(x) <= -MIN
    ensures Abs(x / g) <= Abs(x)
    ensures Abs(x / g) == -MIN ==> g == 1 && x / g == x
  {
    ExactDiv(x, g);
    var q := Abs(x / g);
    assert Abs(x) == q * g;
    if q > 0 {
      MulAtLeast(g, q);
      if q == -MIN {
        assert q * (1 - g) >= 0;
        NonNegFactor(q, 1 - g);
      }
    }
  }

  /** Parity does not depend on the sign. */
  lemma AbsParity(x: int)
    ensures Abs(x) % 2 == x % 2
  {
    if x < 0 {
      DivModUnique(x, 2, -(Abs(x) / 2) - (Abs(x) % 2), Abs(x) % 2);
    }
  }

  /** The arithmetic facts about the general branch of `New` (non-zero parts that differ). */
  lemma ReduceFacts(numer: i64, denom: i64)
    requires denom != 0 && numer != 0 && numer != denom
    ensures var g := Gcd(Abs(numer as int), Abs(denom as int));
      var n, d := numer as int / g, denom as int / g;
      && g > 0
      && numer as int == n * g && denom as int == d * g
      && MIN <= n <= MAX && MIN <= d <= MAX
      && (d < 0 <==> denom < 0)
      && Abs(n) == Abs(numer as int) / g && Abs(d) == Abs(denom as int) / g
      && Gcd(Abs(n), Abs(d)) == 1
      && (d < 0 && (n == MIN || d == MIN) <==> NegationOverflows(numer, denom))
  {
    var a, b := Abs(numer as int), Abs(denom as int);
    var g := Gcd(a, b);
    ExactDiv(numer as int, g);
    ExactDiv(denom as int, g);
    QuotientBound(numer as int, g);
    QuotientBound(denom as int, g);
    ReducedCoprime(a, b);
    ReduceOverflow(numer, denom);
  }

  /** The negation that makes the denominator positive overflows exactly under `NegationOverflows`. */
  lemma ReduceOverflow(numer: i64, denom: i64)
    requires denom != 0 && numer != 0 && numer != denom
    ensures var g := Gcd(Abs(numer as int), Abs(denom as int));
      var n, d := numer as int / g, denom as int / g;
      d < 0 && (n == MIN || d == MIN) <==> NegationOverflows(numer, denom)
  {
    var a, b := Abs(numer as int), Abs(denom as int);
    var g := Gcd(a, b);
    var n, d := numer as int / g, denom as int / g;
    ExactDiv(numer as int, g);
    ExactDiv(denom as int, g);
    QuotientBound(numer as int, g);
    QuotientBound(denom as int, g);
    assert n == MIN <==> numer as int == MIN && g == 1;
    assert d == MIN <==> denom as int == MIN && g == 1;
    Pow2Of63();
    if numer as int == MIN {
      AbsParity(denom as int);
      CoprimePow2(b, 63);
    }
    if denom as int == MIN {
      AbsParity(numer as int);
      CoprimePow2(a, 63);
    }
  }

  /** A ratio is represented by exactly one `Rational64`. */
  lemma NormalisedUnique(a: Rational64, b: Rational64)
    requires SameValue(a.numer as int, a.denom as int, b.numer as int, b.denom as int)
    ensures a == b
  {
    var an, ad, bn, bd := a.numer as int, a.denom as int, b.numer as int, b.denom as int;
    SignAgrees(an, ad, bn, bd);
    assert Abs(an) * bd == Abs(bn) * ad by {
      if an < 0 {
        assert Abs(an) * bd == -(an * bd) && Abs(bn) * ad == -(bn * ad);
      }
    }
    CoprimeCrossEqual(Abs(an), ad, Abs(bn), bd);
  }

  /** With positive denominators, equal cross products force equal signs of the numerators. */
  lemma SignAgrees(an: int, ad: int, bn: int, bd: int)
    requires ad > 0 && bd > 0 && an * bd == bn * ad
    ensures an < 0 <==> bn < 0
    ensures an == 0 <==> bn == 0
  {
    SignOfProduct(an, bd);
    SignOfProduct(bn, ad);
  }

  lemma SignOfProduct(x: int, p: int)
    requires p > 0
    ensures x < 0 <==> x * p < 0
    ensures x == 0 <==> x * p == 0
  {
    if x < 0 {
      assert (-x) * p > 0 by { MulAtLeast(-x, p); }
    } else if x > 0 {
      MulAtLeast(x, p);
    }
  }

  /** Two ratios with non-zero denominators that both equal a third are equal. */
  lemma SameValueTransitive(n1: int, d1: int, n2: int, d2: int, n3: int, d3: int)
    requires d2 != 0
    requires SameValue(n1, d1, n2, d2) && SameValue(n2, d2, n3, d3)
    ensures SameValue(n1, d1, n3, d3)
  {
    assert (n1 * d3) * d2 == (n1 * d2) * d3;
    assert (n1 * d2) * d3 == (n2 * d1) * d3;
    assert (n2 * d1) * d3 == (n2 * d3) * d1;
    assert (n2 * d3) * d1 == (n3 * d2) * d1;
    assert (n3 * d2) * d1 == (n3 * d1) * d2;
    assert (n1 * d3 - n3 * d1) * d2 == 0;
  }

  /**
   * Whenever `Rational64::new` succeeds, its result is the one `Rational64`
   * equal in value to `numer / denom`: it accepts a candidate exactly when the
   * candidate has the same cross products.
   */
  lemma NewCanonical(numer: i64, denom: i64, a: Rational64)
    requires New(numer, denom).Ok?
    ensures New(numer, denom).value == a <==> SameValue(numer as int, denom as int, a.numer as int, a.denom as int)
  {
    var r := New(numer, denom).value;
    if SameValue(numer as int, denom as int, a.numer as int, a.denom as int) {
      SameValueSymmetric(r.numer as int, r.denom as int, numer as int, denom as int);
      SameValueTransitive(r.numer as int, r.denom as int, numer as int, denom as int, a.numer as int, a.denom as int);
      NormalisedUnique(r, a);
    }
  }

  lemma SameValueSymmetric(n1: int, d1: int, n2: int, d2: int)
    requires SameValue(n1, d1, n2, d2)
    ensures SameValue(n2, d2, n1, d1)
  {
  }

  /** A pair already in lowest terms with a positive denominator is kept as it is. */
  lemma NewOfNormalised(a: Rational64)
    ensures New(a.numer, a.denom) == Ok(a)
  {
    var n, d := a.numer as int, a.denom as int;
    if n == 0 {
      assert Gcd(0, d) == d;
    } else if n == d {
      assert Gcd(d, d) == Gcd(d, 0);
    } else {
      ReduceFacts(a.numer, a.denom);
      assert n / 1 == n && d / 1 == d;
    }
  }

  /**
   * On success the parts are the given parts divided by their gcd, with the
   * sign carried by the numerator alone.
   */
  lemma NewReduces(numer: i64, denom: i64)
    requires New(numer, denom).Ok?
    ensures var r, g := New(numer, denom).value, Gcd(Abs(numer as int), Abs(denom as int));
      && Abs(r.numer as int) == Abs(numer as int) / g
      && r.denom as int == Abs(denom as int) / g
      && (r.numer < 0 <==> (numer < 0 && denom > 0) || (numer > 0 && denom < 0))
  {
    var d := Abs(denom as int);
    if numer == 0 {
      assert Gcd(0, d) == d;
      MultipleMod(d, 1);
    } else if numer == denom {
      assert Gcd(d, d) == Gcd(d, 0);
      MultipleMod(d, 1);
    } else {
      NewReducesGeneral(numer, denom);
    }
  }

  lemma NewReducesGeneral(numer: i64, denom: i64)
    requires denom != 0 && numer != 0 && numer != denom
    requires New(numer, denom).Ok?
    ensures var r, g := New(numer, denom).value, Gcd(Abs(numer as int), Abs(denom as int));
      && Abs(r.numer as int) == Abs(numer as int) / g
      && r.denom as int == Abs(denom as int) / g
      && (r.numer < 0 <==> (numer < 0 && denom > 0) || (numer > 0 && denom < 0))
  {
    var g := Gcd(Abs(numer as int), Abs(denom as int));
    ReduceFacts(numer, denom);
    var n, d := numer as int / g, denom as int / g;
    assert n < 0 <==> numer < 0 by { SignOfProduct(n, g); }
    var r := New(numer, denom).value;
    if d < 0 {
      assert r == Ratio((-n) as i64, (-d) as i64);
    } else {
      assert r == Ratio(n as i64, d as i64);
    }
  }
}
