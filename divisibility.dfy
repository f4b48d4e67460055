/**
 * Greatest common divisor on natural numbers, the arithmetic that the
 * normalising constructor of `Rational64` relies on.  The library computes it
 * with the binary (Stein) algorithm on absolute values; the model uses
 * Euclid's algorithm, which yields the same number.
 */
module Divisibility {

  /** `c` is a positive divisor of `a`. */
  predicate Divides(c: nat, a: nat) {
    c > 0 && a % c == 0
  }

  /** Euclid's algorithm. `Gcd(0, 0) == 0`; otherwise the result is positive. */
  function Gcd(a: nat, b: nat): (g: nat)
    ensures g == 0 <==> a == 0 && b == 0
    ensures g > 0 ==> Divides(g, a) && Divides(g, b)
    decreases b
  {
    if b == 0 then a
    else
      var g := Gcd(b, a % b);
      DivisionIdentity(a, b);
      if g > 0 then DividesCombination(g, b, a / b, a % b); g else g
  }

  /** `a` is `a / b` copies of `b` plus the remainder. */
  lemma DivisionIdentity(a: nat, b: nat)
    requires b > 0
    ensures a == (a / b) * b + a % b
  {
  }

  /** The remainder of an exact multiple is zero. */
  lemma MultipleMod(c: nat, k: nat)
    requires c > 0
    ensures (c * k) % c == 0 && (c * k) / c == k
  {
    DivModUnique(c * k, c, k, 0);
  }

  /** Quotient and remainder are unique. */
  lemma DivModUnique(x: int, m: int, q: int, r: int)
    requires m > 0 && 0 <= r < m && x == q * m + r
    ensures x / m == q && x % m == r
  {
    var q', r' := x / m, x % m;
    assert x == q' * m + r';
    assert (q - q') * m == r' - r;
    if q > q' {
      assert (q - q') * m >= m by { MulAtLeast(q - q', m); }
    } else if q < q' {
      assert (q' - q) * m >= m by { MulAtLeast(q' - q, m); }
    }
  }

  lemma MulAtLeast(k: int, m: int)
    requires k >= 1 && m > 0
    ensures k * m >= m
  {
  }

  /** A common divisor of `x` and `y` divides `k * x + y`. */
  lemma DividesCombination(c: nat, x: nat, k: nat, y: nat)
    requires Divides(c, x) && Divides(c, y)
    ensures Divides(c, k * x + y)
  {
    var p, q := x / c, y / c;
    assert x == c * p && y == c * q;
    assert k * x + y == c * (k * p + q);
    MultipleMod(c, k * p + q);
  }

  /** A common divisor of `x` and `k * x + y` divides `y`. */
  lemma DividesDifference(c: nat, x: nat, k: nat, y: nat)
    requires Divides(c, x) && Divides(c, k * x + y)
    ensures Divides(c, y)
  {
    var p, q := x / c, (k * x + y) / c;
    assert x == c * p && k * x + y == c * q;
    assert y == c * (q - k * p);
    NonNegFactor(c, q - k * p);
    MultipleMod(c, q - k * p);
  }

  lemma NonNegFactor(c: nat, t: int)
    requires c > 0 && c * t >= 0
    ensures t >= 0
  {
  }

  /** Cancellation of a positive factor. */
  lemma CancelFactor(c: nat, x: int, y: int)
    requires c > 0 && c * x == c * y
    ensures x == y
  {
    assert c * (x - y) == 0;
  }

  /** A product is odd exactly when both factors are. */
  lemma ProductParity(x: nat, y: nat)
    ensures (x * y) % 2 == 1 <==> x % 2 == 1 && y % 2 == 1
  {
    var x', y' := x / 2, y / 2;
    DivisionIdentity(x, 2);
    DivisionIdentity(y, 2);
    var a, b := x % 2, y % 2;
    assert x * y == 2 * (2 * x' * y' + x' * b + a * y') + a * b;
    DivModUnique(x * y, 2, 2 * x' * y' + x' * b + a * y', a * b);
  }

  /** Divisibility between positive numbers bounds them. */
  lemma DividesBound(c: nat, a: nat)
    requires Divides(c, a) && a > 0
    ensures c <= a
  {
    var k := a / c;
    assert a == c * k;
    assert k >= 1;
    MulAtLeast(k, c);
  }

  /** Every common divisor of `a` and `b` divides `Gcd(a, b)`. */
  lemma {:induction false} GcdGreatest(a: nat, b: nat, c: nat)
    requires Divides(c, a) && Divides(c, b)
    ensures Divides(c, Gcd(a, b))
    decreases b
  {
    if b > 0 {
      DivisionIdentity(a, b);
      DividesDifference(c, b, a / b, a % b);
      GcdGreatest(b, a % b, c);
    }
  }

  /** `(k * a) % (k * b) == k * (a % b)` for positive `k` and `b`. */
  lemma ScaleMod(k: nat, a: nat, b: nat)
    requires k > 0 && b > 0
    ensures (k * a) % (k * b) == k * (a % b)
  {
    var q, r := a / b, a % b;
    DivisionIdentity(a, b);
    assert k * a == q * (k * b) + k * r;
    assert k * r < k * b by { MulStrict(k, r, b); }
    DivModUnique(k * a, k * b, q, k * r);
  }

  lemma MulStrict(k: nat, r: nat, b: nat)
    requires k > 0 && r < b
    ensures k * r < k * b
  {
    assert k * b - k * r == k * (b - r);
    MulAtLeast(b - r, k);
  }

  /** Scaling both arguments scales the gcd. */
  lemma {:induction false} GcdScale(k: nat, a: nat, b: nat)
    requires k > 0
    ensures Gcd(k * a, k * b) == k * Gcd(a, b)
    decreases b
  {
    if b > 0 {
      ScaleMod(k, a, b);
      GcdScale(k, b, a % b);
    }
  }

  /** Dividing both arguments by their gcd leaves coprime numbers. */
  lemma ReducedCoprime(a: nat, b: nat)
    requires b > 0
    ensures Gcd(a / Gcd(a, b), b / Gcd(a, b)) == 1
  {
    var g := Gcd(a, b);
    var a', b' := a / g, b / g;
    DivisionIdentity(a, g);
    DivisionIdentity(b, g);
    assert a == g * a' && b == g * b';
    GcdScale(g, a', b');
    assert Gcd(g * a', g * b') == g;
    CancelFactor(g, Gcd(a', b'), 1);
  }

  /**
   * Two fractions in lowest terms with positive denominators and equal cross
   * products are the same fraction.
   */
  lemma CoprimeCrossEqual(a1: nat, b1: nat, a2: nat, b2: nat)
    requires b1 > 0 && b2 > 0
    requires Gcd(a1, b1) == 1 && Gcd(a2, b2) == 1
    requires a1 * b2 == a2 * b1
    ensures a1 == a2 && b1 == b2
  {
    CoprimeDividesOther(a1, b1, a2, b2);
    CoprimeDividesOther(a2, b2, a1, b1);
    DividesBound(b1, b2);
    DividesBound(b2, b1);
    assert b1 == b2;
    assert b1 * a1 == b1 * a2;
    CancelFactor(b1, a1, a2);
  }

  /** Under the hypotheses of `CoprimeCrossEqual`, `b1` divides `b2`. */
  lemma CoprimeDividesOther(a1: nat, b1: nat, a2: nat, b2: nat)
    requires b1 > 0 && b2 > 0
    requires Gcd(a1, b1) == 1
    requires a1 * b2 == a2 * b1
    ensures Divides(b1, b2)
  {
    var x, y := b2 * a1, b2 * b1;
    assert x == b1 * a2 && y == b1 * b2;
    assert Divides(b1, x) && Divides(b1, y) by {
      MultipleMod(b1, a2);
      MultipleMod(b1, b2);
    }
    GcdGreatest(x, y, b1);
    assert Gcd(x, y) == b2 * 1 by { GcdScale(b2, a1, b1); }
  }

  /** Powers of two. */
  function Pow2(k: nat): (p: nat)
    ensures p >= 1
  {
    if k == 0 then 1 else 2 * Pow2(k - 1)
  }

  lemma {:induction false} Pow2Add(j: nat, k: nat)
    ensures Pow2(j + k) == Pow2(j) * Pow2(k)
  {
    if k > 0 {
      Pow2Add(j, k - 1);
    }
  }

  /** `2^63`, the magnitude of `i64::MIN`. */
  lemma Pow2Of63()
    ensures Pow2(63) == 0x8000_0000_0000_0000
  {
    assert Pow2(2) == 4;
    Pow2Add(2, 2);
    Pow2Add(4, 4);
    Pow2Add(8, 8);
    Pow2Add(16, 16);
    Pow2Add(32, 16);
    Pow2Add(48, 8);
    Pow2Add(56, 4);
    Pow2Add(60, 2);
    Pow2Add(62, 1);
  }

  /** An odd number divides an even number only through its half. */
  lemma OddDividesDouble(c: nat, m: nat)
    requires c % 2 == 1 && Divides(c, 2 * m)
    ensures Divides(c, m)
  {
    var q := 2 * m / c;
    assert 2 * m == c * q;
    MultipleMod(2, m);
    ProductParity(c, q);
    var h := q / 2;
    assert q == 2 * h;
    assert 2 * m == 2 * (c * h);
    MultipleMod(c, h);
  }

  /** The only odd divisor of a power of two is one. */
  lemma {:induction false} OddDividesPow2(c: nat, k: nat)
    requires c % 2 == 1 && Divides(c, Pow2(k))
    ensures c == 1
  {
    if k == 0 {
      DividesBound(c, 1);
    } else {
      OddDividesDouble(c, Pow2(k - 1));
      OddDividesPow2(c, k - 1);
    }
  }

  /** A divisor of an odd number is odd. */
  lemma DivisorOfOdd(c: nat, x: nat)
    requires x % 2 == 1 && Divides(c, x)
    ensures c % 2 == 1
  {
    var q := x / c;
    assert x == c * q;
    ProductParity(c, q);
  }

  /**
   * A power of two (at least 2) and a positive `x` are coprime exactly when
   * `x` is odd, in either argument order.
   */
  lemma CoprimePow2(x: nat, k: nat)
    requires k >= 1 && x > 0
    ensures Gcd(x, Pow2(k)) == 1 <==> x % 2 == 1
    ensures Gcd(Pow2(k), x) == 1 <==> x % 2 == 1
  {
    var p := Pow2(k);
    assert p == 2 * Pow2(k - 1);
    MultipleMod(2, Pow2(k - 1));
    if x % 2 == 1 {
      DivisorOfOdd(Gcd(x, p), x);
      OddDividesPow2(Gcd(x, p), k);
      DivisorOfOdd(Gcd(p, x), x);
      OddDividesPow2(Gcd(p, x), k);
    } else {
      GcdGreatest(x, p, 2);
      GcdGreatest(p, x, 2);
    }
  }
}
