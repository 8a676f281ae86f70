/** Products and quotients: how the sign, the size and the order of the factors decide those of the
    product. The proofs about distances, angles and numerals take these facts from here, so that no
    other nonlinear arithmetic stands in their way. */
module Products {
  lemma NonNegativeProduct(a: real, b: real)
    requires 0.0 <= a && 0.0 <= b
    ensures 0.0 <= a * b
  {
  }

  lemma PositiveProduct(a: real, b: real, p: real)
    requires 0.0 < a && 0.0 < b && p == a * b
    ensures 0.0 < p
  {
  }

  lemma ScaledUp(a: real, b: real, unit: real)
    requires 0.0 < unit && a <= b
    ensures a * unit <= b * unit
  {
  }

  lemma ScaledStrictly(a: real, b: real, unit: real)
    requires 0.0 < unit && a < b
    ensures a * unit < b * unit
  {
  }

  lemma ScaledOrder(a: real, b: real, unit: real)
    requires 0.0 < unit
    ensures a * unit <= b * unit <==> a <= b
  {
    if a <= b {
      ScaledUp(a, b, unit);
    } else {
      ScaledStrictly(b, a, unit);
    }
  }

  lemma ScaledDown(p: real, w: real, bound: real)
    requires 0.0 <= p < bound && 0.0 < w < 1.0
    ensures p * w < bound
  {
    assert p * w <= p * 1.0;
  }

  lemma NonNegativeQuotient(a: real, b: real)
    requires 0.0 <= a && 0.0 < b
    ensures 0.0 <= a / b
  {
  }

  /** A decimal fraction, in units of its last digit. */
  lemma MovedPoint(w: nat, f: nat, p: nat, x: real)
    requires 0 < p && x == w as real + f as real / p as real
    ensures x * p as real == (w * p + f) as real
  {
    var q := p as real;
    assert (f as real / q) * q == f as real;
    assert x * q == w as real * q + (f as real / q) * q;
    assert (w * p) as real == w as real * q;
  }

  lemma Quotient(x: real, unit: real)
    requires 0.0 < unit
    ensures x == (x / unit) * unit
  {
  }

  lemma TenTimes(h: nat, p: nat)
    requires 10 <= p
    ensures 10 * h <= h * p
  {
  }

  lemma AtLeast(d: nat, p: nat)
    requires 0 < d
    ensures p <= d * p
  {
  }

  lemma Hundredfold(b: nat, p: nat)
    requires 100 <= p
    ensures 100 * b <= b * p
  {
  }

  lemma ByParts(p: real, q: real, r: real, s: real, u: real, v: real, a: real, b: real)
    requires p == u * a && q == v * b && r == (u + v) * a && s == v * (b - a)
    ensures p + q == r + s
  {
  }

  lemma TimesHundred(a: nat, p: nat)
    requires p == 100
    ensures a * p == 100 * a
  {
  }

  function Sq(x: real): (s: real)
    ensures 0.0 <= s
  {
    x * x
  }

  lemma HalfSquares(o: real)
    ensures Sq(o / 2.0) + Sq(-(o / 2.0)) == Sq(o) / 2.0
    ensures Sq(0.0) == 0.0
  {
    var h := o / 2.0;
    assert o == 2.0 * h;
    assert o * o == 4.0 * (h * h);
    assert (-h) * (-h) == h * h;
  }

  lemma SquareOfProduct(o: real, w: real)
    requires w * w == 0.5
    ensures Sq(o * w) == Sq(o) / 2.0
  {
    assert (o * w) * (o * w) == (o * o) * (w * w);
  }

  lemma SqNegated(x: real)
    ensures Sq(x) == Sq(-x)
  {
  }

  lemma SqPositive(d: real)
    requires 0.0 < d
    ensures 0.0 < Sq(d)
  {
    PositiveProduct(d, d, Sq(d));
  }

  lemma SqZero(d: real)
    requires Sq(d) <= 0.0
    ensures d == 0.0
  {
    hide Sq;
    if 0.0 < d {
      SqPositive(d);
    } else if d < 0.0 {
      SqNegated(d);
      SqPositive(-d);
    }
  }

  lemma SqSum(x: real, y: real)
    ensures Sq(x + y) == Sq(x) + 2.0 * (x * y) + Sq(y)
  {
  }
}
