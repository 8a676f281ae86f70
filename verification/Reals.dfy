/** Conversions from real numbers to integers: the cast of a floating point value, which cuts off
    towards zero, and the rounding of formatted output, which takes the nearest integer and the even
    one of two equally near ones. */
module Reals {
  import opened Products

  /** The conversion of a floating point value to an integer: towards zero. */
  function Truncate(x: real): int {
    if 0.0 <= x then x.Floor else -((-x).Floor)
  }

  lemma TruncateInteger(k: int)
    ensures Truncate(k as real) == k
  {
    assert (-(k as real)) == (-k) as real;
  }

  /** What is cut off has the sign of x and is below 1. */
  lemma TruncateError(x: real)
    ensures 0.0 <= x ==> 0.0 <= x - Truncate(x) as real < 1.0
    ensures x <= 0.0 ==> -1.0 < x - Truncate(x) as real <= 0.0
  {
  }

  /** The nearest integer, the even one of two equally near ones. */
  function RoundHalfEven(x: real): int {
    var f := x.Floor;
    var d := x - f as real;
    if d < 0.5 || (d == 0.5 && f % 2 == 0) then f else f + 1
  }

  lemma RoundHalfEvenError(x: real)
    ensures -0.5 <= RoundHalfEven(x) as real - x <= 0.5
    ensures RoundHalfEven(x) as real - x == 0.5 || x - RoundHalfEven(x) as real == 0.5 ==> RoundHalfEven(x) % 2 == 0
  {
  }

  lemma RoundHalfEvenInteger(k: int)
    ensures RoundHalfEven(k as real) == k
  {
  }

  /** Below an even integer k: the result reaches k exactly from k - 1/2 on. */
  lemma RoundHalfEvenBelow(x: real, k: int)
    requires k % 2 == 0 && x < k as real
    ensures RoundHalfEven(x) <= k
    ensures RoundHalfEven(x) < k <==> x < k as real - 0.5
  {
  }

  function Abs(x: real): real {
    if x < 0.0 then -x else x
  }

  lemma TruncateOdd(x: real)
    ensures Truncate(-x) == -Truncate(x)
  {
    assert -(-x) == x;
    TruncateInteger(0);
  }

  lemma ScaledBy(a: real, y: real, b: real, x: real, t: real, degree: real)
    requires 0.0 < degree && a == y * degree && b == x * degree
    ensures Abs(a - b) <= t * degree <==> Abs(y - x) <= t
  {
    hide Abs;
    Scaled(y, x, t, degree);
  }

  lemma Scaled(y: real, x: real, t: real, degree: real)
    requires 0.0 < degree
    ensures Abs(y * degree - x * degree) <= t * degree <==> Abs(y - x) <= t
  {
    var d := y - x;
    assert y * degree - x * degree == d * degree;
    if d < 0.0 {
      ScaledStrictly(d, 0.0, degree);
      assert -(d * degree) == (-d) * degree;
      ScaledOrder(-d, t, degree);
    } else {
      ScaledUp(0.0, d, degree);
      ScaledOrder(d, t, degree);
    }
  }
}
