/** Why the heuristic is good: the constraints have no obtuse corners, so that the moves of every run
    add up to multipliers that certify that the positions are nearest to the targets. */
module LayoutMultipliers {
  import opened LayoutConvergence
  import opened LayoutGeometry
  import opened Products

  // ----- no obtuse corners

  /** A projection onto one constraint never makes another one slack: the constraints have no
      corner of more than 90 degrees. */
  lemma NoObtuseCorner(x: Positions, gaps: Gaps, k: nat, i: nat)
    requires |x| == |gaps| && k < |x| && i < |x| && i != k
    ensures var p := Project(x, gaps, k);
            MinY(x, gaps, i) - x[i] <= MinY(p, gaps, i) - p[i]
  {
    OverlapIsNotNegative(x, gaps, k);
    hide Overlap;
  }

  lemma OverlapIsNotNegative(x: Positions, gaps: Gaps, k: nat)
    requires |x| == |gaps| && k < |x|
    ensures 0.0 <= Overlap(x, gaps, k)
  {
  }

  // ----- multipliers

  /** What the steps have added up to on constraint i: a multiplier that is used only while the
      constraint is not slack. Constraint i pushes item i down and item i-1 up. */
  ghost predicate Pushes(c: seq<real>, y: Positions, x: Positions, gaps: Gaps, i: nat)
    requires |y| == |x| == |gaps| && |c| == |y| + 1 && i < |y|
  {
    0.0 <= c[i] && x[i] == y[i] + c[i] - c[i + 1] && (0.0 < c[i] ==> x[i] <= MinY(x, gaps, i))
  }

  ghost predicate Certifies(c: seq<real>, y: Positions, x: Positions, gaps: Gaps)
    requires |y| == |x| == |gaps|
  {
    |c| == |y| + 1 && c[|y|] == 0.0 && forall i: nat :: i < |y| ==> Pushes(c, y, x, gaps, i)
  }

  /** The length of the move of each item that a projection moves. */
  function Push(x: Positions, gaps: Gaps, k: nat): real
    requires |x| == |gaps| && k < |x|
  {
    if k == 0 then Overlap(x, gaps, 0) else Overlap(x, gaps, k) / 2.0
  }

  lemma ProjectedAt(x: Positions, gaps: Gaps, k: nat, i: nat)
    requires |x| == |gaps| && k < |x| && i < |x|
    ensures Project(x, gaps, k)[i] ==
            if i == k then x[i] + Push(x, gaps, k) else if i + 1 == k then x[i] - Push(x, gaps, k) else x[i]
    ensures 0.0 <= Push(x, gaps, k)
  {
    OverlapIsNotNegative(x, gaps, k);
    hide Overlap;
  }

  lemma ProjectionIsCertified(c: seq<real>, y: Positions, x: Positions, gaps: Gaps, k: nat)
    requires |y| == |x| == |gaps| && k < |x| && !Meets(x, gaps, k) && Certifies(c, y, x, gaps)
    ensures Certifies(c[k := c[k] + Push(x, gaps, k)], y, Project(x, gaps, k), gaps)
  {
    var c' := c[k := c[k] + Push(x, gaps, k)];
    var p := Project(x, gaps, k);
    forall i: nat | i < |y|
      ensures Pushes(c', y, p, gaps, i)
    {
      assert Pushes(c, y, x, gaps, i);
      ProjectedAt(x, gaps, k, i);
      if i == k {
      } else {
        NoObtuseCorner(x, gaps, k, i);
      }
      hide Project, Push;
    }
  }

  lemma NothingIsCertified(y: Positions, gaps: Gaps) returns (c: seq<real>)
    requires |y| == |gaps|
    ensures Certifies(c, y, y, gaps)
  {
    c := seq(|y| + 1, i => 0.0);
  }

  /** Every run from x adds to the multipliers of x. */
  lemma {:induction false} RunIsCertified(c: seq<real>, y: Positions, x: Positions, gaps: Gaps, w: real, n: int)
    returns (c': seq<real>)
    requires |y| == |x| == |gaps| && HalfRootTwo(w) && Certifies(c, y, x, gaps)
    ensures Certifies(c', y, Optimized(x, gaps, w, n), gaps)
    decreases if n < 0 then 0 else n
  {
    c' := c;
    if n > 0 && !Done(x, gaps, w) {
      var k := Largest(x, gaps, w);
      ProjectionIsCertified(c, y, x, gaps, k);
      hide Certifies, Project, Push;
      c' := RunIsCertified(c[k := c[k] + Push(x, gaps, k)], y, Step(x, gaps, w), gaps, w, n - 1);
    }
  }

  // ----- certified positions are optimal

  function Product(a: real, b: real): real {
    a * b
  }

  /** The scalar product of x - y and z - x. */
  function Cross(y: Positions, x: Positions, z: Positions): real
    requires |y| == |x| == |z|
  {
    if y == [] then 0.0 else Product(x[0] - y[0], z[0] - x[0]) + Cross(y[1..], x[1..], z[1..])
  }

  lemma {:induction false} DistSqByParts(y: Positions, x: Positions, z: Positions)
    requires |y| == |x| == |z|
    ensures DistSq(y, z) == DistSq(y, x) + DistSq(x, z) + 2.0 * Cross(y, x, z)
  {
    if y != [] {
      DistSqByParts(y[1..], x[1..], z[1..]);
      hide Sq, Product;
    }
  }

  /** At a used multiplier, item i of z is at least as far ahead of x as item i-1. */
  ghost predicate Advances(c: seq<real>, y: Positions, x: Positions, z: Positions, i: nat)
    requires |y| == |x| == |z| && |c| == |y| + 1 && i < |y|
  {
    && 0.0 <= c[i] && x[i] == y[i] + c[i] - c[i + 1]
    && (0 < i && 0.0 < c[i] ==> z[i - 1] - x[i - 1] <= z[i] - x[i])
  }

  /** Summation by parts: the product is at least the share of the first multiplier. */
  lemma {:induction false} CrossIsLarge(c: seq<real>, y: Positions, x: Positions, z: Positions)
    requires |y| == |x| == |z| && |c| == |y| + 1 && c[|y|] == 0.0 && y != []
    requires forall i: nat :: i < |y| ==> Advances(c, y, x, z, i)
    ensures Product(c[0], z[0] - x[0]) <= Cross(y, x, z)
  {
    hide Product;
    assert Advances(c, y, x, z, 0);
    var d := z[0] - x[0];
    assert x[0] - y[0] == c[0] - c[1];
    Distribute(c[0], c[1], d);
    if |y| == 1 {
      assert Cross(y[1..], x[1..], z[1..]) == 0.0;
    } else {
      assert Advances(c, y, x, z, 1);
      forall i: nat | i < |y| - 1
        ensures Advances(c[1..], y[1..], x[1..], z[1..], i)
      {
        assert Advances(c, y, x, z, i + 1);
      }
      CrossIsLarge(c[1..], y[1..], x[1..], z[1..]);
      LargerFactor(c[1], d, z[1] - x[1]);
    }
  }

  lemma Distribute(a: real, b: real, d: real)
    ensures Product(a - b, d) == Product(a, d) - Product(b, d)
  {
  }

  lemma LargerFactor(a: real, d: real, e: real)
    requires 0.0 <= a && (0.0 < a ==> d <= e)
    ensures Product(a, d) <= Product(a, e)
  {
    if 0.0 < a {
      NonNegativeProduct(a, e - d);
      assert a * (e - d) == a * e - a * d;
    }
  }

  lemma CertifiedAdvances(c: seq<real>, y: Positions, x: Positions, gaps: Gaps, z: Positions, i: nat)
    requires |y| == |x| == |gaps| == |z| && Certifies(c, y, x, gaps) && Feasible(z, gaps) && i < |y|
    ensures Advances(c, y, x, z, i)
    ensures i == 0 && 0.0 < c[0] ==> 0.0 <= z[0] - x[0]
  {
    assert Pushes(c, y, x, gaps, i) && Meets(z, gaps, i);
  }

  lemma CrossOfCertified(c: seq<real>, y: Positions, x: Positions, gaps: Gaps, z: Positions)
    requires |y| == |x| == |gaps| == |z| && Certifies(c, y, x, gaps) && Feasible(z, gaps)
    ensures 0.0 <= Cross(y, x, z)
  {
    if y == [] {
      return;
    }
    forall i: nat | i < |y|
      ensures Advances(c, y, x, z, i)
    {
      CertifiedAdvances(c, y, x, gaps, z, i);
    }
    CertifiedAdvances(c, y, x, gaps, z, 0);
    assert 0.0 <= c[0];
    hide *;
    CrossIsLarge(c, y, x, z);
    LargerFactor(c[0], 0.0, z[0] - x[0]);
  }

  /** The distances of the targets y, of certified positions x and of a feasible z. */
  lemma {:induction false} CertifiedIsNear(c: seq<real>, y: Positions, x: Positions, gaps: Gaps, z: Positions)
    requires |y| == |x| == |gaps| == |z| && Certifies(c, y, x, gaps) && Feasible(z, gaps)
    ensures DistSq(y, x) + DistSq(x, z) <= DistSq(y, z)
  {
    hide *;
    DistSqByParts(y, x, z);
    CrossOfCertified(c, y, x, gaps, z);
  }
}
