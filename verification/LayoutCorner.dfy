/** The heuristic in two dimensions: two items, and the corner of their constraints. */
module LayoutCorner {
  import opened LayoutConvergence
  import opened LayoutGeometry
  import opened LayoutOptimality
  import opened Products

  /** The point where both constraints of two items are just met. */
  function Corner(gaps: Gaps): (c: Positions)
    requires |gaps| == 2
    ensures |c| == 2
  {
    [gaps[0] as real, (gaps[0] + gaps[1]) as real]
  }

  /** The cone of the points to which the corner is the nearest feasible one. */
  predicate BehindCorner(y: Positions, gaps: Gaps)
    requires |y| == |gaps| == 2
  {
    var c := Corner(gaps);
    y[1] <= c[1] && y[0] + y[1] <= c[0] + c[1]
  }

  lemma DistSqOfTwo(y: Positions, z: Positions)
    requires |y| == |z| == 2
    ensures DistSq(y, z) == Sq(y[0] - z[0]) + Sq(y[1] - z[1])
  {
    assert DistSq(y[1..], z[1..]) == Sq(y[1] - z[1]) + DistSq(y[1..][1..], z[1..][1..]);
  }

  /** A step that lands on an infeasible point starts and ends behind the corner. */
  lemma InfeasibleStepIsBehind(y: Positions, gaps: Gaps, w: real)
    requires |y| == |gaps| == 2 && HalfRootTwo(w) && !Done(y, gaps, w)
    requires BehindCorner(y, gaps) || !Feasible(Step(y, gaps, w), gaps)
    ensures BehindCorner(y, gaps) && BehindCorner(Step(y, gaps, w), gaps)
  {
    var k := Largest(y, gaps, w);
    var p := Step(y, gaps, w);
    ProjectionMeets(y, gaps, k);
    assert Feasible(p, gaps) <==> Meets(p, gaps, 0) && Meets(p, gaps, 1);
  }

  /** From behind the corner, the corner is the nearest feasible point. */
  lemma CornerIsNearest(y: Positions, gaps: Gaps, z: Positions)
    requires |y| == |gaps| == |z| == 2 && BehindCorner(y, gaps) && Feasible(z, gaps)
    ensures Feasible(Corner(gaps), gaps)
    ensures DistSq(y, Corner(gaps)) <= DistSq(y, z)
  {
    var c := Corner(gaps);
    DistSqOfTwo(y, c);
    DistSqOfTwo(y, z);
    assert Meets(z, gaps, 0) && Meets(z, gaps, 1);
    hide DistSq;
    Obtuse(c[0] - y[0], c[1] - y[1], z[0] - c[0], z[1] - c[1]);
    assert Sq(y[0] - c[0]) == Sq(c[0] - y[0]) && Sq(y[1] - c[1]) == Sq(c[1] - y[1]);
    assert Sq(y[0] - z[0]) == Sq((c[0] - y[0]) + (z[0] - c[0])) by {
      SqNegated(y[0] - z[0]);
    }
    assert Sq(y[1] - z[1]) == Sq((c[1] - y[1]) + (z[1] - c[1])) by {
      SqNegated(y[1] - z[1]);
    }
  }

  lemma Obtuse(u: real, v: real, a: real, b: real)
    requires 0.0 <= v && 0.0 <= u + v && 0.0 <= a <= b
    ensures Sq(u) + Sq(v) <= Sq(u + a) + Sq(v + b)
  {
    hide *;
    NonNegativeProduct(u + v, a);
    NonNegativeProduct(v, b - a);
    SqSum(u, a);
    SqSum(v, b);
    ByParts(u * a, v * b, (u + v) * a, v * (b - a), u, v, a, b);
  }

  /** Where the loop stops behind the corner, it is within 4/1000 of it. */
  lemma {:induction false} ConvergesToCorner(y: Positions, gaps: Gaps, w: real, n: int)
    requires |y| == |gaps| == 2 && HalfRootTwo(w) && BehindCorner(y, gaps)
    requires Done(Optimized(y, gaps, w, n), gaps, w)
    ensures DistSq(Optimized(y, gaps, w, n), Corner(gaps)) <= Sq(4.0 * MARGIN)
    decreases if n < 0 then 0 else n
  {
    if n <= 0 || Done(y, gaps, w) {
      var c := Corner(gaps);
      ConvergedOverlap(y, gaps, w, 0);
      ConvergedOverlap(y, gaps, w, 1);
      DistSqOfTwo(y, c);
      var u, v := y[0] - c[0], y[1] - c[1];
      assert -0.001 < u < 0.0025 && -0.0025 < v <= 0.0;
      hide DistSq, Done, Optimized;
      SmallSquare(u);
      SmallSquare(v);
    } else {
      InfeasibleStepIsBehind(y, gaps, w);
      ConvergesToCorner(Step(y, gaps, w), gaps, w, n - 1);
    }
  }

  lemma SmallSquare(x: real)
    requires -0.0025 <= x <= 0.0025
    ensures Sq(x) <= 0.0025 * 0.0025
  {
    NonNegativeProduct(0.0025 - x, 0.0025 + x);
    assert (0.0025 - x) * (0.0025 + x) == 0.0025 * 0.0025 - x * x;
  }

  /** With two items the loop either steps onto the nearest feasible point and ends there, or
      the nearest feasible point is the corner, and where the loop ends it is close to it. */
  lemma EdgeOrCorner(y: Positions, gaps: Gaps, w: real, n: int, z: Positions)
    requires |y| == |gaps| == |z| == 2 && HalfRootTwo(w) && !Done(y, gaps, w) && Feasible(z, gaps)
    ensures Feasible(Step(y, gaps, w), gaps) ==>
              && DistSq(y, Step(y, gaps, w)) <= DistSq(y, z)
              && (0 < n ==> Optimized(y, gaps, w, n) == Step(y, gaps, w))
    ensures !Feasible(Step(y, gaps, w), gaps) ==>
              && Feasible(Corner(gaps), gaps)
              && DistSq(y, Corner(gaps)) <= DistSq(y, z)
              && (Done(Optimized(y, gaps, w, n), gaps, w) ==>
                    DistSq(Optimized(y, gaps, w, n), Corner(gaps)) <= Sq(4.0 * MARGIN))
  {
    hide *;
    OneStep(y, gaps, w);
    if Feasible(Step(y, gaps, w), gaps) {
      ReachedIsNearest(y, gaps, w, 1, z);
      if 0 < n {
        StoppedStays(y, gaps, w, 1, n);
      }
    } else {
      InfeasibleStepIsBehind(y, gaps, w);
      CornerIsNearest(y, gaps, z);
      if Done(Optimized(y, gaps, w, n), gaps, w) {
        ConvergesToCorner(y, gaps, w, n);
      }
    }
  }
}
