/** How good the heuristic is: no layout is nearer to the targets than any point of the loop is. */
module LayoutOptimality {
  import opened LayoutConvergence
  import opened LayoutGeometry
  import opened LayoutMultipliers
  import opened Products

  // ----- the loop

  /** At every point of the loop: the target function (the squared distance to the targets y) is at
      most that of any feasible layout, so of the best one, by at least the squared distance that
      the layout still has from the current positions. */
  lemma {:induction false} NearOptimal(y: Positions, gaps: Gaps, w: real, n: int, z: Positions)
    requires |y| == |gaps| == |z| && HalfRootTwo(w) && Feasible(z, gaps)
    ensures var x := Optimized(y, gaps, w, n);
            DistSq(y, x) + DistSq(x, z) <= DistSq(y, z)
  {
    hide *;
    var c := NothingIsCertified(y, gaps);
    var c' := RunIsCertified(c, y, y, gaps, w, n);
    CertifiedIsNear(c', y, Optimized(y, gaps, w, n), gaps, z);
  }

  lemma {:induction false} DistSqZero(x: Positions, z: Positions)
    requires |x| == |z| && DistSq(x, z) <= 0.0
    ensures x == z
  {
    if x != [] {
      DistSqZero(x[1..], z[1..]);
      assert x == [x[0]] + x[1..] && z == [z[0]] + z[1..];
      SqZero(x[0] - z[0]);
    }
  }

  lemma FeasibleIsDone(y: Positions, gaps: Gaps, w: real)
    requires |y| == |gaps| && HalfRootTwo(w) && Feasible(y, gaps)
    ensures Done(y, gaps, w)
  {
    var k := Largest(y, gaps, w);
    assert k < 0;
  }

  /** A feasible point reached after any number of steps is the one nearest point to the targets
      among all feasible ones, and the loop ends there. */
  lemma {:induction false} ReachedIsNearest(y: Positions, gaps: Gaps, w: real, n: int, z: Positions)
    requires |y| == |gaps| == |z| && HalfRootTwo(w)
    requires Feasible(Optimized(y, gaps, w, n), gaps) && Feasible(z, gaps)
    ensures DistSq(y, Optimized(y, gaps, w, n)) <= DistSq(y, z)
    ensures DistSq(y, z) <= DistSq(y, Optimized(y, gaps, w, n)) ==> z == Optimized(y, gaps, w, n)
    ensures Done(Optimized(y, gaps, w, n), gaps, w)
  {
    hide *;
    var x := Optimized(y, gaps, w, n);
    NearOptimal(y, gaps, w, n, z);
    FeasibleIsDone(x, gaps, w);
    if DistSq(y, z) <= DistSq(y, x) {
      DistSqZero(x, z);
    }
  }

  /** Every item moved down a little more than the one before it. */
  const SLACK := 0.0015

  function Lowered(x: Positions): (r: Positions)
    ensures |r| == |x|
    ensures forall i :: 0 <= i < |x| ==> r[i] == x[i] + (i + 1) as real * SLACK
  {
    seq(|x|, i requires 0 <= i < |x| => x[i] + (i + 1) as real * SLACK)
  }

  lemma LoweredIsFeasible(x: Positions, gaps: Gaps, w: real)
    requires |x| == |gaps| && HalfRootTwo(w) && Done(x, gaps, w)
    ensures Feasible(Lowered(x), gaps)
  {
    forall i: nat | i < |x|
      ensures Meets(Lowered(x), gaps, i)
    {
      ConvergedOverlap(x, gaps, w, i);
      assert (i + 1) as real * SLACK == i as real * SLACK + SLACK;
    }
  }

  /** Where the loop stops by itself, moving item i down by (i + 1) * 0.0015 makes the positions
      feasible, and a feasible layout that is not farther from the targets than those positions, as
      the nearest one is, is no farther from the stopped positions than those are worse. */
  lemma {:induction false} StopsNearTheOptimum(y: Positions, gaps: Gaps, w: real, n: int, z: Positions)
    requires |y| == |gaps| == |z| && HalfRootTwo(w) && Feasible(z, gaps)
    requires Done(Optimized(y, gaps, w, n), gaps, w)
    ensures var x := Optimized(y, gaps, w, n);
            && Feasible(Lowered(x), gaps)
            && (DistSq(y, z) <= DistSq(y, Lowered(x)) ==>
                  DistSq(x, z) <= DistSq(y, Lowered(x)) - DistSq(y, x))
            && DistSq(x, Lowered(x)) <= DistSq(y, Lowered(x)) - DistSq(y, x)
  {
    hide *;
    var x := Optimized(y, gaps, w, n);
    LoweredIsFeasible(x, gaps, w);
    NearOptimal(y, gaps, w, n, z);
    NearOptimal(y, gaps, w, n, Lowered(x));
  }

  lemma OneStep(y: Positions, gaps: Gaps, w: real)
    requires |y| == |gaps| && HalfRootTwo(w) && !Done(y, gaps, w)
    ensures Optimized(y, gaps, w, 1) == Step(y, gaps, w)
  {
  }
}
