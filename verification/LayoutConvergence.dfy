/** Runs of the optimisation loop: what every run of steps keeps, why the loop ends by itself, how
    far the result is from the targets and how much overlap is left. */
module LayoutConvergence {
  import opened LayoutGeometry
  import opened Products

  const MARGIN := 0.001

  /** The stopping test of one iteration. */
  predicate Done(y: Positions, gaps: Gaps, w: real)
    requires |y| == |gaps| && HalfRootTwo(w)
  {
    var k := Largest(y, gaps, w);
    k < 0 || Overlap(y, gaps, k) < MARGIN
  }

  function Step(y: Positions, gaps: Gaps, w: real): (y': Positions)
    requires |y| == |gaps| && HalfRootTwo(w) && !Done(y, gaps, w)
    ensures |y'| == |y|
  {
    Project(y, gaps, Largest(y, gaps, w))
  }

  /** The positions after at most n iterations. */
  function Optimized(y: Positions, gaps: Gaps, w: real, n: int): (y': Positions)
    requires |y| == |gaps| && HalfRootTwo(w)
    ensures |y'| == |y|
    decreases if n < 0 then 0 else n
  {
    if n <= 0 || Done(y, gaps, w) then y else Optimized(Step(y, gaps, w), gaps, w, n - 1)
  }

  /** The loop stops exactly when the overlap of the item whose weighted overlap is the largest one,
      without its weight, is below 1/1000, or no item overlaps. */
  lemma StopsExactly(y: Positions, gaps: Gaps, w: real, k: int)
    requires |y| == |gaps| && HalfRootTwo(w) && IsLargest(y, gaps, w, |y|, k)
    ensures Done(y, gaps, w) <==> k < 0 || MinY(y, gaps, k) - y[k] < 0.001
  {
    LargestIsUnique(y, gaps, w, |y|, k, Largest(y, gaps, w));
  }

  ghost predicate IsMove(y: Positions, y': Positions, gaps: Gaps, w: real)
    requires |y| == |gaps| && HalfRootTwo(w)
  {
    !Done(y, gaps, w) && y' == Step(y, gaps, w)
  }

  /** A run of the loop: each position is the one before, moved onto the farthest violated constraint. */
  ghost predicate Chain(run: seq<Positions>, gaps: Gaps, w: real)
    requires HalfRootTwo(w)
  {
    && run != []
    && (forall i :: 0 <= i < |run| ==> |run[i]| == |gaps|)
    && (forall i, j :: 0 <= i < j == i + 1 < |run| ==> IsMove(run[i], run[j], gaps, w))
  }

  /** The result ends a run from y of at most n moves, of none for n <= 0, and of fewer only where the
      loop stops by itself. */
  lemma {:induction false} EndsAChain(y: Positions, gaps: Gaps, w: real, n: int) returns (run: seq<Positions>)
    requires |y| == |gaps| && HalfRootTwo(w)
    ensures Chain(run, gaps, w) && run[0] == y && run[|run| - 1] == Optimized(y, gaps, w, n)
    ensures |run| - 1 <= if n < 0 then 0 else n
    ensures |run| - 1 < n ==> Done(Optimized(y, gaps, w, n), gaps, w)
    decreases if n < 0 then 0 else n
  {
    if n <= 0 || Done(y, gaps, w) {
      run := [y];
    } else {
      var rest := EndsAChain(Step(y, gaps, w), gaps, w, n - 1);
      run := [y] + rest;
      ChainFrom(y, rest, gaps, w);
    }
  }

  lemma ChainFrom(y: Positions, rest: seq<Positions>, gaps: Gaps, w: real)
    requires |y| == |gaps| && HalfRootTwo(w) && Chain(rest, gaps, w)
    requires IsMove(y, rest[0], gaps, w)
    ensures Chain([y] + rest, gaps, w)
  {
    hide IsMove;
    var run := [y] + rest;
    assert forall i :: 0 <= i < |run| ==> run[i] == if i == 0 then y else rest[i - 1];
    forall i, j | 0 <= i < j == i + 1 < |run|
      ensures IsMove(run[i], run[j], gaps, w)
    {
      if i > 0 {
        assert IsMove(rest[i - 1], rest[j - 1], gaps, w);
      }
    }
  }

  /** How many of the n iterations move something. */
  function Moves(y: Positions, gaps: Gaps, w: real, n: int): nat
    requires |y| == |gaps| && HalfRootTwo(w)
    decreases if n < 0 then 0 else n
  {
    if n <= 0 || Done(y, gaps, w) then 0 else 1 + Moves(Step(y, gaps, w), gaps, w, n - 1)
  }

  /** The sum of the squared lengths of the moves. */
  function PathSq(y: Positions, gaps: Gaps, w: real, n: int): real
    requires |y| == |gaps| && HalfRootTwo(w)
    decreases if n < 0 then 0 else n
  {
    if n <= 0 || Done(y, gaps, w) then 0.0
    else DistSq(y, Step(y, gaps, w)) + PathSq(Step(y, gaps, w), gaps, w, n - 1)
  }

  /** A move goes onto the farthest violated constraint: its length is at least the distance to
      any other constraint. */
  lemma {:induction false} StepIsFarthest(y: Positions, gaps: Gaps, w: real, j: nat)
    requires |y| == |gaps| && HalfRootTwo(w) && !Done(y, gaps, w) && j < |y|
    ensures DistSq(y, Project(y, gaps, j)) <= DistSq(y, Step(y, gaps, w))
  {
    var k := Largest(y, gaps, w);
    WeightedOverlapIsDistance(y, gaps, w, j, y);
    WeightedOverlapIsDistance(y, gaps, w, k, y);
    SqMonotone(Weighted(y, gaps, w, j), Weighted(y, gaps, w, k));
  }

  lemma SqMonotone(a: real, b: real)
    requires 0.0 <= a <= b
    ensures Sq(a) <= Sq(b)
  {
    assert 0.0 <= (b - a) * a;
    assert 0.0 <= (b - a) * b;
    assert b * b - a * a == (b - a) * a + (b - a) * b;
  }

  lemma {:induction false} StepIsLong(y: Positions, gaps: Gaps, w: real)
    requires |y| == |gaps| && HalfRootTwo(w) && !Done(y, gaps, w)
    ensures MARGIN * MARGIN / 2.0 <= DistSq(y, Step(y, gaps, w))
  {
    var k := Largest(y, gaps, w);
    ProjectionLength(y, gaps, k);
    SqMonotone(MARGIN, Overlap(y, gaps, k));
  }

  /** Over any run, the squared distance to every feasible vector drops by at least the squared
      lengths of all moves. */
  lemma {:induction false} RunApproaches(y: Positions, gaps: Gaps, w: real, n: int, z: Positions)
    requires |y| == |gaps| == |z| && HalfRootTwo(w) && Feasible(z, gaps)
    ensures DistSq(Optimized(y, gaps, w, n), z) + PathSq(y, gaps, w, n) <= DistSq(y, z)
    decreases if n < 0 then 0 else n
  {
    if n > 0 && !Done(y, gaps, w) {
      ProjectionApproaches(y, gaps, Largest(y, gaps, w), z);
      RunApproaches(Step(y, gaps, w), gaps, w, n - 1, z);
    }
  }

  lemma {:induction false} PathIsLong(y: Positions, gaps: Gaps, w: real, n: int)
    requires |y| == |gaps| && HalfRootTwo(w)
    ensures Moves(y, gaps, w, n) as real * (MARGIN * MARGIN / 2.0) <= PathSq(y, gaps, w, n)
    ensures 0 <= n && !Done(Optimized(y, gaps, w, n), gaps, w) ==> Moves(y, gaps, w, n) == n
    decreases if n < 0 then 0 else n
  {
    if n > 0 && !Done(y, gaps, w) {
      StepIsLong(y, gaps, w);
      PathIsLong(Step(y, gaps, w), gaps, w, n - 1);
    }
  }

  /** No run, however long, moves more than 2,000,000 * |y - z|² times, for any feasible z. */
  lemma {:induction false} MovesAreBounded(y: Positions, gaps: Gaps, w: real, n: int, z: Positions)
    requires |y| == |gaps| == |z| && HalfRootTwo(w) && Feasible(z, gaps)
    ensures Moves(y, gaps, w, n) as real <= 2000000.0 * DistSq(y, z)
  {
    RunApproaches(y, gaps, w, n, z);
    PathIsLong(y, gaps, w, n);
  }

  /** The loop ends by itself: with n iterations, n + 1 > 2,000,000 * |y - z|² for one feasible z,
      it has stopped, and a larger limit changes nothing. */
  lemma {:induction false} EndsByItself(y: Positions, gaps: Gaps, w: real, n: nat, z: Positions, m: int)
    requires |y| == |gaps| == |z| && HalfRootTwo(w) && Feasible(z, gaps)
    requires (n + 1) as real > 2000000.0 * DistSq(y, z)
    requires n <= m
    ensures Done(Optimized(y, gaps, w, n), gaps, w)
    ensures Optimized(y, gaps, w, m) == Optimized(y, gaps, w, n)
  {
    if !Done(Optimized(y, gaps, w, n), gaps, w) {
      PathIsLong(y, gaps, w, n);
      OneMoreMove(y, gaps, w, n);
      MovesAreBounded(y, gaps, w, n + 1, z);
      assert false;
    }
    StoppedStays(y, gaps, w, n, m);
  }

  lemma {:induction false} OneMoreMove(y: Positions, gaps: Gaps, w: real, n: nat)
    requires |y| == |gaps| && HalfRootTwo(w) && !Done(Optimized(y, gaps, w, n), gaps, w)
    ensures Moves(y, gaps, w, n + 1) == n + 1
    decreases n
  {
    if n > 0 && !Done(y, gaps, w) {
      OneMoreMove(Step(y, gaps, w), gaps, w, n - 1);
    }
  }

  lemma {:induction false} StoppedStays(y: Positions, gaps: Gaps, w: real, n: nat, m: int)
    requires |y| == |gaps| && HalfRootTwo(w) && n <= m
    requires Done(Optimized(y, gaps, w, n), gaps, w)
    ensures Optimized(y, gaps, w, m) == Optimized(y, gaps, w, n)
    decreases n
  {
    if n > 0 && !Done(y, gaps, w) {
      StoppedStays(Step(y, gaps, w), gaps, w, n - 1, m - 1);
    }
  }

  /** For every layout there is a limit from which on the loop always ends by itself. */
  lemma LimitExists(y: Positions, gaps: Gaps, w: real) returns (limit: nat)
    requires |y| == |gaps| && HalfRootTwo(w)
    ensures forall m: int :: limit <= m ==> Done(Optimized(y, gaps, w, m), gaps, w)
  {
    var z := Stacked(gaps);
    limit := (2000000.0 * DistSq(y, z)).Floor;
    forall m: int | limit <= m
      ensures Done(Optimized(y, gaps, w, m), gaps, w)
    {
      EndsByItself(y, gaps, w, limit, z, m);
    }
  }

  /** When the loop has stopped by itself, every overlap is below sqrt(2)/1000 (sqrt(2) is 2*w). */
  lemma ConvergedOverlap(y: Positions, gaps: Gaps, w: real, i: nat)
    requires |y| == |gaps| && HalfRootTwo(w) && Done(y, gaps, w) && i < |y|
    ensures Overlap(y, gaps, i) < 2.0 * w * MARGIN
    ensures i == 0 ==> Overlap(y, gaps, 0) < MARGIN
    ensures 2.0 * w * MARGIN < 0.0015
  {
    WeightBounds(w);
    var k := Largest(y, gaps, w);
    if k < 0 {
      assert Meets(y, gaps, i);
    } else {
      if k > 0 {
        ScaledDown(Overlap(y, gaps, k), w, MARGIN);
      }
      Unweight(y, gaps, w, i);
    }
  }

  lemma WeightBounds(w: real)
    requires HalfRootTwo(w)
    ensures 0.7 < w < 0.75
  {
    assert w * w == 0.5;
    assert w * w - 0.49 == (w - 0.7) * (w + 0.7);
    assert w * w - 0.5625 == (w - 0.75) * (w + 0.75);
  }

  lemma Unweight(y: Positions, gaps: Gaps, w: real, i: nat)
    requires |y| == |gaps| && HalfRootTwo(w) && i < |y| && Weighted(y, gaps, w, i) < MARGIN
    ensures Overlap(y, gaps, i) < 2.0 * w * MARGIN
    ensures i == 0 ==> Overlap(y, gaps, 0) < MARGIN
  {
    WeightBounds(w);
    if i > 0 {
      var o := Overlap(y, gaps, i);
      calc {
        o;
        o * (2.0 * w * w);
        2.0 * w * (o * w);
      <  { ScaledStrictly(o * w, MARGIN, 2.0 * w); }
        2.0 * w * MARGIN;
      }
    }
  }
}
