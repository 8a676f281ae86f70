/** The convex problem behind the rectangle layout: positions as a vector of reals, one
    constraint per item, and the projection of a vector onto a single constraint. */
module LayoutGeometry {
  import opened Products

  type Positions = seq<real>

  /** gaps[0] is the least distance of item 0 from the top, gaps[i] the least distance of item i
      from item i-1 (the height of item i-1 plus the spacing). */
  type Gaps = seq<int>

  /** The least position that constraint i allows for item i. */
  function MinY(y: Positions, gaps: Gaps, i: nat): real
    requires |y| == |gaps| && i < |y|
  {
    if i == 0 then gaps[0] as real else y[i - 1] + gaps[i] as real
  }

  ghost predicate Meets(y: Positions, gaps: Gaps, i: nat)
    requires |y| == |gaps| && i < |y|
  {
    MinY(y, gaps, i) <= y[i]
  }

  ghost predicate Feasible(y: Positions, gaps: Gaps)
    requires |y| == |gaps|
  {
    forall i: nat :: i < |y| ==> Meets(y, gaps, i)
  }

  function Overlap(y: Positions, gaps: Gaps, i: nat): real
    requires |y| == |gaps| && i < |y|
  {
    if y[i] < MinY(y, gaps, i) then MinY(y, gaps, i) - y[i] else 0.0
  }

  /** w stands for sqrt(2)/2. */
  ghost predicate HalfRootTwo(w: real) {
    0.0 < w && 2.0 * w * w == 1.0
  }

  function Weighted(y: Positions, gaps: Gaps, w: real, i: nat): (o: real)
    requires |y| == |gaps| && i < |y|
    ensures HalfRootTwo(w) ==> if Meets(y, gaps, i) then o == 0.0 else 0.0 < o
  {
    if i == 0 then Overlap(y, gaps, 0) else Overlap(y, gaps, i) * w
  }

  /** k is the first index of the largest weighted overlap among the first n; -1 if there is none. */
  ghost predicate IsLargest(y: Positions, gaps: Gaps, w: real, n: nat, k: int)
    requires |y| == |gaps| && n <= |y|
  {
    && -1 <= k < n
    && (k < 0 ==> forall j: nat :: j < n ==> Meets(y, gaps, j))
    && (0 <= k ==>
          && !Meets(y, gaps, k)
          && (forall j: nat :: j < n ==> Weighted(y, gaps, w, j) <= Weighted(y, gaps, w, k))
          && (forall j: nat :: j < k ==> Weighted(y, gaps, w, j) < Weighted(y, gaps, w, k)))
  }

  function LargestAmong(y: Positions, gaps: Gaps, w: real, n: nat): (k: int)
    requires |y| == |gaps| && n <= |y| && HalfRootTwo(w)
    ensures IsLargest(y, gaps, w, n, k)
  {
    if n == 0 then -1 else
      var k := LargestAmong(y, gaps, w, n - 1);
      LargestExtends(y, gaps, w, n - 1, k);
      if Weighted(y, gaps, w, n - 1) > (if k < 0 then 0.0 else Weighted(y, gaps, w, k)) then n - 1 else k
  }

  /** The running maximum takes a later index only if its weighted overlap is larger. */
  lemma LargestExtends(y: Positions, gaps: Gaps, w: real, n: nat, k: int)
    requires |y| == |gaps| && n < |y| && HalfRootTwo(w) && IsLargest(y, gaps, w, n, k)
    ensures var o := if k < 0 then 0.0 else Weighted(y, gaps, w, k);
            IsLargest(y, gaps, w, n + 1, if Weighted(y, gaps, w, n) > o then n else k)
  {
  }

  function Largest(y: Positions, gaps: Gaps, w: real): (k: int)
    requires |y| == |gaps| && HalfRootTwo(w)
    ensures IsLargest(y, gaps, w, |y|, k)
  {
    LargestAmong(y, gaps, w, |y|)
  }

  lemma LargestIsUnique(y: Positions, gaps: Gaps, w: real, n: nat, k: int, l: int)
    requires |y| == |gaps| && n <= |y|
    requires IsLargest(y, gaps, w, n, k) && IsLargest(y, gaps, w, n, l)
    ensures k == l
  {
    if 0 <= k && 0 <= l {
      assert Weighted(y, gaps, w, k) == Weighted(y, gaps, w, l);
    }
  }

  // ----- distances

  /** The squared Euclidean distance. */
  function DistSq(y: Positions, z: Positions): (d: real)
    requires |y| == |z|
    ensures 0.0 <= d
  {
    if y == [] then 0.0 else Sq(y[0] - z[0]) + DistSq(y[1..], z[1..])
  }

  lemma {:induction false} DistSqSymmetric(y: Positions, z: Positions)
    requires |y| == |z|
    ensures DistSq(y, z) == DistSq(z, y)
  {
    if y != [] {
      DistSqSymmetric(y[1..], z[1..]);
      assert (y[0] - z[0]) * (y[0] - z[0]) == (z[0] - y[0]) * (z[0] - y[0]);
    }
  }

  lemma {:induction false} DistSqSelf(y: Positions)
    ensures DistSq(y, y) == 0.0
  {
    if y != [] {
      DistSqSelf(y[1..]);
    }
  }

  /** Moving one coordinate changes the squared distance by that coordinate's share alone. */
  lemma {:induction false} DistSqUpdate(y: Positions, z: Positions, i: nat, v: real)
    requires |y| == |z| && i < |y|
    ensures DistSq(y[i := v], z) == DistSq(y, z) - Sq(y[i] - z[i]) + Sq(v - z[i])
  {
    if i == 0 {
      assert y[i := v][1..] == y[1..];
    } else {
      DistSqUpdate(y[1..], z[1..], i - 1, v);
      assert y[i := v][1..] == y[1..][i - 1 := v];
    }
  }

  // ----- projection

  /** Moves y onto the boundary of the violated constraint i: item 0 moves alone, any other item
      shares the move with its predecessor. */
  function Project(y: Positions, gaps: Gaps, i: nat): (r: Positions)
    requires |y| == |gaps| && i < |y|
    ensures |r| == |y|
  {
    var o := Overlap(y, gaps, i);
    if i == 0 then y[0 := y[0] + o] else y[i := y[i] + o / 2.0][i - 1 := y[i - 1] - o / 2.0]
  }

  lemma DistSqTwoUpdates(y: Positions, z: Positions, i: nat, v: real, u: real)
    requires |y| == |z| && 0 < i < |y|
    ensures DistSq(y[i := v][i - 1 := u], z) ==
            DistSq(y, z) - Sq(y[i] - z[i]) + Sq(v - z[i]) - Sq(y[i - 1] - z[i - 1]) + Sq(u - z[i - 1])
  {
    hide Sq, DistSq;
    var y1 := y[i := v];
    DistSqUpdate(y, z, i, v);
    DistSqUpdate(y1, z, i - 1, u);
    assert y1[i - 1] == y[i - 1];
  }

  lemma ProjectFirst(y: Positions, gaps: Gaps, z: Positions)
    requires |y| == |gaps| == |z| && 0 < |y|
    ensures DistSq(Project(y, gaps, 0), z) ==
            DistSq(y, z) - Sq(y[0] - z[0]) + Sq(y[0] - z[0] + Overlap(y, gaps, 0))
  {
    var o := Overlap(y, gaps, 0);
    var a := y[0] - z[0];
    assert y[0] + o - z[0] == a + o;
    DistSqUpdate(y, z, 0, y[0] + o);
  }

  lemma {:induction false} ProjectShared(y: Positions, gaps: Gaps, z: Positions, i: nat, h: real)
    requires |y| == |gaps| == |z| && 0 < i < |y|
    requires h == Overlap(y, gaps, i) / 2.0
    ensures DistSq(Project(y, gaps, i), z) ==
            DistSq(y, z) - Sq(y[i] - z[i]) + Sq(y[i] - z[i] + h)
                         - Sq(y[i - 1] - z[i - 1]) + Sq(y[i - 1] - z[i - 1] - h)
  {
    hide *;
    SharedProject(y, gaps, i, h);
    DistSqTwoUpdates(y, z, i, y[i] + h, y[i - 1] - h);
    assert y[i - 1] - h == y[i - 1] + -h;
  }

  lemma SharedProject(y: Positions, gaps: Gaps, i: nat, h: real)
    requires |y| == |gaps| && 0 < i < |y| && h == Overlap(y, gaps, i) / 2.0
    ensures Project(y, gaps, i) == y[i := y[i] + h][i - 1 := y[i - 1] - h]
  {
    hide Overlap;
  }

  /** How far y lags behind any z that meets the constraint. */
  lemma OverlapIsLag(y: Positions, gaps: Gaps, i: nat, z: Positions)
    requires |y| == |gaps| == |z| && i < |y| && Meets(z, gaps, i)
    ensures var o := Overlap(y, gaps, i);
            0.0 <= o && (0.0 < o ==> y[i] - z[i] - (if i == 0 then 0.0 else y[i - 1] - z[i - 1]) <= -o)
  {
  }

  lemma ProjectionMeets(y: Positions, gaps: Gaps, i: nat)
    requires |y| == |gaps| && i < |y|
    ensures Meets(Project(y, gaps, i), gaps, i)
  {
  }

  /** The squared length of a step: o² at item 0, o²/2 elsewhere. */
  lemma {:induction false} ProjectionLength(y: Positions, gaps: Gaps, i: nat)
    requires |y| == |gaps| && i < |y|
    ensures DistSq(y, Project(y, gaps, i)) ==
            if i == 0 then Sq(Overlap(y, gaps, 0)) else Sq(Overlap(y, gaps, i)) / 2.0
  {
    hide *;
    var o := Overlap(y, gaps, i);
    DistSqSelf(y);
    DistSqSymmetric(y, Project(y, gaps, i));
    HalfSquares(o);
    if i > 0 {
      ProjectShared(y, gaps, y, i, o / 2.0);
    } else {
      ProjectFirst(y, gaps, y);
    }
  }

  lemma SquaredWeight(y: Positions, gaps: Gaps, w: real, i: nat)
    requires |y| == |gaps| && i < |y| && HalfRootTwo(w)
    ensures Sq(Weighted(y, gaps, w, i)) ==
            if i == 0 then Sq(Overlap(y, gaps, 0)) else Sq(Overlap(y, gaps, i)) / 2.0
  {
    if i > 0 {
      SquareOfProduct(Overlap(y, gaps, i), w);
    }
  }

  /** The step is an orthogonal projection: it brings y closer to every z that meets the projected
      constraint, by at least the squared length of the step. */
  lemma {:induction false} ProjectionApproaches(y: Positions, gaps: Gaps, i: nat, z: Positions)
    requires |y| == |gaps| == |z| && i < |y|
    requires Meets(z, gaps, i)
    ensures DistSq(Project(y, gaps, i), z) + DistSq(y, Project(y, gaps, i)) <= DistSq(y, z)
  {
    hide *;
    var o := Overlap(y, gaps, i);
    ProjectionLength(y, gaps, i);
    OverlapIsLag(y, gaps, i, z);
    if i == 0 {
      ProjectFirst(y, gaps, z);
      SingleMove(y[0] - z[0], o);
    } else {
      var a, b := y[i] - z[i], y[i - 1] - z[i - 1];
      ProjectShared(y, gaps, z, i, o / 2.0);
      SharedMove(a, b, o);
    }
  }

  lemma SingleMove(a: real, o: real)
    requires 0.0 <= o && (o > 0.0 ==> a <= -o)
    ensures Sq(a + o) + Sq(o) <= Sq(a)
  {
    assert Sq(a) - Sq(a + o) - Sq(o) == 2.0 * (o * (-a - o));
  }

  lemma SharedMove(a: real, b: real, o: real)
    requires 0.0 <= o && (o > 0.0 ==> a - b <= -o)
    ensures Sq(a + o / 2.0) + Sq(b - o / 2.0) + Sq(o) / 2.0 <= Sq(a) + Sq(b)
  {
    var h := o / 2.0;
    assert Sq(a + h) == Sq(a) + 2.0 * (a * h) + h * h;
    assert Sq(b - h) == Sq(b) - 2.0 * (b * h) + h * h;
    assert Sq(o) / 2.0 == 2.0 * (h * h);
    assert 2.0 * (h * (b - a - o)) == 2.0 * (b * h) - 2.0 * (a * h) - 4.0 * (h * h);
    if o > 0.0 {
      NonNegativeProduct(h, b - a - o);
    }
  }

  /** The weighted overlap is the distance to the constraint: no vector that meets constraint i is
      closer to y, and the projection, which meets it, is exactly that close. */
  lemma WeightedOverlapIsDistance(y: Positions, gaps: Gaps, w: real, i: nat, z: Positions)
    requires |y| == |gaps| == |z| && i < |y| && HalfRootTwo(w)
    ensures Meets(z, gaps, i) ==> Sq(Weighted(y, gaps, w, i)) <= DistSq(y, z)
    ensures Meets(Project(y, gaps, i), gaps, i)
    ensures DistSq(y, Project(y, gaps, i)) == Sq(Weighted(y, gaps, w, i))
  {
    hide Sq, DistSq, Overlap, Weighted, Project;
    ProjectionMeets(y, gaps, i);
    ProjectionLength(y, gaps, i);
    SquaredWeight(y, gaps, w, i);
    if Meets(z, gaps, i) {
      ProjectionApproaches(y, gaps, i, z);
    }
  }

  // ----- a feasible vector always exists

  function Stacked(gaps: Gaps): (z: Positions)
    ensures |z| == |gaps|
    ensures Feasible(z, gaps)
  {
    if gaps == [] then [] else
      var last := |gaps| - 1;
      var above := Stacked(gaps[..last]);
      var z := above + [(if last == 0 then 0.0 else above[last - 1]) + gaps[last] as real];
      assert forall i: nat :: i < last ==> Meets(above, gaps[..last], i) ==> Meets(z, gaps, i);
      z
  }
}
