/** Rounding to integer positions and the final sweep that moves overlapping items down. */
module LayoutPlacement {
  import opened LayoutGeometry
  import opened Reals

  /** Rounds to the nearest integer, halves upwards. */
  function Round(x: real): real {
    (x + 0.5).Floor as real
  }

  function Rounded(y: Positions): (r: Positions)
    ensures |r| == |y|
    ensures forall i :: 0 <= i < |y| ==> r[i] == Round(y[i])
  {
    seq(|y|, i requires 0 <= i < |y| => Round(y[i]))
  }

  ghost predicate Integral(y: Positions) {
    forall i :: 0 <= i < |y| ==> y[i] == y[i].Floor as real
  }

  /** The least position the sweep accepts for item |placed|, given the items placed so far. */
  function SweepMinY(placed: Positions, gaps: Gaps): int
    requires |placed| < |gaps|
  {
    if placed == [] then gaps[0] else Truncate(placed[|placed| - 1] + gaps[|placed|] as real)
  }

  /** The first n positions after the sweep. */
  function Swept(y: Positions, gaps: Gaps, n: nat): (r: Positions)
    requires |y| == |gaps| && n <= |y|
    ensures |r| == n
  {
    if n == 0 then [] else
      var placed := Swept(y, gaps, n - 1);
      var minY := SweepMinY(placed, gaps) as real;
      placed + [if y[n - 1] < minY then minY else y[n - 1]]
  }

  function Forced(y: Positions, gaps: Gaps): (r: Positions)
    requires |y| == |gaps|
    ensures |r| == |y|
  {
    Swept(y, gaps, |y|)
  }

  lemma {:induction false} SweptPrefix(y: Positions, gaps: Gaps, n: nat, i: nat)
    requires |y| == |gaps| && i < n <= |y|
    ensures Swept(y, gaps, n)[i] == Swept(y, gaps, i + 1)[i]
  {
    if i + 1 < n {
      SweptPrefix(y, gaps, n - 1, i);
    }
  }

  /** On integer positions item i ends at the larger of its position and the constraint's bound. */
  lemma {:induction false} ForcedAt(y: Positions, gaps: Gaps, i: nat)
    requires |y| == |gaps| && Integral(y) && i < |y|
    ensures var r := Forced(y, gaps);
            && r[i] == (if y[i] < MinY(r, gaps, i) then MinY(r, gaps, i) else y[i])
            && r[i] == r[i].Floor as real
  {
    SweptPrefix(y, gaps, |y|, i);
    if i > 0 {
      ForcedAt(y, gaps, i - 1);
      SweptPrefix(y, gaps, |y|, i - 1);
      TruncateInteger(Forced(y, gaps)[i - 1].Floor + gaps[i]);
    }
  }

  /** The result of the sweep is feasible, integral, and not above (before) the input. */
  lemma ForcedIsFeasible(y: Positions, gaps: Gaps)
    requires |y| == |gaps| && Integral(y)
    ensures Feasible(Forced(y, gaps), gaps) && Integral(Forced(y, gaps))
    ensures forall i :: 0 <= i < |y| ==> y[i] <= Forced(y, gaps)[i]
  {
    forall i: nat | i < |y|
      ensures Meets(Forced(y, gaps), gaps, i) && y[i] <= Forced(y, gaps)[i]
      ensures Forced(y, gaps)[i] == Forced(y, gaps)[i].Floor as real
    {
      ForcedAt(y, gaps, i);
    }
  }

  /** ... and it is the least such vector: every feasible z at or below y is at or below it. */
  lemma {:induction false} ForcedIsLeast(y: Positions, gaps: Gaps, z: Positions, i: nat)
    requires |y| == |gaps| == |z| && Integral(y) && Feasible(z, gaps) && i < |y|
    requires forall j :: 0 <= j < |y| ==> y[j] <= z[j]
    ensures Forced(y, gaps)[i] <= z[i]
  {
    ForcedAt(y, gaps, i);
    assert Meets(z, gaps, i);
    if i > 0 {
      ForcedIsLeast(y, gaps, z, i - 1);
    }
  }

  /** A feasible vector is left alone, and only a feasible one is. */
  lemma ForcedFixpoint(y: Positions, gaps: Gaps)
    requires |y| == |gaps| && Integral(y)
    ensures Forced(y, gaps) == y <==> Feasible(y, gaps)
  {
    ForcedIsFeasible(y, gaps);
    if Feasible(y, gaps) {
      forall i | 0 <= i < |y|
        ensures Forced(y, gaps)[i] == y[i]
      {
        ForcedIsLeast(y, gaps, y, i);
      }
    }
  }

  lemma RoundedIsIntegral(y: Positions)
    ensures Integral(Rounded(y))
  {
  }

  /** Rounding is monotone and commutes with integer shifts. */
  lemma RoundShift(a: real, k: int, b: real)
    requires a + k as real <= b
    ensures Round(a) + k as real <= Round(b)
  {
    var f := (a + 0.5).Floor;
    assert (f + k) as real <= b + 0.5;
    assert f + k <= (b + 0.5).Floor;
  }

  /** The nearest integer, and of two equally near ones the larger: no other one is as described. */
  lemma RoundIsNearest(x: real, k: int)
    ensures Round(x) == k as real <==> x - 0.5 < k as real <= x + 0.5
    ensures Round(x) == Round(x).Floor as real && x - 0.5 < Round(x) <= x + 0.5
  {
    var f := (x + 0.5).Floor;
    assert f as real <= x + 0.5 < (f + 1) as real;
    if x - 0.5 < k as real <= x + 0.5 {
      assert f < k + 1 && k < f + 1;
    }
  }

  lemma RoundInteger(k: int)
    ensures Round(k as real) == k as real
  {
    assert k as real <= k as real + 0.5 < (k + 1) as real;
    assert (k as real + 0.5).Floor == k;
  }

  /** Rounding keeps constraints with integer gaps. */
  lemma RoundedKeepsFeasible(y: Positions, gaps: Gaps)
    requires |y| == |gaps| && Feasible(y, gaps)
    ensures Feasible(Rounded(y), gaps)
  {
    forall i: nat | i < |y|
      ensures Meets(Rounded(y), gaps, i)
    {
      assert Meets(y, gaps, i);
      RoundShift(if i == 0 then 0.0 else y[i - 1], gaps[i], y[i]);
      RoundInteger(0);
    }
  }

  lemma IntegralIsRounded(y: Positions)
    requires Integral(y)
    ensures Rounded(y) == y
  {
    forall i | 0 <= i < |y|
      ensures Round(y[i]) == y[i]
    {
      RoundInteger(y[i].Floor);
    }
  }

  lemma RoundAbove(x: real, k: int)
    requires k as real - 0.5 < x
    ensures k as real <= Round(x)
  {
    var f := (x + 0.5).Floor;
    assert x + 0.5 < (f + 1) as real;
    assert k < f + 1;
  }

  /** Positions with overlaps below 1/2 at item 0 and below 1 elsewhere: after rounding, item 0
      has no overlap and every other item one of at most 1. */
  lemma RoundedOverlap(y: Positions, gaps: Gaps, i: nat)
    requires |y| == |gaps| && i < |y|
    requires Overlap(y, gaps, i) < if i == 0 then 0.5 else 1.0
    ensures Overlap(Rounded(y), gaps, i) <= if i == 0 then 0.0 else 1.0
  {
    if i == 0 {
      assert y[0] > gaps[0] as real - 0.5;
      RoundAbove(y[0], gaps[0]);
    } else {
      assert y[i - 1] + (gaps[i] - 1) as real <= y[i];
      RoundShift(y[i - 1], gaps[i] - 1, y[i]);
    }
  }

  /** With overlaps of at most 1, and none at item 0, the sweep moves item i by at most i. */
  lemma {:induction false} ForcedDisplacement(y: Positions, gaps: Gaps, i: nat)
    requires |y| == |gaps| && Integral(y) && i < |y|
    requires Overlap(y, gaps, 0) == 0.0
    requires forall j: nat :: 0 < j < |y| ==> Overlap(y, gaps, j) <= 1.0
    ensures y[i] <= Forced(y, gaps)[i] <= y[i] + i as real
  {
    ForcedAt(y, gaps, i);
    if i > 0 {
      ForcedDisplacement(y, gaps, i - 1);
      assert Overlap(y, gaps, i) <= 1.0;
    }
  }
}
