/** The layout object: items added with a target position and a height are sorted, optimised,
    rounded and finally forced to meet all constraints. */
module RectangleLayout {
  import opened LayoutGeometry
  import opened LayoutConvergence
  import opened LayoutPlacement
  import opened Reals
  import opened Sequences

  datatype Item = Item(originalIndex: int, y: real, h: int)

  // ----- items as vectors

  function Ys(items: seq<Item>): (y: Positions)
    ensures |y| == |items|
    ensures forall i :: 0 <= i < |y| ==> y[i] == items[i].y
  {
    seq(|items|, i requires 0 <= i < |items| => items[i].y)
  }

  function ItemGaps(items: seq<Item>, spacing: int): (gaps: Gaps)
    ensures |gaps| == |items|
    ensures forall i :: 0 < i < |gaps| ==> gaps[i] == items[i - 1].h + spacing
    ensures gaps != [] ==> gaps[0] == spacing
  {
    seq(|items|, i requires 0 <= i < |items| => if i == 0 then spacing else items[i - 1].h + spacing)
  }

  function WithYs(items: seq<Item>, y: Positions): (r: seq<Item>)
    requires |y| == |items|
    ensures |r| == |items|
    ensures forall i :: 0 <= i < |r| ==> r[i] == items[i].(y := y[i])
  {
    seq(|items|, i requires 0 <= i < |items| => items[i].(y := y[i]))
  }

  lemma WithYsVectors(items: seq<Item>, y: Positions, spacing: int)
    requires |y| == |items|
    ensures Ys(WithYs(items, y)) == y
    ensures ItemGaps(WithYs(items, y), spacing) == ItemGaps(items, spacing)
    ensures WithYs(items, Ys(items)) == items
  {
  }

  lemma WithYsTwice(items: seq<Item>, y: Positions, z: Positions)
    requires |y| == |z| == |items|
    ensures WithYs(WithYs(items, y), z) == WithYs(items, z)
  {
  }

  /** Updating one item, or two neighbours, is projecting the vector of positions. */
  lemma ProjectItems(items: seq<Item>, spacing: int, i: nat)
    requires i < |items|
    ensures var y, gaps := Ys(items), ItemGaps(items, spacing);
            var o := Overlap(y, gaps, i);
            WithYs(items, Project(y, gaps, i)) ==
            if i == 0 then items[0 := items[0].(y := items[0].y + o)]
            else items[i := items[i].(y := items[i].y + o / 2.0)]
                      [i - 1 := items[i - 1].(y := items[i - 1].y - o / 2.0)]
  {
    hide Overlap;
  }

  lemma SweepStart(y: Positions, gaps: Gaps) returns (placed: Positions)
    requires |y| == |gaps|
    ensures placed == [] == Swept(y, gaps, 0)
    ensures gaps != [] ==> SweepMinY(placed, gaps) == gaps[0]
  {
    placed := [];
  }

  lemma SweepNext(y: Positions, gaps: Gaps, i: nat)
    requires |y| == |gaps| && i < |y|
    ensures var placed := Swept(y, gaps, i);
            var minY := SweepMinY(placed, gaps) as real;
            Swept(y, gaps, i + 1) == placed + [if y[i] < minY then minY else y[i]]
  {
    hide SweepMinY;
  }

  lemma SweepAdvance(placed: Positions, gaps: Gaps, item: Item, spacing: int)
    requires placed != [] && placed[|placed| - 1] == item.y
    requires |placed| < |gaps| ==> gaps[|placed|] == item.h + spacing
    ensures |placed| < |gaps| ==>
              SweepMinY(placed, gaps) == Truncate(item.y + item.h as real + spacing as real)
  {
    hide Truncate;
    if |placed| < |gaps| {
      assert item.y + gaps[|placed|] as real == item.y + item.h as real + spacing as real;
    }
  }

  // ----- sorting

  predicate Sorted(items: seq<Item>) {
    forall i, j :: 0 <= i < j < |items| ==> items[i].y <= items[j].y
  }

  /** What std::sort guarantees; it is not stable, so this may leave a choice. */
  predicate SortedPermutation(s: seq<Item>, items: seq<Item>) {
    Sorted(s) && multiset(s) == multiset(items)
  }

  lemma {:induction false} SortedPermutationExists(items: seq<Item>) returns (s: seq<Item>)
    ensures SortedPermutation(s, items)
  {
    if items == [] {
      return [];
    }
    var t := SortedPermutationExists(items[1..]);
    var k := InsertionPoint(t, items[0].y);
    s := t[..k] + [items[0]] + t[k..];
    InsertedIsSorted(t, k, items[0]);
    assert items == [items[0]] + items[1..];
    assert t == t[..k] + t[k..];
    hide Sorted;
  }

  lemma InsertedIsSorted(t: seq<Item>, k: nat, item: Item)
    requires Sorted(t) && k <= |t|
    requires forall i :: 0 <= i < k ==> t[i].y <= item.y
    requires forall i :: k <= i < |t| ==> item.y < t[i].y
    ensures Sorted(t[..k] + [item] + t[k..])
  {
    var s := t[..k] + [item] + t[k..];
    assert forall i :: 0 <= i < |s| ==> s[i] == if i < k then t[i] else if i == k then item else t[i - 1];
  }

  lemma {:induction false} InsertionPoint(t: seq<Item>, y: real) returns (k: nat)
    requires Sorted(t)
    ensures k <= |t|
    ensures forall i :: 0 <= i < k ==> t[i].y <= y
    ensures forall i :: k <= i < |t| ==> y < t[i].y
  {
    if t == [] || t[|t| - 1].y <= y {
      return |t|;
    }
    k := InsertionPoint(t[..|t| - 1], y);
  }

  function Tags(items: seq<Item>): (r: seq<(int, int)>)
    ensures |r| == |items|
    ensures forall i :: 0 <= i < |r| ==> r[i] == (items[i].originalIndex, items[i].h)
  {
    seq(|items|, i requires 0 <= i < |items| => (items[i].originalIndex, items[i].h))
  }

  function Indices(items: seq<Item>): (r: seq<int>)
    ensures |r| == |items|
    ensures forall i :: 0 <= i < |r| ==> r[i] == items[i].originalIndex
  {
    seq(|items|, i requires 0 <= i < |items| => items[i].originalIndex)
  }

  /** Finds the first element of a in b. */
  lemma Without<T>(a: seq<T>, b: seq<T>) returns (k: nat)
    requires a != [] && multiset(a) == multiset(b)
    ensures k < |b| && b[k] == a[0]
    ensures multiset(a[1..]) == multiset(b[..k] + b[k + 1..])
  {
    assert a[0] in multiset(b);
    k :| k < |b| && b[k] == a[0];
    assert a == [a[0]] + a[1..];
    assert b == b[..k] + [b[k]] + b[k + 1..];
    assert multiset(a[1..]) == multiset(a) - multiset{a[0]};
    assert multiset(b[..k] + b[k + 1..]) == multiset(b) - multiset{a[0]};
  }

  function Images<T, U>(a: seq<T>, f: T -> U): (r: seq<U>)
    ensures |r| == |a|
    ensures forall i :: 0 <= i < |r| ==> r[i] == f(a[i])
  {
    seq(|a|, i requires 0 <= i < |a| => f(a[i]))
  }

  lemma {:induction false} PermutationOfImages<T, U>(a: seq<T>, b: seq<T>, f: T -> U)
    requires multiset(a) == multiset(b)
    ensures multiset(Images(a, f)) == multiset(Images(b, f))
    decreases |a|
  {
    if a == [] {
      assert b == [];
    } else {
      var k := Without(a, b);
      PermutationOfImages(a[1..], b[..k] + b[k + 1..], f);
      assert Images(a, f) == [f(a[0])] + Images(a[1..], f);
      assert Images(b, f) == Images(b[..k], f) + [f(b[k])] + Images(b[k + 1..], f);
      assert Images(b[..k] + b[k + 1..], f) == Images(b[..k], f) + Images(b[k + 1..], f);
    }
  }

  lemma PermutationKeepsTags(a: seq<Item>, b: seq<Item>)
    requires multiset(a) == multiset(b)
    ensures multiset(Tags(a)) == multiset(Tags(b))
    ensures multiset(Indices(a)) == multiset(Indices(b))
  {
    var tag := (item: Item) => (item.originalIndex, item.h);
    var index := (item: Item) => item.originalIndex;
    PermutationOfImages(a, b, tag);
    PermutationOfImages(a, b, index);
    assert Tags(a) == Images(a, tag) && Tags(b) == Images(b, tag);
    assert Indices(a) == Images(a, index) && Indices(b) == Images(b, index);
  }

  ghost predicate StrictlySorted(items: seq<Item>) {
    forall i, j :: 0 <= i < j < |items| ==> items[i].y < items[j].y
  }

  /** Without equal positions the sort has no choice. */
  lemma {:induction false} StrictlySortedIsUnique(s: seq<Item>, t: seq<Item>)
    requires SortedPermutation(s, t) && StrictlySorted(t)
    ensures s == t
    decreases |s|
  {
    if s == [] {
      assert t == [];
    } else {
      var k := Without(s, t);
      var l := Without(t, s);
      assert k == 0;
      assert t[..0] + t[1..] == t[1..];
      StrictlySortedIsUnique(s[1..], t[1..]);
    }
  }

  /** Each of the indices 0, 1, ... occurs once. */
  ghost predicate Indexed(items: seq<Item>) {
    multiset(Indices(items)) == multiset(UpTo(|items|))
  }

  lemma IndicesAreDistinct(items: seq<Item>, a: nat, b: nat)
    requires Indexed(items) && a < |items| && b < |items|
    requires items[a].originalIndex == items[b].originalIndex
    ensures a == b
  {
    var tags := Indices(items);
    assert tags[a] in multiset(UpTo(|items|));
    AtMostOnce(|items|, tags[a]);
    if a < b {
      OccursTwice(tags, a, b);
    } else if b < a {
      OccursTwice(tags, b, a);
    }
  }

  lemma OccursTwice(s: seq<int>, a: nat, b: nat)
    requires a < b < |s| && s[a] == s[b]
    ensures multiset(s)[s[a]] >= 2
  {
    assert s == s[..a] + [s[a]] + s[a + 1..b] + [s[b]] + s[b + 1..];
  }

  lemma {:induction false} AtMostOnce(n: nat, v: int)
    ensures multiset(UpTo(n))[v] <= 1
  {
    if n > 0 {
      AtMostOnce(n - 1, v);
      assert UpTo(n) == UpTo(n - 1) + [n - 1];
      assert v == n - 1 ==> v !in UpTo(n - 1);
    }
  }

  /** An item whose target is above that of another one, known by their indices, comes before it. */
  ghost predicate KeepsTargets(before: seq<Item>, after: seq<Item>) {
    forall a: nat, b: nat, i: nat, j: nat ::
      && a < |before| && b < |before| && i < |after| && j < |after|
      && after[i].originalIndex == before[a].originalIndex
      && after[j].originalIndex == before[b].originalIndex
      && before[a].y < before[b].y
      ==> i < j
  }

  lemma SortKeepsTargets(s: seq<Item>, items: seq<Item>, a: nat, b: nat, i: nat, j: nat)
    requires SortedPermutation(s, items) && Indexed(items)
    requires a < |items| && b < |items| && i < |s| && j < |s|
    requires s[i].originalIndex == items[a].originalIndex && s[j].originalIndex == items[b].originalIndex
    requires items[a].y < items[b].y
    ensures i < j
  {
    SameItem(s, items, i, a);
    SameItem(s, items, j, b);
  }

  lemma SameItem(s: seq<Item>, items: seq<Item>, i: nat, a: nat)
    requires multiset(s) == multiset(items) && Indexed(items) && i < |s| && a < |items|
    requires s[i].originalIndex == items[a].originalIndex
    ensures s[i] == items[a]
  {
    assert s[i] in multiset(items);
    var c :| 0 <= c < |items| && items[c] == s[i];
    IndicesAreDistinct(items, a, c);
  }

  // ----- the layout of sorted items

  function FinalYs(y: Positions, gaps: Gaps, w: real, maxIterations: int): (r: Positions)
    requires |y| == |gaps| && HalfRootTwo(w)
    ensures |r| == |y|
  {
    Forced(Rounded(Optimized(y, gaps, w, maxIterations)), gaps)
  }

  function Laid(s: seq<Item>, spacing: int, w: real, maxIterations: int): (r: seq<Item>)
    requires HalfRootTwo(w)
    ensures |r| == |s|
  {
    WithYs(s, FinalYs(Ys(s), ItemGaps(s, spacing), w, maxIterations))
  }

  lemma LaidVectors(s: seq<Item>, spacing: int, w: real, maxIterations: int)
    requires HalfRootTwo(w)
    ensures var r := Laid(s, spacing, w, maxIterations);
            && ItemGaps(r, spacing) == ItemGaps(s, spacing)
            && Ys(r) == FinalYs(Ys(s), ItemGaps(s, spacing), w, maxIterations)
            && Feasible(Ys(r), ItemGaps(r, spacing)) && Integral(Ys(r))
            && Tags(r) == Tags(s) && Indices(r) == Indices(s)
  {
    var gaps := ItemGaps(s, spacing);
    RoundedIsIntegral(Optimized(Ys(s), gaps, w, maxIterations));
    ForcedIsFeasible(Rounded(Optimized(Ys(s), gaps, w, maxIterations)), gaps);
    WithYsVectors(s, FinalYs(Ys(s), gaps, w, maxIterations), spacing);
  }

  /** The result meets every constraint of the problem statement, at integer positions, and the
      items are those that were added. */
  lemma LaidIsFeasible(s: seq<Item>, items: seq<Item>, spacing: int, w: real, maxIterations: int)
    requires HalfRootTwo(w) && SortedPermutation(s, items)
    ensures var r := Laid(s, spacing, w, maxIterations);
            && Integral(Ys(r))
            && (r != [] ==> spacing as real <= r[0].y)
            && (forall i :: 0 < i < |r| ==> r[i - 1].y + (r[i - 1].h + spacing) as real <= r[i].y)
            && multiset(Tags(r)) == multiset(Tags(items))
            && multiset(Indices(r)) == multiset(Indices(items))
  {
    LaidVectors(s, spacing, w, maxIterations);
    PermutationKeepsTags(s, items);
    var r := Laid(s, spacing, w, maxIterations);
    var y, gaps := Ys(r), ItemGaps(r, spacing);
    assert r != [] ==> Meets(y, gaps, 0);
    forall i | 0 < i < |r|
      ensures r[i - 1].y + (r[i - 1].h + spacing) as real <= r[i].y
    {
      assert Meets(y, gaps, i);
    }
  }

  /** The order of the targets is the order of the results. */
  lemma TargetsKept(s: seq<Item>, before: seq<Item>, after: seq<Item>, spacing: int, w: real, maxIterations: int)
    requires HalfRootTwo(w) && SortedPermutation(s, before) && Indexed(before)
    requires after == Laid(s, spacing, w, maxIterations)
    ensures KeepsTargets(before, after)
  {
    LaidVectors(s, spacing, w, maxIterations);
    hide Laid, SortedPermutation, Indexed;
    forall a: nat, b: nat, i: nat, j: nat |
      a < |before| && b < |before| && i < |after| && j < |after|
      && after[i].originalIndex == before[a].originalIndex
      && after[j].originalIndex == before[b].originalIndex
      && before[a].y < before[b].y
      ensures i < j
    {
      assert Indices(after)[i] == Indices(s)[i] && Indices(after)[j] == Indices(s)[j];
      SortKeepsTargets(s, before, a, b, i, j);
    }
  }

  /** With non-negative heights and spacing no two items overlap, however far apart in the list. */
  lemma LaidIsDisjoint(s: seq<Item>, spacing: int, w: real, maxIterations: int, i: nat, j: nat)
    requires HalfRootTwo(w) && Sorted(s)
    requires 0 <= spacing && forall item :: item in s ==> 0 <= item.h
    requires i < j < |s|
    ensures var r := Laid(s, spacing, w, maxIterations);
            0.0 <= r[i].y && r[i].y + (r[i].h + spacing) as real <= r[j].y
    decreases j
  {
    LaidIsFeasible(s, s, spacing, w, maxIterations);
    var r := Laid(s, spacing, w, maxIterations);
    assert s[j - 1] in s && s[i] in s;
    if i < j - 1 {
      LaidIsDisjoint(s, spacing, w, maxIterations, i, j - 1);
    } else if 0 < i {
      assert s[i - 1] in s;
      LaidIsDisjoint(s, spacing, w, maxIterations, i - 1, i);
    }
  }

  /** Where the loop stopped by itself, rounding and the sweep move sorted item i up by less
      than 1/2 and down by at most i + 1/2. */
  lemma ConvergedDisplacement(s: seq<Item>, spacing: int, w: real, maxIterations: int, i: nat)
    requires HalfRootTwo(w) && i < |s|
    requires Done(Optimized(Ys(s), ItemGaps(s, spacing), w, maxIterations), ItemGaps(s, spacing), w)
    ensures var x := Optimized(Ys(s), ItemGaps(s, spacing), w, maxIterations)[i];
            x - 0.5 < Laid(s, spacing, w, maxIterations)[i].y <= x + 0.5 + i as real
  {
    var gaps := ItemGaps(s, spacing);
    var x := Optimized(Ys(s), gaps, w, maxIterations);
    forall j: nat | j < |s|
      ensures Overlap(Rounded(x), gaps, j) <= if j == 0 then 0.0 else 1.0
    {
      ConvergedOverlap(x, gaps, w, j);
      RoundedOverlap(x, gaps, j);
    }
    assert Overlap(Rounded(x), gaps, 0) == 0.0;
    ForcedDisplacement(Rounded(x), gaps, i);
    RoundIsNearest(x[i], 0);
  }

  /** Where the loop reached a feasible vector, the sweep has nothing left to do. */
  lemma {:induction false} FeasibleIsOnlyRounded(s: seq<Item>, spacing: int, w: real, maxIterations: int)
    requires HalfRootTwo(w)
    requires Feasible(Optimized(Ys(s), ItemGaps(s, spacing), w, maxIterations), ItemGaps(s, spacing))
    ensures Ys(Laid(s, spacing, w, maxIterations)) ==
            Rounded(Optimized(Ys(s), ItemGaps(s, spacing), w, maxIterations))
  {
    var gaps := ItemGaps(s, spacing);
    var x := Optimized(Ys(s), gaps, w, maxIterations);
    RoundedKeepsFeasible(x, gaps);
    ForcedFixpoint(Rounded(x), gaps);
  }

  /** Integer positions that meet all constraints are final, whatever the iteration limit. */
  lemma FeasibleIsFinal(r: seq<Item>, spacing: int, w: real, maxIterations: int)
    requires HalfRootTwo(w) && Integral(Ys(r)) && Feasible(Ys(r), ItemGaps(r, spacing))
    ensures Laid(r, spacing, w, maxIterations) == r
  {
    var y, gaps := Ys(r), ItemGaps(r, spacing);
    var k := Largest(y, gaps, w);
    assert k < 0;
    IntegralIsRounded(y);
    ForcedFixpoint(y, gaps);
    WithYsVectors(r, y, spacing);
  }

  lemma LaidIsStrictlySorted(s: seq<Item>, spacing: int, w: real, n: int)
    requires HalfRootTwo(w)
    requires forall k :: 0 <= k < |s| - 1 ==> 0 < s[k].h + spacing
    ensures StrictlySorted(Laid(s, spacing, w, n))
  {
    var r := Laid(s, spacing, w, n);
    LaidVectors(s, spacing, w, n);
    forall i, j | 0 <= i < j < |r|
      ensures r[i].y < r[j].y
    {
      Increasing(Ys(r), ItemGaps(r, spacing), i, j);
    }
  }

  /** A second layout changes nothing when every height plus spacing is positive: whatever order
      the second sort picks and whatever the two iteration limits are. */
  lemma LayoutIsIdempotent(s: seq<Item>, t: seq<Item>, spacing: int, w: real, n: int, m: int)
    requires HalfRootTwo(w)
    requires forall k :: 0 <= k < |s| - 1 ==> 0 < s[k].h + spacing
    requires SortedPermutation(t, Laid(s, spacing, w, n))
    ensures Laid(t, spacing, w, m) == Laid(s, spacing, w, n)
  {
    var r := Laid(s, spacing, w, n);
    LaidIsStrictlySorted(s, spacing, w, n);
    LaidVectors(s, spacing, w, n);
    StrictlySortedIsUnique(t, r);
    FeasibleIsFinal(r, spacing, w, m);
  }

  lemma Increasing(y: Positions, gaps: Gaps, i: nat, j: nat)
    requires |y| == |gaps| && Feasible(y, gaps) && i < j < |y|
    requires forall k :: 0 < k < |y| ==> 0 < gaps[k]
    ensures y[i] < y[j]
    decreases j
  {
    assert Meets(y, gaps, j);
    if i < j - 1 {
      Increasing(y, gaps, i, j - 1);
    }
  }

  // ----- idempotence, exactly

  /** The items after adding a target position and a height for each. */
  function Added(targets: seq<int>, hs: seq<int>): (items: seq<Item>)
    requires |targets| == |hs|
    ensures |items| == |hs|
    ensures forall i :: 0 <= i < |hs| ==> items[i] == Item(i, targets[i] as real, hs[i])
  {
    seq(|hs|, i requires 0 <= i < |hs| => Item(i, targets[i] as real, hs[i]))
  }

  /** A second layout is sure to change nothing, for all targets, whatever the two sorts choose and
      the two iteration limits are. */
  ghost predicate Settles(hs: seq<int>, spacing: int, w: real)
    requires HalfRootTwo(w)
  {
    forall targets: seq<int>, s: seq<Item>, t: seq<Item>, n: int, m: int ::
      |targets| == |hs| && SortedPermutation(s, Added(targets, hs)) && SortedPermutation(t, Laid(s, spacing, w, n)) ==>
        Laid(t, spacing, w, m) == Laid(s, spacing, w, n)
  }

  /** A layout of two or more items is idempotent for all targets exactly when every height plus the
      spacing is positive: otherwise two items may end at one position, and the unstable sort may
      swap them. */
  lemma SettlesExactly(hs: seq<int>, spacing: int, w: real)
    requires HalfRootTwo(w)
    ensures Settles(hs, spacing, w) <==> |hs| <= 1 || forall h :: h in hs ==> 0 < h + spacing
  {
    if |hs| <= 1 || forall h :: h in hs ==> 0 < h + spacing {
      forall targets: seq<int>, s: seq<Item>, t: seq<Item>, n: int, m: int
        | |targets| == |hs| && SortedPermutation(s, Added(targets, hs)) && SortedPermutation(t, Laid(s, spacing, w, n))
        ensures Laid(t, spacing, w, m) == Laid(s, spacing, w, n)
      {
        SettlesFor(targets, hs, s, t, spacing, w, n, m);
      }
    } else {
      var j :| 0 <= j < |hs| && hs[j] + spacing <= 0;
      var targets, s, t := Unsettled(hs, j, spacing, w);
      assert !(SortedPermutation(s, Added(targets, hs)) && SortedPermutation(t, Laid(s, spacing, w, 0)) ==>
                 Laid(t, spacing, w, 0) == Laid(s, spacing, w, 0));
    }
  }

  lemma SettlesFor(targets: seq<int>, hs: seq<int>, s: seq<Item>, t: seq<Item>, spacing: int, w: real, n: int, m: int)
    requires HalfRootTwo(w) && |targets| == |hs|
    requires SortedPermutation(s, Added(targets, hs)) && SortedPermutation(t, Laid(s, spacing, w, n))
    requires |hs| <= 1 || forall h :: h in hs ==> 0 < h + spacing
    ensures Laid(t, spacing, w, m) == Laid(s, spacing, w, n)
  {
    var items := Added(targets, hs);
    assert |s| == |multiset(s)| == |multiset(items)| == |items|;
    forall k | 0 <= k < |s| - 1
      ensures 0 < s[k].h + spacing
    {
      assert s[k] in multiset(items);
      var i :| 0 <= i < |items| && items[i] == s[k];
      assert hs[i] in hs;
    }
    LayoutIsIdempotent(s, t, spacing, w, n, m);
  }

  /** Positions at which every item is as high as its constraint and its place in the order allow. */
  function Pile(hs: seq<int>, spacing: int): (ys: seq<int>)
    ensures |ys| == |hs|
    ensures ys != [] ==> ys[0] == spacing
    ensures forall i :: 0 < i < |ys| ==>
              ys[i] == if hs[i - 1] + spacing <= 0 then ys[i - 1] else ys[i - 1] + hs[i - 1] + spacing
  {
    if hs == [] then [] else
      var last := |hs| - 1;
      var above := Pile(hs[..last], spacing);
      above + [if last == 0 then spacing
               else if hs[last - 1] + spacing <= 0 then above[last - 1]
               else above[last - 1] + hs[last - 1] + spacing]
  }

  lemma PileIsSorted(hs: seq<int>, spacing: int, i: nat, j: nat)
    requires i <= j < |hs|
    ensures Pile(hs, spacing)[i] <= Pile(hs, spacing)[j]
    decreases j
  {
    if i < j {
      PileIsSorted(hs, spacing, i, j - 1);
    }
  }

  /** Items with the given indices and heights, piled up. */
  function Piled(indices: seq<int>, hs: seq<int>, spacing: int): (s: seq<Item>)
    requires |indices| == |hs|
    ensures |s| == |hs|
    ensures forall i :: 0 <= i < |s| ==> s[i] == Item(indices[i], Pile(hs, spacing)[i] as real, hs[i])
  {
    var ys := Pile(hs, spacing);
    seq(|hs|, i requires 0 <= i < |hs| => Item(indices[i], ys[i] as real, hs[i]))
  }

  lemma PiledIsFinal(indices: seq<int>, hs: seq<int>, spacing: int, w: real)
    requires |indices| == |hs| && HalfRootTwo(w)
    ensures var s := Piled(indices, hs, spacing); Sorted(s) && Laid(s, spacing, w, 0) == s
  {
    var s := Piled(indices, hs, spacing);
    forall i, j | 0 <= i < j < |s|
      ensures s[i].y <= s[j].y
    {
      PileIsSorted(hs, spacing, i, j);
    }
    var y, gaps := Ys(s), ItemGaps(s, spacing);
    forall i: nat | i < |y|
      ensures Meets(y, gaps, i)
    {
    }
    FeasibleIsFinal(s, spacing, w, 0);
  }

  /** Two neighbours at one position, and the other order of the two. */
  lemma TieUnsettles(s: seq<Item>, k: nat, spacing: int, w: real) returns (t: seq<Item>)
    requires HalfRootTwo(w) && Sorted(s)
    requires k + 1 < |s| && s[k].y == s[k + 1].y && s[k].originalIndex != s[k + 1].originalIndex
    ensures SortedPermutation(t, s) && Laid(t, spacing, w, 0) != s
  {
    t := s[k := s[k + 1]][k + 1 := s[k]];
    assert Laid(t, spacing, w, 0)[k].originalIndex == t[k].originalIndex == s[k + 1].originalIndex;
  }

  lemma UnsettledInPlace(hs: seq<int>, j: nat, spacing: int, w: real)
    returns (targets: seq<int>, s: seq<Item>, t: seq<Item>)
    requires HalfRootTwo(w) && j + 1 < |hs| && hs[j] + spacing <= 0
    ensures |targets| == |hs| && SortedPermutation(s, Added(targets, hs))
    ensures SortedPermutation(t, Laid(s, spacing, w, 0)) && Laid(t, spacing, w, 0) != Laid(s, spacing, w, 0)
  {
    hide Laid;
    var indices := UpTo(|hs|);
    targets := Pile(hs, spacing);
    s := Piled(indices, hs, spacing);
    assert s == Added(targets, hs);
    PiledIsFinal(indices, hs, spacing, w);
    hide Pile;
    t := TieUnsettles(s, j, spacing, w);
  }

  /** The last item on top of the others. */
  lemma UnsettledOnTop(hs: seq<int>, spacing: int, w: real)
    returns (targets: seq<int>, s: seq<Item>, t: seq<Item>)
    requires HalfRootTwo(w) && 1 < |hs| && hs[|hs| - 1] + spacing <= 0
    ensures |targets| == |hs| && SortedPermutation(s, Added(targets, hs))
    ensures SortedPermutation(t, Laid(s, spacing, w, 0)) && Laid(t, spacing, w, 0) != Laid(s, spacing, w, 0)
  {
    hide Laid, Pile;
    var last := |hs| - 1;
    var order, turned := [last] + UpTo(last), [hs[last]] + hs[..last];
    var ys := Pile(turned, spacing);
    targets := ys[1..] + [ys[0]];
    s := Piled(order, turned, spacing);
    PiledIsFinal(order, turned, spacing, w);
    Turned(s, Added(targets, hs));
    t := TieUnsettles(s, 0, spacing, w);
  }

  lemma Turned(s: seq<Item>, items: seq<Item>)
    requires 0 < |s| == |items| && s[0] == items[|s| - 1]
    requires forall i :: 0 < i < |s| ==> s[i] == items[i - 1]
    ensures multiset(s) == multiset(items)
  {
    assert s == [s[0]] + s[1..];
    assert items == s[1..] + [s[0]];
  }

  lemma Unsettled(hs: seq<int>, j: nat, spacing: int, w: real)
    returns (targets: seq<int>, s: seq<Item>, t: seq<Item>)
    requires HalfRootTwo(w) && j < |hs| && 1 < |hs| && hs[j] + spacing <= 0
    ensures |targets| == |hs| && SortedPermutation(s, Added(targets, hs))
    ensures SortedPermutation(t, Laid(s, spacing, w, 0)) && Laid(t, spacing, w, 0) != Laid(s, spacing, w, 0)
  {
    hide *;
    if j + 1 < |hs| {
      targets, s, t := UnsettledInPlace(hs, j, spacing, w);
    } else {
      targets, s, t := UnsettledOnTop(hs, spacing, w);
    }
  }

  // ----- the object

  class RectangleLayout {
    var spacing: int
    var items: seq<Item>
    const weight: real

    /** The original indices are 0, 1, ... in some order. */
    ghost predicate Valid()
      reads this
    {
      HalfRootTwo(weight) && Indexed(items)
    }

    constructor (sqrtTwo: real)
      requires 0.0 < sqrtTwo && sqrtTwo * sqrtTwo == 2.0
      ensures Valid() && spacing == 0 && items == []
    {
      spacing := 0;
      items := [];
      weight := sqrtTwo / 2.0;
      new;
      assert 2.0 * weight * weight == sqrtTwo * sqrtTwo / 2.0;
    }

    method SetSpacing(spacing: int)
      requires Valid()
      modifies this`spacing
      ensures Valid() && this.spacing == spacing
    {
      this.spacing := spacing;
    }

    method AddItem(targetY: int, h: int)
      requires Valid()
      modifies this`items
      ensures Valid()
      ensures items == old(items) + [Item(old(|items|), targetY as real, h)]
    {
      items := items + [Item(|items|, targetY as real, h)];
      assert Indices(items) == Indices(old(items)) + [old(|items|)];
      assert UpTo(|items|) == UpTo(old(|items|)) + [old(|items|)];
    }

    method OverlapOf(index: nat) returns (o: real)
      requires index < |items|
      ensures o == Overlap(Ys(items), ItemGaps(items, spacing), index)
    {
      var minY: real;
      if index == 0 {
        minY := 0.0;
      } else {
        minY := items[index - 1].y + items[index - 1].h as real;
      }
      minY := minY + spacing as real;

      var y := items[index].y;
      if y < minY {
        return minY - y;
      } else {
        return 0.0;
      }
    }

    method LargestOverlap() returns (maxIndex: int)
      requires HalfRootTwo(weight)
      ensures IsLargest(Ys(items), ItemGaps(items, spacing), weight, |items|, maxIndex)
    {
      ghost var y, gaps := Ys(items), ItemGaps(items, spacing);
      maxIndex := -1;
      var maxOverlap := 0.0;
      for i := 0 to |items|
        invariant IsLargest(y, gaps, weight, i, maxIndex)
        invariant maxOverlap == if maxIndex < 0 then 0.0 else Weighted(y, gaps, weight, maxIndex)
      {
        var o := OverlapOf(i);
        if i > 0 {
          o := o * weight;
        }
        assert o == Weighted(y, gaps, weight, i);
        LargestExtends(y, gaps, weight, i, maxIndex);
        hide Weighted, IsLargest;
        if o > maxOverlap {
          maxIndex := i;
          maxOverlap := o;
        }
      }
    }

    method OptimizeIteration() returns (done: bool)
      requires HalfRootTwo(weight)
      modifies this`items
      ensures done == Done(Ys(old(items)), ItemGaps(old(items), spacing), weight)
      ensures items == if done then old(items)
                       else WithYs(old(items), Step(Ys(old(items)), ItemGaps(old(items), spacing), weight))
    {
      var index := LargestOverlap();
      ghost var y, gaps := Ys(items), ItemGaps(items, spacing);
      LargestIsUnique(y, gaps, weight, |items|, index, Largest(y, gaps, weight));
      if index < 0 {
        return true;
      }
      var o := OverlapOf(index);
      if o < 0.001 {
        return true;
      }
      ProjectItems(items, spacing, index);
      if index == 0 {
        items := items[0 := items[0].(y := items[0].y + o)];
      } else {
        items := items[index := items[index].(y := items[index].y + o / 2.0)];
        items := items[index - 1 := items[index - 1].(y := items[index - 1].y - o / 2.0)];
      }
      return false;
    }

    method RoundPositions()
      modifies this`items
      ensures |items| == |old(items)|
      ensures forall i :: 0 <= i < |items| ==>
                var x, r := old(items)[i].y, items[i].y;
                && r == r.Floor as real && x - 0.5 < r <= x + 0.5
                && items[i] == old(items)[i].(y := r)
      ensures items == WithYs(old(items), Rounded(Ys(old(items))))
    {
      for i := 0 to |items|
        invariant |items| == |old(items)|
        invariant forall j :: 0 <= j < i ==> items[j] == old(items)[j].(y := Round(old(items)[j].y))
        invariant forall j :: i <= j < |items| ==> items[j] == old(items)[j]
      {
        items := items[i := items[i].(y := (items[i].y + 0.5).Floor as real)];
      }
    }

    method ForceNoOverlaps()
      modifies this`items
      ensures items == WithYs(old(items), Forced(Ys(old(items)), ItemGaps(old(items), spacing)))
    {
      hide Swept, Truncate, SweepMinY;
      ghost var y, gaps := Ys(items), ItemGaps(items, spacing);
      ghost var placed := SweepStart(y, gaps);
      var minY := 0 + spacing;
      for i := 0 to |items|
        invariant |items| == |y| && placed == Swept(y, gaps, i)
        invariant forall j :: 0 <= j < i ==> items[j] == old(items)[j].(y := placed[j])
        invariant forall j :: i <= j < |items| ==> items[j] == old(items)[j]
        invariant i < |y| ==> minY == SweepMinY(placed, gaps)
      {
        SweepNext(y, gaps, i);
        if items[i].y < minY as real {
          items := items[i := items[i].(y := minY as real)];
        }
        placed := placed + [items[i].y];
        minY := Truncate(items[i].y + items[i].h as real + spacing as real);
        SweepAdvance(placed, gaps, items[i], spacing);
      }
    }

    method DoLayout(maxIterations: int)
      requires Valid()
      modifies this`items
      ensures Valid()
      ensures exists s :: SortedPermutation(s, old(items)) && items == Laid(s, spacing, weight, maxIterations)
      ensures KeepsTargets(old(items), items)
    {
      ghost var someOrder := SortedPermutationExists(items);
      var s :| SortedPermutation(s, items);
      items := s;

      ghost var y, gaps := Ys(s), ItemGaps(s, spacing);
      ghost var x := y;
      WithYsVectors(s, y, spacing);
      var iteration := 0;
      while iteration < maxIterations
        invariant |x| == |y| && items == WithYs(s, x)
        invariant Optimized(y, gaps, weight, maxIterations) == Optimized(x, gaps, weight, maxIterations - iteration)
      {
        WithYsVectors(s, x, spacing);
        var done := OptimizeIteration();
        if done {
          break;
        }
        WithYsTwice(s, x, Step(x, gaps, weight));
        x := Step(x, gaps, weight);
        iteration := iteration + 1;
      }
      WithYsVectors(s, x, spacing);
      assert x == Optimized(y, gaps, weight, maxIterations);

      RoundPositions();
      WithYsTwice(s, x, Rounded(x));
      WithYsVectors(s, Rounded(x), spacing);
      ForceNoOverlaps();
      WithYsTwice(s, Rounded(x), Forced(Rounded(x), gaps));
      assert items == Laid(s, spacing, weight, maxIterations);
      LaidIsFeasible(s, old(items), spacing, weight, maxIterations);
      TargetsKept(s, old(items), items, spacing, weight, maxIterations);
    }
  }
}
