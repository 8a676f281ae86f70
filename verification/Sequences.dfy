/** Sequences of numbers: the indices of a sequence, increasing sequences below a bound, and how
    often a number occurs, with what appending a number at the end or removing one makes of the order
    and of the counts. */
module Sequences {
  /** 0, 1, ..., n - 1 */
  function UpTo(n: nat): (r: seq<nat>)
    ensures |r| == n && forall i :: 0 <= i < n ==> r[i] == i
  {
    seq(n, i => i)
  }

  predicate Ordered(ids: seq<nat>, end: nat) {
    && (forall i, j :: 0 <= i < j < |ids| ==> ids[i] < ids[j])
    && (forall i :: 0 <= i < |ids| ==> ids[i] < end)
  }

  lemma OrderedAppend(ids: seq<nat>, end: nat)
    requires Ordered(ids, end)
    ensures Ordered(ids + [end], end + 1)
  {
  }

  lemma OrderedWithout(ids: seq<nat>, k: nat, end: nat)
    requires Ordered(ids, end) && k < |ids|
    ensures Ordered(ids[..k] + ids[k + 1..], end)
  {
  }

  /** How often id occurs in ids. */
  ghost function Occ(ids: seq<nat>, id: nat): nat {
    multiset(ids)[id]
  }

  lemma OccAppend(ids: seq<nat>, x: nat, id: nat)
    ensures Occ(ids + [x], id) == Occ(ids, id) + Occ([x], id)
    ensures Occ([x], id) == if x == id then 1 else 0
    ensures Occ([], id) == 0
  {
  }

  lemma OccFront(ids: seq<nat>, id: nat)
    requires ids != []
    ensures Occ(ids, id) == Occ([ids[0]], id) + Occ(ids[1..], id)
  {
    assert ids == [ids[0]] + ids[1..];
  }
}
