/** What every run of a delivery keeps: the outcome is passed on faithfully, the worker leaves, every
    delivery ends, and every call gets its outcome. */
module ReturnerDelivery {
  import opened Returner
  import opened Waiter

  lemma {:induction false} RInvRun<T, E>(r: RState<T, E>, w: nat, outcome: Outcome<T, E>, schedule: seq<nat>)
    requires RInv(r, w, outcome) && Possible(r, schedule)
    ensures RInv(After(r, schedule), w, outcome)
    decreases |schedule|
  {
    if schedule != [] {
      RInvStep(r, w, outcome, schedule[0]);
      RInvRun(Step(r, schedule[0]), w, outcome, schedule[1..]);
    }
  }

  /** Faithful delivery: in any interleaving, whatever a call returns or throws, early, late or
      repeated, is exactly what the worker passed. */
  lemma {:induction false} DeliversFaithfully<T, E>(r: RState<T, E>, w: nat, outcome: Outcome<T, E>,
    schedule: seq<nat>, t: nat)
    requires Start(r, w, outcome) && Possible(r, schedule) && t < |r.stages|
    ensures var stage := After(r, schedule).stages[t]; stage.Got? ==> stage.result == outcome
  {
    StartInv(r, w, outcome);
    RInvRun(r, w, outcome, schedule);
    if t != w {
      assert CallerInv(After(r, schedule), w, t, outcome);
    }
  }

  /** Once any caller has left wait(), the worker has made its last step on the object, so a single
      caller may destroy it: no continuation of the run schedules the worker again. */
  lemma {:induction false} WorkerHasLeft<T, E>(r: RState<T, E>, w: nat, outcome: Outcome<T, E>,
                            schedule: seq<nat>, t: nat, rest: seq<nat>)
    requires Start(r, w, outcome) && Possible(r, schedule) && t < |r.stages| && t != w
    requires !After(r, schedule).stages[t].Wait?
    requires Possible(After(r, schedule), rest)
    ensures w !in rest
  {
    StartInv(r, w, outcome);
    RInvRun(r, w, outcome, schedule);
    assert CallerInv(After(r, schedule), w, t, outcome);
    FinishedStays(After(r, schedule), w, rest);
  }

  lemma {:induction false} FinishedStays<T, E>(r: RState<T, E>, w: nat, rest: seq<nat>)
    requires WellFormed(r) && w < |r.stages| && r.stages[w].Finished? && Possible(r, rest)
    ensures w !in rest
    decreases |rest|
  {
    if rest != [] {
      FinishedStays(Step(r, rest[0]), w, rest[1..]);
      assert forall x :: x in rest ==> x == rest[0] || x in rest[1..];
    }
  }

  // ----- progress

  function StageRank<T, E>(stage: Stage<T, E>): nat {
    match stage
    case Store(_) => 1
    case Test => 2
    case Read => 1
    case _ => 0
  }

  function StageRanks<T, E>(stages: seq<Stage<T, E>>): (ranks: seq<nat>)
    ensures |ranks| == |stages|
    ensures forall i :: 0 <= i < |ranks| ==> ranks[i] == StageRank(stages[i])
  {
    seq(|stages|, i requires 0 <= i < |stages| => StageRank(stages[i]))
  }

  function StepsLeft<T, E>(r: RState<T, E>): nat {
    3 * Remaining(r.waiter) + Sum(StageRanks(r.stages))
  }

  lemma {:induction false} SumGrowth(xs: seq<nat>, ys: seq<nat>, k: nat, d: nat)
    requires |xs| == |ys| && k < |xs| && xs[k] <= ys[k] + d
    requires forall i :: 0 <= i < |xs| && i != k ==> xs[i] == ys[i]
    ensures Sum(xs) <= Sum(ys) + d
    decreases |xs|
  {
    if k == 0 {
      assert xs[1..] == ys[1..];
    } else {
      SumGrowth(xs[1..], ys[1..], k - 1, d);
    }
  }

  lemma StepsLeftDecreases<T, E>(r: RState<T, E>, t: nat)
    requires WellFormed(r) && CanStep(r, t)
    ensures StepsLeft(Step(r, t)) < StepsLeft(r)
  {
    var r' := Step(r, t);
    var before, after := StageRanks(r.stages), StageRanks(r'.stages);
    match r.stages[t]
    case Store(_) | Test | Read =>
      SumDrops(after, before, t, 1);
    case Notify | Wait | Got(_) =>
      StepDecreases(r.waiter, t);
      SumGrowth(after, before, t, 2);
  }

  lemma {:induction false} DeliveriesAreFinite<T, E>(r: RState<T, E>, schedule: seq<nat>)
    requires WellFormed(r) && Possible(r, schedule)
    ensures |schedule| + StepsLeft(After(r, schedule)) <= StepsLeft(r)
    decreases |schedule|
  {
    if schedule != [] {
      StepsLeftDecreases(r, schedule[0]);
      DeliveriesAreFinite(Step(r, schedule[0]), schedule[1..]);
    }
  }

  /** Every call gets its outcome: a run that cannot go on has delivered to every call of every
      caller. No run is endless, so this holds under any scheduler. */
  lemma {:induction false} EveryCallGetsIt<T, E>(r: RState<T, E>, w: nat, outcome: Outcome<T, E>,
    schedule: seq<nat>, t: nat)
    requires Start(r, w, outcome) && Possible(r, schedule) && t < |r.stages| && t != w
    requires forall u: nat :: !CanStep(After(r, schedule), u)
    ensures After(r, schedule).stages[t] == Got(outcome)
    ensures After(r, schedule).waiter.threads[t].again == 0
  {
    StartInv(r, w, outcome);
    RInvRun(r, w, outcome, schedule);
    var a := After(r, schedule);
    assert CallerInv(a, w, t, outcome);
    assert PcInv(a.waiter, a.waiter.threads[t].pc);
    assert !CanStep(a, t) && !CanStep(a, w);
    assert a.waiter.holder.Some? ==>
        var h := a.waiter.holder.value;
        (h != w ==> CallerInv(a, w, h, outcome)) && CanStep(a, h);
  }
}
