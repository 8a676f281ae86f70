/** The shared object that a value or an exception is passed through. */
module ReturnerObject {
  import opened Returner
  import opened Waiter
  import opened Wrappers

  // ----- uninterrupted calls

  /** n steps of thread t. */
  function Times(t: nat, n: nat): (schedule: seq<nat>)
    ensures |schedule| == n
  {
    if n == 0 then [] else [t] + Times(t, n - 1)
  }

  lemma NoStep<T, E>(r: RState<T, E>, t: nat)
    requires WellFormed(r)
    ensures Possible(r, Times(t, 0)) && After(r, Times(t, 0)) == r
  {
  }

  lemma FirstStep<T, E>(r: RState<T, E>, t: nat, n: nat)
    requires WellFormed(r) && CanStep(r, t)
    ensures Possible(Step(r, t), Times(t, n)) ==>
              Possible(r, Times(t, n + 1)) && After(r, Times(t, n + 1)) == After(Step(r, t), Times(t, n))
  {
    assert Times(t, n + 1)[1..] == Times(t, n);
  }

  /** notify() and the way out of the object, without interruption. */
  lemma NotifyAfter<T, E>(r: RState<T, E>, t: nat)
    requires WellFormed(r) && t < |r.stages| && r.stages[t].Notify?
    requires Enabled(r.waiter, t) && r.waiter.threads[t].pc.NotifyLock?
    ensures Possible(r, Times(t, 4)) && Schedulable(r.waiter, [t, t, t, t])
    ensures After(r, Times(t, 4)) ==
            r.(waiter := Run(r.waiter, [t, t, t, t]), stages := r.stages[t := Finished])
  {
    NotifyRun(r.waiter, t);
    var r1 := Step(r, t);
    var r2 := Step(r1, t);
    var r3 := Step(r2, t);
    var r4 := Step(r3, t);
    assert r4.waiter.threads == Run(r.waiter, [t, t, t, t]).threads;
    hide Step, Run, After, Possible;
    NoStep(r4, t);
    FirstStep(r3, t, 0);
    FirstStep(r2, t, 1);
    FirstStep(r1, t, 2);
    FirstStep(r, t, 3);
  }

  lemma DeliverAfter<T, E>(r: RState<T, E>, t: nat)
    requires WellFormed(r) && t < |r.stages| && r.stages[t].Store?
    requires Enabled(r.waiter, t) && r.waiter.threads[t].pc.NotifyLock?
    ensures Possible(r, Times(t, 5)) && Schedulable(r.waiter, [t, t, t, t])
    ensures var o := r.stages[t].outcome;
            After(r, Times(t, 5)) ==
            RState(Run(r.waiter, [t, t, t, t]), if o.Value? then o.value else r.value,
                   if o.Thrown? then Some(o.error) else r.thrown, r.stages[t := Finished])
  {
    hide After, Possible, Run;
    NotifyAfter(Step(r, t), t);
    FirstStep(r, t, 4);
  }

  /** wait() after the notification, without interruption. */
  lemma WaitAfter<T, E>(r: RState<T, E>, t: nat, n: nat)
    requires WellFormed(r) && t < |r.stages| && r.stages[t].Wait? && r.waiter.flag
    requires Enabled(r.waiter, t) && r.waiter.threads[t].pc.WaitLock?
    ensures Schedulable(r.waiter, [t, t, t])
    ensures var r' := r.(waiter := Run(r.waiter, [t, t, t]), stages := r.stages[t := Test]);
            Possible(r', Times(t, n)) ==>
              Possible(r, Times(t, n + 3)) && After(r, Times(t, n + 3)) == After(r', Times(t, n))
  {
    WaitRun(r.waiter, t);
    var r1 := Step(r, t);
    var r2 := Step(r1, t);
    var r3 := Step(r2, t);
    assert r3.waiter.threads == Run(r.waiter, [t, t, t]).threads;
    hide Step, Run, After, Possible, Times;
    if Possible(r3, Times(t, n)) {
      FirstStep(r2, t, n);
      FirstStep(r1, t, n + 1);
      FirstStep(r, t, n + 2);
    }
  }

  /** A call after the notification, without interruption. */
  lemma FetchAfter<T, E>(r: RState<T, E>, t: nat)
    requires WellFormed(r) && t < |r.stages| && r.stages[t].Wait? && r.waiter.flag
    requires Enabled(r.waiter, t) && r.waiter.threads[t].pc.WaitLock?
    ensures var n := if r.thrown.Some? then 4 else 5;
            && Possible(r, Times(t, n)) && Schedulable(r.waiter, [t, t, t])
            && After(r, Times(t, n)) ==
               r.(waiter := Run(r.waiter, [t, t, t]),
                  stages := r.stages[t := Got(if r.thrown.Some? then Thrown(r.thrown.value) else Value(r.value))])
  {
    hide Run, After, Possible, Times, Enabled;
    var n := if r.thrown.Some? then 1 else 2;
    WaitAfter(r, t, n);
    var r3 := r.(waiter := Run(r.waiter, [t, t, t]), stages := r.stages[t := Test]);
    var r4 := Step(r3, t);
    if r.thrown.Some? {
      NoStep(r4, t);
      FirstStep(r3, t, 0);
    } else {
      var r5 := Step(r4, t);
      NoStep(r5, t);
      FirstStep(r4, t, 0);
      FirstStep(r3, t, 1);
    }
  }

  // ----- the object

  class SharedReturner<T, E> {
    var waiter: SharedWaiter
    var value: T
    var thrownException: Option<E>
    var stages: seq<Stage<T, E>>

    ghost function Snapshot(): RState<T, E>
      reads this, waiter
    {
      RState(waiter.Snapshot(), value, thrownException, stages)
    }

    constructor (initialValue: T, waiter: SharedWaiter, stages: seq<Stage<T, E>>)
      ensures this.waiter == waiter
      ensures Snapshot() == RState(waiter.Snapshot(), initialValue, None, stages)
    {
      this.waiter := waiter;
      value := initialValue;
      thrownException := None;
      this.stages := stages;
    }

    /** returnValue() or exception(), without interruption. */
    method Deliver(t: nat)
      requires WellFormed(Snapshot()) && t < |stages| && stages[t].Store?
      requires Enabled(waiter.Snapshot(), t) && waiter.threads[t].pc.NotifyLock?
      modifies this`value, this`thrownException, this`stages, waiter
      ensures Possible(old(Snapshot()), Times(t, 5)) && Snapshot() == After(old(Snapshot()), Times(t, 5))
    {
      DeliverAfter(Snapshot(), t);
      hide After, Possible, Run;
      match stages[t].outcome {
        case Value(v) => value := v;
        case Thrown(e) => thrownException := Some(e);
      }
      waiter.Notify(t);
      stages := stages[t := Finished];
    }

    /** returnedValue() after the notification, without interruption: it returns or throws
        immediately. */
    method Fetch(t: nat) returns (result: Outcome<T, E>)
      requires WellFormed(Snapshot()) && t < |stages| && stages[t].Wait? && waiter.flag
      requires Enabled(waiter.Snapshot(), t) && waiter.threads[t].pc.WaitLock?
      modifies this`stages, waiter
      ensures result == if thrownException.Some? then Thrown(thrownException.value) else Value(value)
      ensures var n := if thrownException.Some? then 4 else 5;
              Possible(old(Snapshot()), Times(t, n)) && Snapshot() == After(old(Snapshot()), Times(t, n))
    {
      FetchAfter(Snapshot(), t);
      hide After, Possible, Run;
      var returned := waiter.Wait(t);
      if thrownException.Some? {
        result := Thrown(thrownException.value);
      } else {
        result := Value(value);
      }
      stages := stages[t := Got(result)];
    }

    /** One atomic step of thread t: inside the waiter, or on the result between its calls. */
    method Advance(t: nat)
      requires WellFormed(Snapshot()) && CanStep(Snapshot(), t)
      modifies this`value, this`thrownException, this`stages, waiter
      ensures Snapshot() == Step(old(Snapshot()), t)
    {
      match stages[t] {
        case Store(outcome) =>
          match outcome {
            case Value(v) => value := v;
            case Thrown(e) => thrownException := Some(e);
          }
          stages := stages[t := Notify];
        case Notify =>
          waiter.Advance(t);
          if waiter.threads[t].pc.NotifyDone? {
            stages := stages[t := Finished];
          }
        case Wait =>
          waiter.Advance(t);
          if waiter.threads[t].pc.WaitDone? {
            stages := stages[t := Test];
          }
        case Test =>
          if thrownException.Some? {
            stages := stages[t := Got(Thrown(thrownException.value))];
          } else {
            stages := stages[t := Read];
          }
        case Read =>
          stages := stages[t := Got(Value(value))];
        case Got(_) =>
          waiter.Advance(t);
          stages := stages[t := Wait];
        case Finished =>
          assert false;
      }
    }
  }
}
