/** Passing one value or one exception from a worker thread to any number of calling threads, on
    top of the waiter: returnValue()/exception() store and notify, returnedValue() waits, rethrows
    a stored exception and otherwise reads the value. */
module Returner {
  import opened Waiter
  import opened Wrappers

  /** What the worker delivers: the value passed to returnValue(), or the exception passed to
      exception(). The returnOrException macro evaluates an expression to exactly one of them. */
  datatype Outcome<+T, +E> = Value(value: T) | Thrown(error: E)

  datatype Stage<+T, +E> =
    | Store(outcome: Outcome<T, E>)  // worker: about to store
    | Notify                         // worker: inside Waiter::notify
    | Finished                       // worker: has left the object
    | Wait                           // caller: inside Waiter::wait
    | Test                           // caller: about to test for an exception
    | Read                           // caller: about to read the value
    | Got(result: Outcome<T, E>)     // caller: the last call returned, or threw, this

  datatype RState<+T, +E> = RState(
    waiter: State,
    value: T,
    thrown: Option<E>,
    stages: seq<Stage<T, E>>)

  ghost predicate WellFormed<T, E>(r: RState<T, E>) {
    |r.stages| == |r.waiter.threads|
  }

  ghost predicate CanStep<T, E>(r: RState<T, E>, t: nat)
    requires WellFormed(r)
  {
    && t < |r.stages|
    && match r.stages[t] {
         case Store(_) | Test | Read => true
         case Notify | Wait | Got(_) => Enabled(r.waiter, t)
         case Finished => false
       }
  }

  /** One atomic step of thread t. */
  ghost function Step<T, E>(r: RState<T, E>, t: nat): (r': RState<T, E>)
    requires WellFormed(r) && CanStep(r, t)
    ensures WellFormed(r') && |r'.stages| == |r.stages|
  {
    match r.stages[t]
    case Store(Value(v)) => r.(value := v, stages := r.stages[t := Notify])
    case Store(Thrown(e)) => r.(thrown := Some(e), stages := r.stages[t := Notify])
    case Notify =>
      var w := Next(r.waiter, t);
      r.(waiter := w, stages := if w.threads[t].pc.NotifyDone? then r.stages[t := Finished] else r.stages)
    case Wait =>
      var w := Next(r.waiter, t);
      r.(waiter := w, stages := if w.threads[t].pc.WaitDone? then r.stages[t := Test] else r.stages)
    case Test =>
      r.(stages := r.stages[t := if r.thrown.Some? then Got(Thrown(r.thrown.value)) else Read])
    case Read => r.(stages := r.stages[t := Got(Value(r.value))])
    case Got(_) => r.(waiter := Next(r.waiter, t), stages := r.stages[t := Wait])
    case Finished => assert false; r
  }

  ghost predicate Possible<T, E>(r: RState<T, E>, schedule: seq<nat>)
    requires WellFormed(r)
    decreases |schedule|
  {
    schedule != [] ==> CanStep(r, schedule[0]) && Possible(Step(r, schedule[0]), schedule[1..])
  }

  ghost function After<T, E>(r: RState<T, E>, schedule: seq<nat>): (r': RState<T, E>)
    requires WellFormed(r) && Possible(r, schedule)
    ensures WellFormed(r') && |r'.stages| == |r.stages|
    decreases |schedule|
  {
    if schedule == [] then r else After(Step(r, schedule[0]), schedule[1..])
  }

  /** Thread w is the worker and delivers outcome once; all others are callers, each with any
      number of calls to returnedValue(). The initial value is arbitrary. */
  ghost predicate Start<T, E>(r: RState<T, E>, w: nat, outcome: Outcome<T, E>) {
    && WellFormed(r) && Initial(r.waiter) && w < |r.stages| && r.thrown.None?
    && r.stages[w] == Store(outcome) && r.waiter.threads[w] == Thread(NotifyLock, 0)
    && forall t :: 0 <= t < |r.stages| && t != w ==> r.stages[t].Wait? && r.waiter.threads[t].pc.WaitLock?
  }

  ghost predicate RInv<T, E>(r: RState<T, E>, w: nat, outcome: Outcome<T, E>) {
    && WellFormed(r) && Inv(r.waiter) && w < |r.stages|
    && WorkerInv(r, w, outcome)
    && forall t: nat :: t < |r.stages| && t != w ==> CallerInv(r, w, t, outcome)
  }

  ghost predicate Stored<T, E>(r: RState<T, E>, outcome: Outcome<T, E>) {
    match outcome
    case Value(v) => r.value == v && r.thrown.None?
    case Thrown(e) => r.thrown == Some(e)
  }

  ghost predicate WorkerInv<T, E>(r: RState<T, E>, w: nat, outcome: Outcome<T, E>)
    requires WellFormed(r) && w < |r.stages|
  {
    var th := r.waiter.threads[w];
    && th.again == 0
    && (r.waiter.flag <==> th.pc in {NotifyWake, NotifyUnlock, NotifyDone})
    && match r.stages[w] {
         case Store(o) => o == outcome && th.pc.NotifyLock? && r.thrown.None?
         case Notify => Stored(r, outcome) && Notifier(th.pc) && !th.pc.NotifyDone?
         case Finished => Stored(r, outcome) && th.pc.NotifyDone?
         case _ => false
       }
  }

  ghost predicate CallerInv<T, E>(r: RState<T, E>, w: nat, t: nat, outcome: Outcome<T, E>)
    requires WellFormed(r) && w < |r.stages| && t < |r.stages|
  {
    var pc := r.waiter.threads[t].pc;
    && (pc.WaitUnlock? || pc.WaitDone? ==> r.stages[w].Finished?)
    && match r.stages[t] {
         case Wait => !Notifier(pc) && !pc.WaitDone?
         case Test => pc.WaitDone?
         case Read => pc.WaitDone? && outcome.Value?
         case Got(o) => pc.WaitDone? && o == outcome
         case _ => false
       }
  }

  lemma StartInv<T, E>(r: RState<T, E>, w: nat, outcome: Outcome<T, E>)
    requires Start(r, w, outcome)
    ensures RInv(r, w, outcome)
  {
  }

  lemma WaiterInvStep<T, E>(r: RState<T, E>, w: nat, outcome: Outcome<T, E>, t: nat)
    requires RInv(r, w, outcome) && CanStep(r, t)
    ensures Inv(Step(r, t).waiter)
  {
    if Enabled(r.waiter, t) {
      InvStep(r.waiter, t);
    }
  }

  lemma WorkerInvStep<T, E>(r: RState<T, E>, w: nat, outcome: Outcome<T, E>, t: nat)
    requires RInv(r, w, outcome) && CanStep(r, t)
    ensures WorkerInv(Step(r, t), w, outcome)
  {
    assert t != w ==> CallerInv(r, w, t, outcome);
  }

  lemma OwnStepKeepsCallerInv<T, E>(r: RState<T, E>, w: nat, outcome: Outcome<T, E>, t: nat)
    requires RInv(r, w, outcome) && CanStep(r, t) && t != w
    ensures CallerInv(Step(r, t), w, t, outcome)
  {
    assert CallerInv(r, w, t, outcome);
    assert PcInv(r.waiter, r.waiter.threads[t].pc);
  }

  /** A step changes another thread at most by waking it. */
  lemma StepOfAnother<T, E>(r: RState<T, E>, t: nat, u: nat)
    requires WellFormed(r) && CanStep(r, t) && u < |r.stages| && u != t
    ensures Step(r, t).stages[u] == r.stages[u]
    ensures var before, after := r.waiter.threads[u].pc, Step(r, t).waiter.threads[u].pc;
            after == before || (before.Asleep? && after.Relock?)
  {
  }

  lemma OtherStepKeepsCallerInv<T, E>(r: RState<T, E>, w: nat, outcome: Outcome<T, E>, t: nat, u: nat)
    requires RInv(r, w, outcome) && CanStep(r, t) && u < |r.stages| && u != w && u != t
    ensures CallerInv(Step(r, t), w, u, outcome)
  {
    assert CallerInv(r, w, u, outcome);
    StepOfAnother(r, t, u);
    if r.stages[w].Finished? {
      assert t != w;
      StepOfAnother(r, t, w);
    }
    hide Step, RInv, Stored;
  }

  lemma RInvStep<T, E>(r: RState<T, E>, w: nat, outcome: Outcome<T, E>, t: nat)
    requires RInv(r, w, outcome) && CanStep(r, t)
    ensures RInv(Step(r, t), w, outcome)
  {
    hide Step, CallerInv, WorkerInv, Inv, CanStep;
    WaiterInvStep(r, w, outcome, t);
    WorkerInvStep(r, w, outcome, t);
    forall u: nat | u < |r.stages| && u != w
      ensures CallerInv(Step(r, t), w, u, outcome)
    {
      if u == t {
        OwnStepKeepsCallerInv(r, w, outcome, t);
      } else {
        OtherStepKeepsCallerInv(r, w, outcome, t, u);
      }
    }
  }
}
