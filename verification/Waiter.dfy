/** The one-shot notification protocol: any number of threads call wait() and notify() on one
    object, step by step. */
module Waiter {
  import opened Wrappers

  /** Where a thread is. The threads asleep are the queue of the wait condition. */
  datatype Pc =
    | NotifyLock    // about to lock the mutex
    | NotifySet     // holds the mutex, about to set the flag
    | NotifyWake    // holds the mutex, about to wake all
    | NotifyUnlock  // holds the mutex, about to unlock it
    | NotifyDone
    | WaitLock      // about to lock the mutex
    | WaitTest      // holds the mutex, about to test the flag
    | Asleep        // on the wait condition, without the mutex
    | Relock        // woken, about to lock the mutex again
    | WaitUnlock    // holds the mutex, about to unlock it
    | WaitDone

  /** again is how many more calls the thread makes after the current one. */
  datatype Thread = Thread(pc: Pc, again: nat)

  datatype State = State(flag: bool, holder: Option<nat>, threads: seq<Thread>)

  predicate Notifier(pc: Pc) {
    pc.NotifyLock? || pc.NotifySet? || pc.NotifyWake? || pc.NotifyUnlock? || pc.NotifyDone?
  }

  predicate Holds(pc: Pc) {
    pc.NotifySet? || pc.NotifyWake? || pc.NotifyUnlock? || pc.WaitTest? || pc.WaitUnlock?
  }

  predicate Locking(pc: Pc) {
    pc.NotifyLock? || pc.WaitLock? || pc.Relock?
  }

  predicate Returned(pc: Pc) {
    pc.NotifyDone? || pc.WaitDone?
  }

  predicate Enabled(s: State, t: nat) {
    && t < |s.threads|
    && var th := s.threads[t];
       if Locking(th.pc) then s.holder.None?
       else if Returned(th.pc) then 0 < th.again
       else !th.pc.Asleep?
  }

  function Goto(s: State, t: nat, pc: Pc): State
    requires t < |s.threads|
  {
    s.(threads := s.threads[t := s.threads[t].(pc := pc)])
  }

  function Woken(threads: seq<Thread>): (r: seq<Thread>)
    ensures |r| == |threads|
    ensures forall i :: 0 <= i < |r| ==>
              r[i] == if threads[i].pc.Asleep? then threads[i].(pc := Relock) else threads[i]
  {
    seq(|threads|, i requires 0 <= i < |threads| =>
      if threads[i].pc.Asleep? then threads[i].(pc := Relock) else threads[i])
  }

  function Next(s: State, t: nat): (s': State)
    requires Enabled(s, t)
    ensures |s'.threads| == |s.threads|
  {
    match s.threads[t].pc
    case NotifyLock => Goto(s, t, NotifySet).(holder := Some(t))
    case NotifySet => Goto(s, t, NotifyWake).(flag := true)
    case NotifyWake => Goto(s.(threads := Woken(s.threads)), t, NotifyUnlock)
    case NotifyUnlock => Goto(s, t, NotifyDone).(holder := None)
    case NotifyDone => s.(threads := s.threads[t := Thread(NotifyLock, s.threads[t].again - 1)])
    case WaitLock => Goto(s, t, WaitTest).(holder := Some(t))
    case WaitTest => if s.flag then Goto(s, t, WaitUnlock) else Goto(s, t, Asleep).(holder := None)
    case Relock => Goto(s, t, WaitUnlock).(holder := Some(t))
    case WaitUnlock => Goto(s, t, WaitDone).(holder := None)
    case WaitDone => s.(threads := s.threads[t := Thread(WaitLock, s.threads[t].again - 1)])
    case Asleep => assert false; s
  }

  ghost predicate Initial(s: State) {
    && !s.flag && s.holder.None?
    && forall t :: 0 <= t < |s.threads| ==> s.threads[t].pc.NotifyLock? || s.threads[t].pc.WaitLock?
  }

  ghost predicate Schedulable(s: State, schedule: seq<nat>)
    decreases |schedule|
  {
    schedule != [] ==> Enabled(s, schedule[0]) && Schedulable(Next(s, schedule[0]), schedule[1..])
  }

  /** The state after a schedule, one thread number a step. */
  ghost function Run(s: State, schedule: seq<nat>): (r: State)
    requires Schedulable(s, schedule)
    ensures |r.threads| == |s.threads|
    decreases |schedule|
  {
    if schedule == [] then s else Run(Next(s, schedule[0]), schedule[1..])
  }

  // ----- safety

  ghost predicate Inv(s: State) {
    && (forall t: nat :: t < |s.threads| ==> (Holds(s.threads[t].pc) <==> s.holder == Some(t)))
    && (s.holder.Some? ==> s.holder.value < |s.threads|)
    && (forall t: nat :: t < |s.threads| ==> PcInv(s, s.threads[t].pc))
  }

  /** What the flag and the holder of the mutex are when some thread is at pc. */
  ghost predicate PcInv(s: State, pc: Pc) {
    && (pc.Asleep? && s.flag ==> HolderAboutToWake(s))
    && (pc in {NotifyWake, NotifyUnlock, NotifyDone, Relock, WaitUnlock, WaitDone} ==> s.flag)
  }

  ghost predicate HolderAboutToWake(s: State) {
    s.holder.Some? && s.holder.value < |s.threads| && s.threads[s.holder.value].pc.NotifyWake?
  }

  lemma InvStep(s: State, t: nat)
    requires Inv(s) && Enabled(s, t)
    ensures Inv(Next(s, t))
    ensures s.flag ==> Next(s, t).flag
  {
    var s' := Next(s, t);
    assert PcInv(s, s.threads[t].pc);
    forall u: nat | u < |s'.threads|
      ensures PcInv(s', s'.threads[u].pc)
      ensures Holds(s'.threads[u].pc) <==> s'.holder == Some(u)
    {
      assert PcInv(s, s.threads[u].pc);
    }
  }

  lemma {:induction false} InvRun(s: State, schedule: seq<nat>)
    requires Inv(s) && Schedulable(s, schedule)
    ensures Inv(Run(s, schedule))
    ensures s.flag ==> Run(s, schedule).flag
    decreases |schedule|
  {
    if schedule != [] {
      InvStep(s, schedule[0]);
      InvRun(Next(s, schedule[0]), schedule[1..]);
    }
  }

  /** No lost wakeup, in any interleaving: when the flag is set and the mutex is free, no thread is
      asleep. At most one thread is inside the mutex. */
  lemma NoLostWakeup(s: State, schedule: seq<nat>)
    requires Initial(s) && Schedulable(s, schedule)
    ensures var r := Run(s, schedule);
            && (r.flag && r.holder.None? ==> forall t :: 0 <= t < |r.threads| ==> !r.threads[t].pc.Asleep?)
            && (forall t, u :: 0 <= t < u < |r.threads| ==> !Holds(r.threads[t].pc) || !Holds(r.threads[u].pc))
  {
    InvRun(s, schedule);
    var r := Run(s, schedule);
    assert forall t: nat :: t < |r.threads| ==> PcInv(r, r.threads[t].pc);
  }

  /** wait() returns only after some notify() has set the flag: an earlier step of the same run
      is that of a thread inside notify() setting it. */
  lemma WaitReturnsAfterNotify(s: State, schedule: seq<nat>, t: nat) returns (k: nat)
    requires Initial(s) && Schedulable(s, schedule) && t < |s.threads|
    requires Run(s, schedule).threads[t].pc.WaitDone?
    ensures k < |schedule| && Schedulable(s, schedule[..k])
    ensures Enabled(Run(s, schedule[..k]), schedule[k])
    ensures Run(s, schedule[..k]).threads[schedule[k]].pc.NotifySet?
  {
    InvRun(s, schedule);
    var r := Run(s, schedule);
    assert PcInv(r, r.threads[t].pc);
    k := FlagWasSet(s, schedule);
  }

  lemma {:induction false} FlagWasSet(s: State, schedule: seq<nat>) returns (k: nat)
    requires Schedulable(s, schedule) && !s.flag && Run(s, schedule).flag
    ensures k < |schedule| && Schedulable(s, schedule[..k])
    ensures Enabled(Run(s, schedule[..k]), schedule[k])
    ensures Run(s, schedule[..k]).threads[schedule[k]].pc.NotifySet?
    decreases |schedule|
  {
    if s.threads[schedule[0]].pc.NotifySet? {
      k := 0;
    } else {
      k := FlagWasSet(Next(s, schedule[0]), schedule[1..]);
      assert schedule[..k + 1][1..] == schedule[1..][..k];
      k := k + 1;
    }
  }

  // ----- spurious wakeups

  /** What happens if the wait condition may also wake a thread without wakeAll(). */
  datatype Occurrence = Regular(thread: nat) | Spurious(thread: nat)

  predicate Happens(s: State, e: Occurrence) {
    match e
    case Regular(t) => Enabled(s, t)
    case Spurious(t) => t < |s.threads| && s.threads[t].pc.Asleep?
  }

  function Following(s: State, e: Occurrence): (s': State)
    requires Happens(s, e)
    ensures |s'.threads| == |s.threads|
  {
    match e
    case Regular(t) => Next(s, t)
    case Spurious(t) => Goto(s, t, Relock)
  }

  ghost predicate Admissible(s: State, events: seq<Occurrence>)
    decreases |events|
  {
    events != [] ==> Happens(s, events[0]) && Admissible(Following(s, events[0]), events[1..])
  }

  ghost function Reached(s: State, events: seq<Occurrence>): (r: State)
    requires Admissible(s, events)
    ensures |r.threads| == |s.threads|
    decreases |events|
  {
    if events == [] then s else Reached(Following(s, events[0]), events[1..])
  }

  /** What holds of a thread that no spurious wakeup has woken. */
  ghost predicate Unspoiled(s: State, t: nat)
    requires t < |s.threads|
  {
    && (s.threads[t].pc in {Relock, WaitUnlock, WaitDone} ==> s.flag)
    && forall u: nat :: u < |s.threads| && s.threads[u].pc.NotifyWake? ==> s.flag
  }

  lemma UnspoiledFollowing(s: State, e: Occurrence, t: nat)
    requires t < |s.threads| && Unspoiled(s, t) && Happens(s, e) && e != Spurious(t)
    ensures Unspoiled(Following(s, e), t)
  {
  }

  lemma {:induction false} SpoilingWakeup(s: State, events: seq<Occurrence>, t: nat) returns (k: nat)
    requires t < |s.threads| && Unspoiled(s, t) && Admissible(s, events)
    requires Reached(s, events).threads[t].pc.WaitDone? && !Reached(s, events).flag
    ensures k < |events| && events[k] == Spurious(t)
    decreases |events|
  {
    if events[0] == Spurious(t) {
      k := 0;
    } else {
      UnspoiledFollowing(s, events[0], t);
      k := SpoilingWakeup(Following(s, events[0]), events[1..], t);
      k := k + 1;
    }
  }

  lemma InitialIsUnspoiled(s: State, t: nat)
    requires Initial(s) && t < |s.threads|
    ensures Unspoiled(s, t)
  {
  }

  /** wait() tests the flag once, not in a loop. It returns without the flag only to a thread that a
      spurious wakeup has woken ... */
  lemma EarlyReturnIsSpurious(s: State, events: seq<Occurrence>, t: nat)
    requires Initial(s) && t < |s.threads| && Admissible(s, events)
    requires Reached(s, events).threads[t].pc.WaitDone? && !Reached(s, events).flag
    ensures Spurious(t) in events
  {
    InitialIsUnspoiled(s, t);
    var k := SpoilingWakeup(s, events, t);
  }

  lemma TwoEvents(s: State, a: Occurrence, b: Occurrence)
    requires Happens(s, a) && Happens(Following(s, a), b)
    ensures Admissible(s, [a, b]) && Reached(s, [a, b]) == Following(Following(s, a), b)
  {
    assert [a, b][1..] == [b] && [b][1..] == [];
    var s1 := Following(s, a);
    assert Admissible(Following(s1, b), []) && Reached(Following(s1, b), []) == Following(s1, b);
    assert Admissible(s1, [b]) && Reached(s1, [b]) == Following(s1, b);
  }

  lemma {:induction false} OutcomeConcat(s: State, a: seq<Occurrence>, b: seq<Occurrence>)
    requires Admissible(s, a) && Admissible(Reached(s, a), b)
    ensures Admissible(s, a + b) && Reached(s, a + b) == Reached(Reached(s, a), b)
    decreases |a|
  {
    if a == [] {
      assert a + b == b;
    } else {
      assert (a + b)[1..] == a[1..] + b;
      OutcomeConcat(Following(s, a[0]), a[1..], b);
    }
  }

  /** ... and one is enough, in every reachable state in which a thread sleeps, unless a thread
      inside notify() has the mutex: wait() then returns although the flag has never been set. */
  lemma SpuriousWakeupReturnsEarly(s: State, schedule: seq<nat>, t: nat) returns (before: seq<Occurrence>)
    requires Initial(s) && Schedulable(s, schedule)
    requires var r := Run(s, schedule);
             && t < |r.threads| && r.threads[t].pc.Asleep? && !r.flag
             && (r.holder.Some? && r.holder.value < |r.threads| ==> !Notifier(r.threads[r.holder.value].pc))
    ensures |before| <= 1 && forall e :: e in before ==> e.Regular?
    ensures var r, events := Run(s, schedule), before + ([Spurious(t)] + [Regular(t), Regular(t)]);
            Admissible(r, events) && Reached(r, events).threads[t].pc.WaitDone? && !Reached(r, events).flag
  {
    InvRun(s, schedule);
    var r := Run(s, schedule);
    hide Run, Schedulable, Initial, Admissible, Reached;
    if r.holder.None? {
      WakeAndReturn(r, t);
      before := [];
      assert before + ([Spurious(t)] + [Regular(t), Regular(t)]) == [Spurious(t)] + [Regular(t), Regular(t)];
    } else {
      LetFallAsleep(r, t);
      before := [Regular(r.holder.value)];
    }
  }

  lemma OneEvent(s: State, e: Occurrence)
    requires Happens(s, e)
    ensures Admissible(s, [e]) && Reached(s, [e]) == Following(s, e)
  {
    assert [e][1..] == [];
    assert Admissible(Following(s, e), []) && Reached(Following(s, e), []) == Following(s, e);
  }

  lemma {:induction false} LetFallAsleep(s: State, t: nat)
    requires Inv(s) && t < |s.threads| && s.threads[t].pc.Asleep? && !s.flag && s.holder.Some?
    requires s.holder.value < |s.threads| ==> !Notifier(s.threads[s.holder.value].pc)
    ensures var events := [Regular(s.holder.value)] + ([Spurious(t)] + [Regular(t), Regular(t)]);
            Admissible(s, events) && Reached(s, events).threads[t].pc.WaitDone? && !Reached(s, events).flag
  {
    var h := s.holder.value;
    assert PcInv(s, s.threads[h].pc) && s.threads[h].pc.WaitTest?;
    hide Admissible, Reached;
    OneEvent(s, Regular(h));
    WakeAndReturn(Next(s, h), t);
    OutcomeConcat(s, [Regular(h)], [Spurious(t)] + [Regular(t), Regular(t)]);
  }

  lemma WakeAndReturn(s: State, t: nat)
    requires t < |s.threads| && s.threads[t].pc.Asleep? && !s.flag && s.holder.None?
    ensures var events := [Spurious(t)] + [Regular(t), Regular(t)];
            Admissible(s, events) && Reached(s, events).threads[t].pc.WaitDone? && !Reached(s, events).flag
  {
    hide Admissible, Reached;
    var s1 := Following(s, Spurious(t));
    OneEvent(s, Spurious(t));
    TwoEvents(s1, Regular(t), Regular(t));
    OutcomeConcat(s, [Spurious(t)], [Regular(t), Regular(t)]);
  }

  // ----- progress

  /** The steps a call still has ahead of it at most. */
  function Rank(pc: Pc): nat {
    match pc
    case WaitLock => 5
    case WaitTest => 4
    case NotifyLock => 4
    case Asleep => 3
    case NotifySet => 3
    case Relock => 2
    case NotifyWake => 2
    case WaitUnlock => 1
    case NotifyUnlock => 1
    case WaitDone => 0
    case NotifyDone => 0
  }

  function Ranks(threads: seq<Thread>): (r: seq<nat>)
    ensures |r| == |threads|
    ensures forall i :: 0 <= i < |r| ==> r[i] == Rank(threads[i].pc) + 6 * threads[i].again
  {
    seq(|threads|, i requires 0 <= i < |threads| => Rank(threads[i].pc) + 6 * threads[i].again)
  }

  function Sum(xs: seq<nat>): nat {
    if xs == [] then 0 else xs[0] + Sum(xs[1..])
  }

  lemma {:induction false} SumDrops(xs: seq<nat>, ys: seq<nat>, k: nat, d: nat)
    requires |xs| == |ys| && (forall i :: 0 <= i < |xs| ==> xs[i] <= ys[i])
    requires k < |xs| ==> xs[k] + d <= ys[k]
    ensures Sum(xs) + (if k < |xs| then d else 0) <= Sum(ys)
    decreases |xs|
  {
    if xs != [] {
      SumDrops(xs[1..], ys[1..], if k == 0 then |xs| else k - 1, d);
    }
  }

  /** The steps all calls together still have ahead of them at most. */
  function Remaining(s: State): nat {
    Sum(Ranks(s.threads))
  }

  lemma StepDecreases(s: State, t: nat)
    requires Enabled(s, t)
    ensures Remaining(Next(s, t)) < Remaining(s)
  {
    SumDrops(Ranks(Next(s, t).threads), Ranks(s.threads), t, 1);
  }

  /** No run is longer than Remaining. */
  lemma {:induction false} RunsAreFinite(s: State, schedule: seq<nat>)
    requires Schedulable(s, schedule)
    ensures |schedule| + Remaining(Run(s, schedule)) <= Remaining(s)
    decreases |schedule|
  {
    if schedule != [] {
      StepDecreases(s, schedule[0]);
      RunsAreFinite(Next(s, schedule[0]), schedule[1..]);
    }
  }

  ghost predicate Stuck(s: State) {
    forall t: nat :: !Enabled(s, t)
  }

  lemma {:induction false} RolesStay(s: State, schedule: seq<nat>, t: nat)
    requires Schedulable(s, schedule) && t < |s.threads|
    ensures Notifier(Run(s, schedule).threads[t].pc) == Notifier(s.threads[t].pc)
    decreases |schedule|
  {
    if schedule != [] {
      RolesStay(Next(s, schedule[0]), schedule[1..], t);
    }
  }

  /** A run that cannot go on has ended well: if anyone ever calls notify(), every call of every
      thread has returned. Since no run is endless, every wait() returns under any scheduler. */
  lemma EveryCallReturns(s: State, schedule: seq<nat>, notifier: nat)
    requires Initial(s) && Schedulable(s, schedule) && Stuck(Run(s, schedule))
    requires notifier < |s.threads| && s.threads[notifier].pc.NotifyLock?
    ensures var r := Run(s, schedule);
            forall t :: 0 <= t < |r.threads| ==> Returned(r.threads[t].pc) && r.threads[t].again == 0
  {
    InvRun(s, schedule);
    RolesStay(s, schedule, notifier);
    var r := Run(s, schedule);
    assert forall t: nat :: t < |r.threads| ==> PcInv(r, r.threads[t].pc);
    assert r.holder.Some? ==> Enabled(r, r.holder.value);
    assert !Enabled(r, notifier);
    forall t: nat | t < |r.threads|
      ensures Returned(r.threads[t].pc) && r.threads[t].again == 0
    {
      assert !Enabled(r, t);
    }
  }

  /** Without a notify(), a run can only get stuck with threads asleep, never in the mutex. */
  lemma StuckMeansUnnotified(s: State, schedule: seq<nat>)
    requires Initial(s) && Schedulable(s, schedule) && Stuck(Run(s, schedule))
    ensures var r := Run(s, schedule);
            && r.holder.None?
            && forall t: nat :: t < |r.threads| ==>
                 if r.threads[t].pc.Asleep? then !r.flag
                 else Returned(r.threads[t].pc) && r.threads[t].again == 0
  {
    InvRun(s, schedule);
    var r := Run(s, schedule);
    assert r.holder.Some? ==> Enabled(r, r.holder.value);
    forall t: nat | t < |r.threads|
      ensures if r.threads[t].pc.Asleep? then !r.flag
              else Returned(r.threads[t].pc) && r.threads[t].again == 0
    {
      assert !Enabled(r, t);
      assert PcInv(r, r.threads[t].pc);
    }
  }

  /** The steps of its own that a waiting thread needs once the flag is set. */
  function OwnSteps(pc: Pc): nat {
    match pc
    case WaitLock => 3
    case WaitTest => 2
    case Asleep => 2
    case Relock => 2
    case WaitUnlock => 1
    case _ => 0
  }

  /** The steps after which the holder of the mutex has released it, once the flag is set. */
  function HoldSteps(pc: Pc): nat {
    match pc
    case NotifySet => 3
    case NotifyWake => 2
    case NotifyUnlock => 1
    case WaitTest => 2
    case WaitUnlock => 1
    case _ => 0
  }

  /** Once the flag is set, a thread in wait() either makes a step that brings it closer to
      returning, or the thread that holds the mutex makes one that brings it closer to releasing
      it; no step of another thread sets the waiting thread back. */
  lemma NotifiedProgress(s: State, t: nat, u: nat)
    requires Inv(s) && s.flag && t < |s.threads|
    requires 0 < OwnSteps(s.threads[t].pc) && Enabled(s, u)
    ensures t == u ==> OwnSteps(Next(s, u).threads[t].pc) < OwnSteps(s.threads[t].pc)
    ensures t != u ==> OwnSteps(Next(s, u).threads[t].pc) == OwnSteps(s.threads[t].pc)
    ensures s.holder == Some(u) ==> HoldSteps(Next(s, u).threads[u].pc) < HoldSteps(s.threads[u].pc)
    ensures !Enabled(s, t) ==>
              && s.holder.Some? && Enabled(s, s.holder.value)
              && 0 < HoldSteps(s.threads[s.holder.value].pc)
  {
    assert PcInv(s, s.threads[t].pc);
  }

  /** The steps of another thread before it has released the mutex. */
  function Blocking(s: State, t: nat): nat {
    if s.holder.Some? && s.holder.value != t && s.holder.value < |s.threads|
    then HoldSteps(s.threads[s.holder.value].pc) else 0
  }

  /** Every step is one of thread t, which is in wait() before it, or of the holder of the mutex. */
  ghost predicate Serves(s: State, t: nat, schedule: seq<nat>)
    requires t < |s.threads|
    decreases |schedule|
  {
    schedule != [] ==>
      && 0 < OwnSteps(s.threads[t].pc)
      && (schedule[0] == t || s.holder == Some(schedule[0]))
      && Enabled(s, schedule[0])
      && Serves(Next(s, schedule[0]), t, schedule[1..])
  }

  lemma ServingStep(s: State, t: nat, u: nat)
    requires Inv(s) && s.flag && t < |s.threads| && 0 < OwnSteps(s.threads[t].pc)
    requires (u == t || s.holder == Some(u)) && Enabled(s, u)
    ensures var s' := Next(s, u);
            OwnSteps(s'.threads[t].pc) + Blocking(s', t) < OwnSteps(s.threads[t].pc) + Blocking(s, t)
  {
    assert PcInv(s, s.threads[t].pc);
  }

  /** After a notify() every waiting thread returns within six steps of its own and of the holders
      of the mutex: no run of such steps is longer while it waits, and one that ends before the
      thread has returned can go on. */
  lemma {:induction false} ReturnsWithinSix(s: State, t: nat, schedule: seq<nat>)
    requires Inv(s) && s.flag && t < |s.threads| && Serves(s, t, schedule)
    ensures OwnSteps(s.threads[t].pc) + Blocking(s, t) <= 6
    ensures Schedulable(s, schedule)
    ensures var r := Run(s, schedule);
            && |schedule| + OwnSteps(r.threads[t].pc) + Blocking(r, t) <= OwnSteps(s.threads[t].pc) + Blocking(s, t)
            && (0 < OwnSteps(r.threads[t].pc) ==>
                  Enabled(r, t) || (r.holder.Some? && Enabled(r, r.holder.value)))
    decreases |schedule|
  {
    assert PcInv(s, s.threads[t].pc);
    if schedule != [] {
      ServingStep(s, t, schedule[0]);
      InvStep(s, schedule[0]);
      ReturnsWithinSix(Next(s, schedule[0]), t, schedule[1..]);
    }
  }

  /** Such a run to the return of the thread exists. */
  lemma {:induction false} ReturnExists(s: State, t: nat) returns (schedule: seq<nat>)
    requires Inv(s) && s.flag && t < |s.threads| && !Notifier(s.threads[t].pc)
    ensures Serves(s, t, schedule) && Schedulable(s, schedule) && Run(s, schedule).threads[t].pc.WaitDone?
    decreases OwnSteps(s.threads[t].pc) + Blocking(s, t)
  {
    assert PcInv(s, s.threads[t].pc);
    if s.threads[t].pc.WaitDone? {
      schedule := [];
    } else {
      var u := if Enabled(s, t) then t else s.holder.value;
      ServingStep(s, t, u);
      InvStep(s, u);
      var rest := ReturnExists(Next(s, u), t);
      schedule := [u] + rest;
      assert schedule[1..] == rest;
    }
  }

  /** Thread t is in wait() before every step. */
  ghost predicate Waits(s: State, t: nat, schedule: seq<nat>)
    requires t < |s.threads|
    decreases |schedule|
  {
    schedule != [] ==>
      0 < OwnSteps(s.threads[t].pc) && Enabled(s, schedule[0]) && Waits(Next(s, schedule[0]), t, schedule[1..])
  }

  function StepsOf(schedule: seq<nat>, t: nat): nat {
    if schedule == [] then 0 else (if schedule[0] == t then 1 else 0) + StepsOf(schedule[1..], t)
  }

  /** Whatever the other threads do meanwhile, a waiting thread makes at most three steps of its
      own after a notify(). */
  lemma {:induction false} OwnStepsAreBounded(s: State, t: nat, schedule: seq<nat>)
    requires Inv(s) && s.flag && t < |s.threads| && Waits(s, t, schedule)
    ensures Schedulable(s, schedule)
    ensures StepsOf(schedule, t) + OwnSteps(Run(s, schedule).threads[t].pc) <= OwnSteps(s.threads[t].pc) <= 3
    decreases |schedule|
  {
    if schedule != [] {
      NotifiedProgress(s, t, schedule[0]);
      InvStep(s, schedule[0]);
      OwnStepsAreBounded(Next(s, schedule[0]), t, schedule[1..]);
    }
  }

  // ----- uninterrupted calls

  lemma OneStep(s: State, t: nat)
    requires Enabled(s, t)
    ensures Schedulable(s, [t]) && Run(s, [t]) == Next(s, t)
  {
    assert [t][1..] == [];
    assert Schedulable(Next(s, t), []) && Run(Next(s, t), []) == Next(s, t);
  }

  lemma TwoSteps(s: State, t: nat)
    requires Enabled(s, t) && Enabled(Next(s, t), t)
    ensures Schedulable(s, [t, t]) && Run(s, [t, t]) == Next(Next(s, t), t)
  {
    hide Next;
    OneStep(Next(s, t), t);
    assert [t, t][1..] == [t];
  }

  lemma {:induction false} WaitRun(s: State, t: nat)
    requires Enabled(s, t) && s.threads[t].pc.WaitLock?
    ensures !s.flag ==> Schedulable(s, [t, t]) && Run(s, [t, t]) == Goto(s, t, Asleep)
    ensures s.flag ==> Schedulable(s, [t, t, t]) && Run(s, [t, t, t]) == Goto(s, t, WaitDone)
  {
    var s1 := Next(s, t);
    if s.flag {
      TwoSteps(s1, t);
      assert [t, t, t][1..] == [t, t];
    } else {
      TwoSteps(s, t);
    }
  }

  lemma {:induction false} NotifyRun(s: State, t: nat)
    requires Enabled(s, t) && s.threads[t].pc.NotifyLock?
    ensures Schedulable(s, [t, t, t, t])
    ensures Run(s, [t, t, t, t]) == Goto(s.(flag := true, threads := Woken(s.threads)), t, NotifyDone)
  {
    var s1 := Next(s, t);
    var s2 := Next(s1, t);
    TwoSteps(s2, t);
    assert [t, t, t][1..] == [t, t] && [t, t, t, t][1..] == [t, t, t];
    assert Schedulable(s1, [t, t, t]) && Run(s1, [t, t, t]) == Run(s2, [t, t]);
    var r := Run(s, [t, t, t, t]);
    assert r.threads == Goto(s.(flag := true, threads := Woken(s.threads)), t, NotifyDone).threads;
  }

  // ----- the object

  class SharedWaiter {
    var flag: bool
    var holder: Option<nat>
    var threads: seq<Thread>

    function Snapshot(): State
      reads this
    {
      State(flag, holder, threads)
    }

    constructor (threads: seq<Thread>)
      ensures Snapshot() == State(false, None, threads)
    {
      flag := false;
      holder := None;
      this.threads := threads;
    }

    /** notify() without interruption. */
    method Notify(t: nat)
      requires Enabled(Snapshot(), t) && threads[t].pc.NotifyLock?
      modifies this
      ensures Schedulable(old(Snapshot()), [t, t, t, t])
      ensures Snapshot() == Run(old(Snapshot()), [t, t, t, t])
      ensures flag && forall u :: 0 <= u < |threads| ==> !threads[u].pc.Asleep?
    {
      NotifyRun(Snapshot(), t);
      holder := Some(t);
      flag := true;
      WakeAll();
      holder := None;
      threads := threads[t := threads[t].(pc := NotifyDone)];
    }

    /** wait() up to its return, or up to falling asleep. */
    method Wait(t: nat) returns (returned: bool)
      requires Enabled(Snapshot(), t) && threads[t].pc.WaitLock?
      modifies this
      ensures returned == old(flag)
      ensures var run := if returned then [t, t, t] else [t, t];
              Schedulable(old(Snapshot()), run) && Snapshot() == Run(old(Snapshot()), run)
    {
      WaitRun(Snapshot(), t);
      holder := Some(t);
      returned := flag;
      if flag {
        threads := threads[t := threads[t].(pc := WaitDone)];
      } else {
        threads := threads[t := threads[t].(pc := Asleep)];
      }
      holder := None;
    }

    /** The rest of wait() after a wakeup. */
    method Return(t: nat)
      requires Enabled(Snapshot(), t) && threads[t].pc.Relock?
      modifies this
      ensures Schedulable(old(Snapshot()), [t, t]) && Snapshot() == Run(old(Snapshot()), [t, t])
    {
      TwoSteps(Snapshot(), t);
      holder := Some(t);
      threads := threads[t := threads[t].(pc := WaitDone)];
      holder := None;
    }

    /** One atomic step of thread t. */
    method Advance(t: nat)
      requires Enabled(Snapshot(), t)
      modifies this
      ensures Snapshot() == Next(old(Snapshot()), t)
    {
      var pc := threads[t].pc;
      match pc {
        case NotifyLock =>
          holder := Some(t);
          pc := NotifySet;
        case NotifySet =>
          flag := true;
          pc := NotifyWake;
        case NotifyWake =>
          WakeAll();
          pc := NotifyUnlock;
        case NotifyUnlock =>
          holder := None;
          pc := NotifyDone;
        case WaitLock =>
          holder := Some(t);
          pc := WaitTest;
        case WaitTest =>
          if flag {
            pc := WaitUnlock;
          } else {
            holder := None;
            pc := Asleep;
          }
        case Relock =>
          holder := Some(t);
          pc := WaitUnlock;
        case WaitUnlock =>
          holder := None;
          pc := WaitDone;
        case NotifyDone =>
          threads := threads[t := Thread(NotifyLock, threads[t].again - 1)];
          return;
        case WaitDone =>
          threads := threads[t := Thread(WaitLock, threads[t].again - 1)];
          return;
        case Asleep =>
          assert false;
      }
      threads := threads[t := threads[t].(pc := pc)];
    }

    method WakeAll()
      modifies this`threads
      ensures threads == Woken(old(threads))
    {
      for i := 0 to |threads|
        invariant |threads| == |old(threads)|
        invariant forall j :: 0 <= j < i ==> threads[j] == Woken(old(threads))[j]
        invariant forall j :: i <= j < |threads| ==> threads[j] == old(threads)[j]
      {
        if threads[i].pc.Asleep? {
          threads := threads[i := threads[i].(pc := Relock)];
        }
      }
    }
  }
}
