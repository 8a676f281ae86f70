/** The queue between the reading and the sending thread: every interleaving of the single producer
    with the consumer, in atomic queue operations. */
module SerialQueue {
  import opened Sequences

  const CAPACITY := 10

  /** A line is known by its number in the order of reading. */
  type Id = nat

  datatype Producer =
    | Reading
    | Testing(line: Id)     // has read a line, about to test whether the queue is full
    | Discarding(line: Id)  // has found it full, about to get (and throw away) a line
    | Putting(line: Id)     // has found it not full, about to put the line

  datatype Consumer =
    | Listening          // waiting for a connection
    | Taking             // in a handler, about to get a line
    | Holding(line: Id)  // about to send it
    | Marking            // about to mark it as done

  datatype State = State(
    lines: seq<string>,    // every line read that is not empty
    producer: Producer,
    consumer: Consumer,
    queue: seq<Id>,
    sent: seq<Id>,
    lost: seq<Id>,         // taken, but sending failed
    skipped: seq<Id>,      // taken, but empty
    discarded: seq<Id>,    // thrown away from the queue
    dropped: seq<Id>)      // read while the queue was full, and never put

  datatype Action =
    | Read(text: string)
    | Test
    | Discard
    | Put
    | Connect
    | Take
    | Send(ok: bool)
    | TaskDone

  /** Getting blocks on an empty queue, putting on a full one. */
  predicate Enabled(s: State, a: Action) {
    match a
    case Read(_) => s.producer.Reading?
    case Test => s.producer.Testing?
    case Discard => s.producer.Discarding? && s.queue != []
    case Put => s.producer.Putting? && |s.queue| < CAPACITY
    case Connect => s.consumer.Listening?
    case Take => s.consumer.Taking? && s.queue != []
    case Send(_) => s.consumer.Holding? && s.consumer.line < |s.lines|
    case TaskDone => s.consumer.Marking?
  }

  function Next(s: State, a: Action): State
    requires Enabled(s, a)
  {
    match a
    case Read(text) =>
      if text == "" then s else s.(lines := s.lines + [text], producer := Testing(|s.lines|))
    case Test =>
      s.(producer := if |s.queue| >= CAPACITY then Discarding(s.producer.line) else Putting(s.producer.line))
    case Discard =>
      s.(producer := Reading, queue := s.queue[1..], discarded := s.discarded + [s.queue[0]],
         dropped := s.dropped + [s.producer.line])
    case Put => s.(producer := Reading, queue := s.queue + [s.producer.line])
    case Connect => s.(consumer := Taking)
    case Take => s.(consumer := Holding(s.queue[0]), queue := s.queue[1..])
    case Send(ok) =>
      var line := s.consumer.line;
      if s.lines[line] == "" then s.(consumer := Marking, skipped := s.skipped + [line])
      else if ok then s.(consumer := Marking, sent := s.sent + [line])
      else s.(consumer := Listening, lost := s.lost + [line])
    case TaskDone => s.(consumer := Taking)
  }

  predicate ByConsumer(a: Action) {
    a.Connect? || a.Take? || a.Send? || a.TaskDone?
  }

  const INITIAL := State([], Reading, Listening, [], [], [], [], [], [])

  ghost predicate Possible(s: State, run: seq<Action>)
    decreases |run|
  {
    run != [] ==> Enabled(s, run[0]) && Possible(Next(s, run[0]), run[1..])
  }

  ghost function After(s: State, run: seq<Action>): State
    requires Possible(s, run)
    decreases |run|
  {
    if run == [] then s else After(Next(s, run[0]), run[1..])
  }

  // ----- the invariant

  /** The line the producer has in hand, and the one the consumer has. */
  function Pending(s: State): seq<Id> {
    if s.producer.Reading? then [] else [s.producer.line]
  }

  function Held(s: State): seq<Id> {
    if s.consumer.Holding? then [s.consumer.line] else []
  }

  /** The lines that are sent, or still may be, in their order. */
  function Pipeline(s: State): seq<Id> {
    s.sent + Held(s) + s.queue + Pending(s)
  }

  /** In how many places line id is. */
  ghost function Places(s: State, id: Id): nat {
    Occ(s.sent, id) + Occ(Held(s), id) + Occ(s.queue, id) + Occ(Pending(s), id) +
    Occ(s.lost, id) + Occ(s.skipped, id) + Occ(s.discarded, id) + Occ(s.dropped, id)
  }

  ghost predicate Conserved(s: State) {
    forall id: Id :: Places(s, id) == if id < |s.lines| then 1 else 0
  }

  predicate Sound(s: State) {
    && |s.queue| <= CAPACITY
    && (s.producer.Putting? ==> |s.queue| < CAPACITY)
    && (forall i :: 0 <= i < |s.lines| ==> s.lines[i] != "")
    && s.skipped == []
  }

  ghost predicate Inv(s: State) {
    Ordered(Pipeline(s), |s.lines|) && Conserved(s) && Sound(s)
  }

  /** A step moves lines from place to place; only reading adds one, the next one. */
  lemma PlacesStep(s: State, a: Action, id: Id)
    requires Enabled(s, a)
    ensures var s' := Next(s, a);
            && Places(s', id) == Places(s, id) + (if |s.lines| <= id < |s'.lines| then 1 else 0)
            && |s.lines| <= |s'.lines|
  {
    if ByConsumer(a) {
      ConsumerPlaces(s, a, id);
    } else {
      ProducerPlaces(s, a, id);
    }
  }

  lemma ProducerPlaces(s: State, a: Action, id: Id)
    requires Enabled(s, a) && !ByConsumer(a)
    ensures var s' := Next(s, a);
            && Places(s', id) == Places(s, id) + (if |s.lines| <= id < |s'.lines| then 1 else 0)
            && |s.lines| <= |s'.lines|
  {
    hide Occ;
    match a {
      case Read(_) =>
        OccAppend([], |s.lines|, id);
      case Discard =>
        OccAppend(s.dropped, s.producer.line, id);
        OccFront(s.queue, id);
        OccAppend(s.discarded, s.queue[0], id);
      case Put =>
        OccAppend(s.queue, s.producer.line, id);
      case _ =>
    }
  }

  lemma ConsumerPlaces(s: State, a: Action, id: Id)
    requires Enabled(s, a) && ByConsumer(a)
    ensures Places(Next(s, a), id) == Places(s, id) && Next(s, a).lines == s.lines
  {
    hide Occ;
    match a {
      case Take =>
        OccAppend([], 0, id);
        OccFront(s.queue, id);
      case Send(_) =>
        OccAppend(s.sent, s.consumer.line, id);
        OccAppend(s.lost, s.consumer.line, id);
        OccAppend(s.skipped, s.consumer.line, id);
      case _ =>
    }
  }

  lemma ConservedStep(s: State, a: Action)
    requires Conserved(s) && Enabled(s, a)
    ensures Conserved(Next(s, a))
  {
    hide Places, Next, Enabled;
    forall id: Id
      ensures Places(Next(s, a), id) == if id < |Next(s, a).lines| then 1 else 0
    {
      PlacesStep(s, a, id);
    }
  }

  lemma ProducerOrders(s: State, a: Action)
    requires Ordered(Pipeline(s), |s.lines|) && Enabled(s, a) && !ByConsumer(a)
    ensures Ordered(Pipeline(Next(s, a)), |Next(s, a).lines|)
  {
    hide Ordered;
    var p, p' := Pipeline(s), Pipeline(Next(s, a));
    if a.Discard? {
      var k := |s.sent| + |Held(s)|;
      var q := p[..|p| - 1];
      OrderedWithout(p, |p| - 1, |s.lines|);
      assert p[..|p| - 1] + p[|p|..] == q;
      OrderedWithout(q, k, |s.lines|);
      assert p' == q[..k] + q[k + 1..];
    } else if a.Read? && a.text != "" {
      OrderedAppend(p, |s.lines|);
      assert p' == p + [|s.lines|];
    } else {
      assert p' == p;
    }
  }

  lemma ConsumerOrders(s: State, a: Action)
    requires Ordered(Pipeline(s), |s.lines|) && Enabled(s, a) && ByConsumer(a)
    ensures Ordered(Pipeline(Next(s, a)), |s.lines|)
  {
    hide Ordered;
    if a.Take? {
      TakeKeepsPipeline(s);
    } else if a.Send? {
      SendPipeline(s, a.ok);
      hide Pipeline;
      OrderedWithout(Pipeline(s), |s.sent|, |s.lines|);
    } else {
      assert Pipeline(Next(s, a)) == Pipeline(s);
    }
  }

  lemma TakeKeepsPipeline(s: State)
    requires Enabled(s, Take)
    ensures Pipeline(Next(s, Take)) == Pipeline(s)
  {
    assert s.queue == [s.queue[0]] + s.queue[1..];
  }

  /** A line that is sent stays in the pipeline, another one leaves it. */
  lemma SendPipeline(s: State, ok: bool)
    requires Enabled(s, Send(ok))
    ensures var p, k := Pipeline(s), |s.sent|;
            && k < |p|
            && Pipeline(Next(s, Send(ok))) ==
               if SentText(s, Send(ok)) == [] then p[..k] + p[k + 1..] else p
  {
    var rest := s.queue + Pending(s);
    assert Pipeline(s) == s.sent + [s.consumer.line] + rest;
  }

  lemma InvStep(s: State, a: Action)
    requires Inv(s) && Enabled(s, a)
    ensures Inv(Next(s, a))
  {
    SoundStep(s, a);
    hide Pipeline, Ordered, Conserved, Sound;
    ConservedStep(s, a);
    if ByConsumer(a) {
      ConsumerOrders(s, a);
    } else {
      ProducerOrders(s, a);
    }
  }

  lemma SoundStep(s: State, a: Action)
    requires Sound(s) && Enabled(s, a)
    ensures Sound(Next(s, a))
  {
  }

  lemma InitialInv()
    ensures Inv(INITIAL)
  {
    assert Pipeline(INITIAL) == [];
  }

  lemma HeldIsRead(s: State)
    requires Inv(s) && s.consumer.Holding?
    ensures s.consumer.line < |s.lines|
  {
    assert Pipeline(s)[|s.sent|] == s.consumer.line;
  }

  lemma {:induction false} InvRun(s: State, run: seq<Action>)
    requires Inv(s) && Possible(s, run)
    ensures Inv(After(s, run))
    decreases |run|
  {
    hide Inv, Enabled, Next;
    if run != [] {
      InvStep(s, run[0]);
      InvRun(Next(s, run[0]), run[1..]);
    }
  }

  // ----- what every run keeps

  /** The queue never exceeds its capacity, and putting never blocks. */
  lemma PutNeverBlocks(run: seq<Action>)
    requires Possible(INITIAL, run)
    ensures var s := After(INITIAL, run);
            |s.queue| <= 10 && (s.producer.Putting? ==> Enabled(s, Put))
  {
    InitialInv();
    InvRun(INITIAL, run);
  }

  /** The texts that are read in a run, without the empty ones, in order. */
  function ReadTexts(run: seq<Action>): seq<string> {
    if run == [] then []
    else (if run[0].Read? && run[0].text != "" then [run[0].text] else []) + ReadTexts(run[1..])
  }

  /** The text that an action sends, if any. */
  function SentText(s: State, a: Action): seq<string>
    requires Enabled(s, a)
  {
    if a.Send? && a.ok && s.lines[s.consumer.line] != "" then [s.lines[s.consumer.line]] else []
  }

  /** The texts that are sent in a run, in order. */
  ghost function SentTexts(s: State, run: seq<Action>): seq<string>
    requires Possible(s, run)
    decreases |run|
  {
    if run == [] then [] else SentText(s, run[0]) + SentTexts(Next(s, run[0]), run[1..])
  }

  /** Line k is the text that was read as the k-th one. */
  lemma {:induction false} LinesAreRead(s: State, run: seq<Action>)
    requires Possible(s, run)
    ensures After(s, run).lines == s.lines + ReadTexts(run)
    decreases |run|
  {
    if run != [] {
      LinesAreRead(Next(s, run[0]), run[1..]);
    }
  }

  lemma SendsALine(s: State, a: Action) returns (ids: seq<Id>)
    requires Enabled(s, a)
    ensures Next(s, a).sent == s.sent + ids && |ids| == |SentText(s, a)|
    ensures forall i :: 0 <= i < |ids| ==> ids[i] < |s.lines| && s.lines[ids[i]] == SentText(s, a)[i]
    ensures s.lines <= Next(s, a).lines
  {
    ids := if SentText(s, a) == [] then [] else [s.consumer.line];
  }

  /** The lines sent in a run hold the texts sent. */
  lemma {:induction false} SentAreLines(s: State, run: seq<Action>) returns (ids: seq<Id>)
    requires Possible(s, run)
    ensures After(s, run).sent == s.sent + ids && |ids| == |SentTexts(s, run)|
    ensures Hold(After(s, run).lines, ids, SentTexts(s, run))
    ensures s.lines <= After(s, run).lines
    decreases |run|
  {
    hide Next, Enabled, SentText;
    if run == [] {
      ids := [];
    } else {
      var s' := Next(s, run[0]);
      var first := SendsALine(s, run[0]);
      var rest := SentAreLines(s', run[1..]);
      ids := first + rest;
      assert s'.sent + rest == s.sent + ids;
    }
  }

  /** The lines of the given numbers hold the texts. */
  ghost predicate Hold(lines: seq<string>, ids: seq<Id>, texts: seq<string>)
    requires |ids| == |texts|
  {
    forall i :: 0 <= i < |ids| ==> ids[i] < |lines| && lines[ids[i]] == texts[i]
  }

  /** The texts sent are texts read, in the order of reading, none of them twice, and no line is ever
      found empty. */
  lemma SentInOrder(run: seq<Action>) returns (ids: seq<nat>)
    requires Possible(INITIAL, run)
    ensures Ordered(ids, |ReadTexts(run)|)
    ensures |ids| == |SentTexts(INITIAL, run)| && Hold(ReadTexts(run), ids, SentTexts(INITIAL, run))
    ensures After(INITIAL, run).lines == ReadTexts(run) && After(INITIAL, run).sent == ids
    ensures After(INITIAL, run).skipped == []
  {
    SentOrdered(run);
    InitialIsEmpty();
    hide *;
    LinesAreRead(INITIAL, run);
    ids := SentAreLines(INITIAL, run);
    assert [] + ReadTexts(run) == ReadTexts(run) && [] + ids == ids;
  }

  lemma SentOrdered(run: seq<Action>)
    requires Possible(INITIAL, run)
    ensures var s := After(INITIAL, run); Ordered(s.sent, |s.lines|) && s.skipped == []
  {
    InitialInv();
    InvRun(INITIAL, run);
    SentIsOrdered(After(INITIAL, run));
  }

  lemma InitialIsEmpty()
    ensures INITIAL.lines == [] && INITIAL.sent == []
  {
  }

  /** Where a line is thrown away, it is the oldest one queued, and the line just read is dropped. */
  lemma ThrowsAwayTheOldest(run: seq<Action>)
    requires Possible(INITIAL, run) && Enabled(After(INITIAL, run), Discard)
    ensures var s := After(INITIAL, run);
            var s' := Next(s, Discard);
            && s'.dropped == s.dropped + Pending(s) && Pending(s') == []
            && s.queue == s'.discarded[|s.discarded|..] + s'.queue && s.discarded <= s'.discarded
            && |s'.queue| == |s.queue| - 1
            && (forall id :: id in s'.queue ==> s'.discarded[|s.discarded|] < id)
  {
    InitialInv();
    InvRun(INITIAL, run);
    hide *;
    QueueIsOrdered(After(INITIAL, run));
    DiscardsTheFirst(After(INITIAL, run));
  }

  lemma DiscardsTheFirst(s: State)
    requires Enabled(s, Discard) && Ordered(s.queue, |s.lines|)
    ensures var s' := Next(s, Discard);
            && s'.dropped == s.dropped + Pending(s) && Pending(s') == []
            && s.queue == s'.discarded[|s.discarded|..] + s'.queue && s.discarded <= s'.discarded
            && |s'.queue| == |s.queue| - 1
            && (forall id :: id in s'.queue ==> s'.discarded[|s.discarded|] < id)
  {
  }

  lemma QueueIsOrdered(s: State)
    requires Inv(s)
    ensures Ordered(s.queue, |s.lines|)
  {
    var p, k := Pipeline(s), |s.sent| + |Held(s)|;
    assert forall i :: 0 <= i < |s.queue| ==> p[k + i] == s.queue[i];
  }

  lemma SentIsOrdered(s: State)
    requires Inv(s)
    ensures Ordered(s.sent, |s.lines|)
  {
    var p := Pipeline(s);
    assert forall i :: 0 <= i < |s.sent| ==> p[i] == s.sent[i];
  }

  /** Conservation: every line read is in exactly one place. */
  lemma EveryLineIsSomewhere(run: seq<Action>, id: Id)
    requires Possible(INITIAL, run) && id < |After(INITIAL, run).lines|
    ensures var s := After(INITIAL, run);
            multiset(s.sent)[id] + multiset(s.lost)[id] + multiset(s.discarded)[id] + multiset(s.dropped)[id]
            + multiset(s.queue)[id] + multiset(Held(s))[id] + multiset(Pending(s))[id] == 1
  {
    InitialInv();
    InvRun(INITIAL, run);
    var s := After(INITIAL, run);
    assert Places(s, id) == 1;
    OccAppend([], 0, id);
  }

  // ----- blocking

  ghost predicate Stuck(s: State) {
    forall a: Action :: !Enabled(s, a)
  }

  /** The program hangs exactly when the producer is to throw away a line of a queue that the
      consumer has emptied since the test, while the consumer waits for the producer. */
  lemma HangsExactly(run: seq<Action>)
    requires Possible(INITIAL, run)
    ensures var s := After(INITIAL, run);
            Stuck(s) <==> s.producer.Discarding? && s.queue == [] && s.consumer.Taking?
  {
    hide *;
    InitialInv();
    InvRun(INITIAL, run);
    var s := After(INITIAL, run);
    if s.consumer.Holding? {
      HeldIsRead(s);
    }
    SoundOf(s);
    if Stuck(s) {
      StuckMeans(s);
    }
    if s.producer.Discarding? && s.queue == [] && s.consumer.Taking? {
      BothWait(s);
    }
  }

  lemma SoundOf(s: State)
    requires Inv(s)
    ensures Sound(s)
  {
  }

  lemma BothWait(s: State)
    requires s.producer.Discarding? && s.queue == [] && s.consumer.Taking?
    ensures Stuck(s)
  {
  }

  lemma StuckMeans(s: State)
    requires Stuck(s) && Sound(s) && (s.consumer.Holding? ==> s.consumer.line < |s.lines|)
    ensures s.producer.Discarding? && s.queue == [] && s.consumer.Taking?
  {
    assert !Enabled(s, Read("")) && !Enabled(s, Test) && !Enabled(s, Discard) && !Enabled(s, Put);
    assert !Enabled(s, Connect) && !Enabled(s, Take) && !Enabled(s, Send(true)) && !Enabled(s, TaskDone);
  }

  function Takes(run: seq<Action>): nat {
    if run == [] then 0 else (if run[0].Take? then 1 else 0) + Takes(run[1..])
  }

  lemma {:induction false} TakesShrinkTheQueue(s: State, run: seq<Action>)
    requires s.producer.Discarding? && Possible(s, run)
    requires forall i :: 0 <= i < |run| ==> ByConsumer(run[i])
    ensures After(s, run).producer == s.producer
    ensures |After(s, run).queue| + Takes(run) == |s.queue|
    decreases |run|
  {
    if run != [] {
      TakesShrinkTheQueue(Next(s, run[0]), run[1..]);
    }
  }

  /** A line is to be thrown away exactly if ten are queued at the test, and after that the get finds
      a line exactly until the consumer has taken all ten. */
  lemma GetBlocksAfterTenTakes(run: seq<Action>, more: seq<Action>)
    requires Possible(INITIAL, run) && Enabled(After(INITIAL, run), Test)
    requires forall i :: 0 <= i < |more| ==> ByConsumer(more[i])
    requires Possible(Next(After(INITIAL, run), Test), more)
    ensures var s := Next(After(INITIAL, run), Test);
            && (s.producer.Discarding? <==> |s.queue| == 10)
            && (s.producer.Discarding? ==>
                  (Enabled(After(s, more), Discard) <==> Takes(more) < 10))
  {
    PutNeverBlocks(run);
    var s := Next(After(INITIAL, run), Test);
    if s.producer.Discarding? {
      TakesShrinkTheQueue(s, more);
    }
  }

  lemma {:induction false} RunConcat(s: State, a: seq<Action>, b: seq<Action>)
    requires Possible(s, a) && Possible(After(s, a), b)
    ensures Possible(s, a + b) && After(s, a + b) == After(After(s, a), b)
    decreases |a|
  {
    if a == [] {
      assert a + b == b;
    } else {
      RunConcat(Next(s, a[0]), a[1..], b);
      assert (a + b)[1..] == a[1..] + b;
    }
  }

  function Filled(n: nat): State {
    State(seq(n, i => "x"), Reading, Listening, UpTo(n), [], [], [], [], [])
  }

  lemma {:induction false} Fill(n: nat) returns (run: seq<Action>)
    requires n <= CAPACITY
    ensures Possible(INITIAL, run) && After(INITIAL, run) == Filled(n)
  {
    if n == 0 {
      run := [];
      assert Filled(0) == INITIAL;
    } else {
      var before := Fill(n - 1);
      var s := Filled(n - 1);
      var s1 := Next(s, Read("x"));
      var s2 := Next(s1, Test);
      assert Next(s2, Put) == Filled(n);
      Three(s, Read("x"), Test, Put);
      RunConcat(INITIAL, before, [Read("x"), Test, Put]);
      run := before + [Read("x"), Test, Put];
    }
  }

  lemma Three(s: State, a: Action, b: Action, c: Action)
    requires Enabled(s, a) && Enabled(Next(s, a), b) && Enabled(Next(Next(s, a), b), c)
    ensures Possible(s, [a, b, c]) && After(s, [a, b, c]) == Next(Next(Next(s, a), b), c)
  {
    assert [a, b, c][1..] == [b, c] && [b, c][1..] == [c] && [c][1..] == [];
    var s1 := Next(s, a);
    var s2 := Next(s1, b);
    assert Possible(Next(s2, c), []);
    assert Possible(s2, [c]) && After(s2, [c]) == Next(s2, c);
    assert Possible(s1, [b, c]) && After(s1, [b, c]) == Next(s2, c);
  }

  lemma Two(s: State, a: Action, b: Action)
    requires Enabled(s, a) && Enabled(Next(s, a), b)
    ensures Possible(s, [a, b]) && After(s, [a, b]) == Next(Next(s, a), b)
  {
    assert [a, b][1..] == [b] && [b][1..] == [];
    var s1 := Next(s, a);
    assert Possible(Next(s1, b), []);
    assert Possible(s1, [b]) && After(s1, [b]) == Next(s1, b);
  }

  lemma DrainOne(s: State) returns (r: State)
    requires Inv(s) && s.consumer.Taking? && s.producer.Discarding? && s.queue != []
    ensures Possible(s, [Take, Send(true), TaskDone]) && After(s, [Take, Send(true), TaskDone]) == r
    ensures Inv(r) && r.consumer.Taking? && r.producer.Discarding? && |r.queue| < |s.queue|
  {
    var s1 := Next(s, Take);
    InvStep(s, Take);
    HeldIsRead(s1);
    assert s1.lines[s1.consumer.line] != "";
    hide Inv;
    var s2 := Next(s1, Send(true));
    InvStep(s1, Send(true));
    r := Next(s2, TaskDone);
    InvStep(s2, TaskDone);
    Three(s, Take, Send(true), TaskDone);
  }

  lemma {:induction false} Drain(s: State) returns (run: seq<Action>)
    requires Inv(s) && s.consumer.Taking? && s.producer.Discarding?
    ensures Possible(s, run)
    ensures var r := After(s, run); r.producer.Discarding? && r.queue == [] && r.consumer.Taking?
    decreases |s.queue|
  {
    hide Inv;
    if s.queue == [] {
      run := [];
    } else {
      var r := DrainOne(s);
      hide Possible, After;
      var rest := Drain(r);
      RunConcat(s, [Take, Send(true), TaskDone], rest);
      run := [Take, Send(true), TaskDone] + rest;
    }
  }

  /** ... and this can happen: a fast consumer makes the program hang. */
  lemma CanHang() returns (run: seq<Action>)
    ensures Possible(INITIAL, run) && Stuck(After(INITIAL, run))
  {
    var fill := Fill(CAPACITY);
    var s := Filled(CAPACITY);
    InitialInv();
    InvRun(INITIAL, fill);
    Three(s, Read("y"), Test, Connect);
    var s' := After(s, [Read("y"), Test, Connect]);
    InvRun(s, [Read("y"), Test, Connect]);
    var drain := Drain(s');
    RunConcat(s, [Read("y"), Test, Connect], drain);
    RunConcat(INITIAL, fill, [Read("y"), Test, Connect] + drain);
    run := fill + ([Read("y"), Test, Connect] + drain);
    HangsExactly(run);
  }

  // ----- the object

  class SerialHandler {
    var lines: seq<string>
    var producer: Producer
    var consumer: Consumer
    var queue: seq<Id>
    var sent: seq<Id>
    var lost: seq<Id>
    var skipped: seq<Id>
    var discarded: seq<Id>
    var dropped: seq<Id>

    function Snapshot(): State
      reads this
    {
      State(lines, producer, consumer, queue, sent, lost, skipped, discarded, dropped)
    }

    constructor ()
      ensures Snapshot() == INITIAL
    {
      lines, producer, consumer := [], Reading, Listening;
      queue, sent, lost, skipped, discarded, dropped := [], [], [], [], [], [];
    }

    /** What the reading thread does with a line, without interruption. */
    method HandleRead(text: string)
      requires producer.Reading? && text != ""
      modifies this
      ensures var run := [Read(text), Test, if |old(queue)| >= CAPACITY then Discard else Put];
              Possible(old(Snapshot()), run) && Snapshot() == After(old(Snapshot()), run)
      ensures lines == old(lines) + [text]
      ensures if |old(queue)| >= 10
              then && queue == old(queue)[1..] && discarded == old(discarded) + [old(queue)[0]]
                   && dropped == old(dropped) + [old(|lines|)]
              else && queue == old(queue) + [old(|lines|)] && discarded == old(discarded) && dropped == old(dropped)
    {
      Three(Snapshot(), Read(text), Test, if |queue| >= CAPACITY then Discard else Put);
      var line := |lines|;
      lines := lines + [text];
      if |queue| >= CAPACITY {
        discarded := discarded + [queue[0]];
        queue := queue[1..];
        dropped := dropped + [line];
      } else {
        queue := queue + [line];
      }
    }

    /** What the handler does with a line, without interruption. */
    method HandleLine(ok: bool)
      requires consumer.Taking? && queue != [] && queue[0] < |lines|
      modifies this
      ensures var run := if ok || old(lines)[old(queue)[0]] == "" then [Take, Send(ok), TaskDone] else [Take, Send(ok)];
              Possible(old(Snapshot()), run) && Snapshot() == After(old(Snapshot()), run)
    {
      var line := queue[0];
      if ok || lines[line] == "" {
        Three(Snapshot(), Take, Send(ok), TaskDone);
      } else {
        Two(Snapshot(), Take, Send(ok));
      }
      queue := queue[1..];
      if |lines[line]| > 0 {
        if !ok {
          lost := lost + [line];
          consumer := Listening;
          return;
        }
        sent := sent + [line];
      } else {
        skipped := skipped + [line];
      }
      consumer := Taking;
    }

    method Do(a: Action)
      requires Enabled(Snapshot(), a)
      modifies this
      ensures Snapshot() == Next(old(Snapshot()), a)
    {
      match a {
        case Read(text) =>
          if text != "" {
            producer := Testing(|lines|);
            lines := lines + [text];
          }
        case Test =>
          if |queue| >= CAPACITY {
            producer := Discarding(producer.line);
          } else {
            producer := Putting(producer.line);
          }
        case Discard =>
          discarded := discarded + [queue[0]];
          queue := queue[1..];
          dropped := dropped + [producer.line];
          producer := Reading;
        case Put =>
          queue := queue + [producer.line];
          producer := Reading;
        case Connect =>
          consumer := Taking;
        case Take =>
          consumer := Holding(queue[0]);
          queue := queue[1..];
        case Send(ok) =>
          var line := consumer.line;
          if |lines[line]| > 0 {
            if ok {
              sent := sent + [line];
              consumer := Marking;
            } else {
              lost := lost + [line];
              consumer := Listening;
            }
          } else {
            skipped := skipped + [line];
            consumer := Marking;
          }
        case TaskDone =>
          consumer := Taking;
      }
    }
  }
}
