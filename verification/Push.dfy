/** HashTree.push: one producer and one consumer sharing a bounded queue, as a state machine
    whose steps are the atomic segments between awaits. */
module Push {

  /** A block: its content hash, and the length of its data. */
  datatype Block = Block(hash: nat, size: nat)

  /** Blocked: `queueResolve` is set. Woken: it was called, but the producer has not resumed. */
  datatype Producer = Walking | Blocked(block: Block) | Woken(block: Block) | Finished

  /** Waiting: `consumerResolve` is set. Racing: awaiting Promise.race(active). Draining:
      awaiting Promise.all(active) after the loop. */
  datatype Consumer = Running | Waiting | Racing | Draining | Done

  /** A started processBlock; settled when it returned but its `then` has not run yet. */
  datatype Task = Task(block: Block, settled: bool)

  /** What targetStore.put says of a block: whether it is new, or that it throws. */
  datatype Answer = Returned(isNew: bool) | Threw

  /** The counters, the summed data lengths, and the blocks with errors. */
  datatype Stats = Stats(pushed: nat, skipped: nat, failed: nat, bytes: nat, errors: seq<Block>, completed: nat)

  const NO_STATS := Stats(0, 0, 0, 0, [], 0)

  datatype State = State(
    todo: seq<Block>,        // what walkBlocks has still to yield
    producer: Producer,
    queue: seq<Block>,
    consumer: Consumer,
    active: seq<Task>,
    puts: seq<Block>,        // targetStore.put calls so far, in order
    answers: seq<(Block, Answer)>,  // and what came of them, in order
    stats: Stats,
    aborted: bool)
  {
    /** walkDone is set when, and only when, the producer finishes. */
    predicate WalkDone() { producer == Finished }

    predicate Final() { producer == Finished && consumer == Done }
  }

  function Initial(blocks: seq<Block>): State {
    State(blocks, Walking, [], Running, [], [], [], NO_STATS, false)
  }

  // ---------------------------------------------------------------- segments

  function WakeConsumer(s: State): State {
    if s.consumer == Waiting then s.(consumer := Running) else s
  }

  function Enqueue(s: State, b: Block): State {
    WakeConsumer(s.(queue := s.queue + [b], producer := Walking))
  }

  function Finish(s: State): State {
    WakeConsumer(s.(producer := Finished))
  }

  /** walkBlocks yields its next block, or ends. */
  function Deliver(s: State, conc: nat): State
    requires s.producer == Walking
  {
    if s.todo == [] then Finish(s) else
    var b := s.todo[0];
    var s1 := s.(todo := s.todo[1..]);
    if s.aborted then Finish(s1)
    else if |s.queue| >= 2 * conc then s1.(producer := Blocked(b))
    else Enqueue(s1, b)
  }

  /** The producer resumes after queueResolve: an abort leaves the inner loop but still pushes. */
  function Resume(s: State, conc: nat): State
    requires s.producer.Woken?
  {
    if !s.aborted && |s.queue| >= 2 * conc then s.(producer := Blocked(s.producer.block))
    else Enqueue(s, s.producer.block)
  }

  /** queue.shift(), the wake-up of a blocked producer, and the synchronous start of the put. */
  function StartOne(s: State, conc: nat): State
    requires s.queue != []
  {
    var b := s.queue[0];
    var rest := s.queue[1..];
    s.(queue := rest,
       producer := if s.producer.Blocked? && |rest| < 2 * conc then Woken(s.producer.block) else s.producer,
       active := s.active + [Task(b, s.aborted)],
       puts := if s.aborted then s.puts else s.puts + [b])
  }

  function StartTasks(s: State, conc: nat): State
    decreases |s.queue|
  {
    if |s.active| < conc && s.queue != [] then StartTasks(StartOne(s, conc), conc) else s
  }

  /** The consumer starts tasks for the first k blocks of the queue, as many as there are, or as there
      is room for among `conc`; each is put, unless the push is aborted. */
  lemma {:induction false} StartTasksExactly(s: State, conc: nat, k: nat)
    requires |s.active| <= conc && k == if |s.queue| < conc - |s.active| then |s.queue| else conc - |s.active|
    ensures (var s' := StartTasks(s, conc);
             && s'.queue == s.queue[k..] && |s'.active| == |s.active| + k
             && s'.puts == s.puts + if s.aborted then [] else s.queue[..k])
    decreases k
  {
    if k > 0 {
      var next := StartOne(s, conc);
      StartTasksExactly(next, conc, k - 1);
      FirstAndRest(s.puts, s.queue, k);
    }
  }

  lemma FirstAndRest(puts: seq<Block>, queue: seq<Block>, k: nat)
    requires 0 < k <= |queue|
    ensures queue[k..] == queue[1..][k - 1..]
    ensures puts + [queue[0]] + queue[1..][..k - 1] == puts + queue[..k]
  {
  }

  /** The consumer from the top of its loop to its next await. */
  function Consume(s: State, conc: nat): State
    requires s.consumer == Running
  {
    if (s.WalkDone() && s.queue == [] && s.active == []) || s.aborted then s.(consumer := Draining)
    else
      var s1 := StartTasks(s, conc);
      if s1.queue == [] && !s1.WalkDone() && |s1.active| < conc then s1.(consumer := Waiting)
      else s1.(consumer := Racing)
  }

  /** The rest of processBlock, once the store has answered. */
  function Account(t: Stats, b: Block, a: Answer): Stats {
    var t1 := match a
      case Returned(isNew) =>
        if isNew then t.(pushed := t.pushed + 1, bytes := t.bytes + b.size) else t.(skipped := t.skipped + 1)
      case Threw => t.(failed := t.failed + 1, errors := t.errors + [b]);
    t1.(completed := t1.completed + 1)
  }

  function PutReturns(s: State, i: nat, a: Answer): State
    requires i < |s.active| && !s.active[i].settled
  {
    s.(active := s.active[i := s.active[i].(settled := true)],
       answers := s.answers + [(s.active[i].block, a)],
       stats := Account(s.stats, s.active[i].block, a))
  }

  /** The `then` of a settled task: it leaves `active`, and the race, if any, is won. */
  function Splice(s: State, i: nat): State
    requires i < |s.active| && s.active[i].settled
  {
    s.(active := s.active[..i] + s.active[i + 1..],
       consumer := if s.consumer == Racing then Running else s.consumer)
  }

  // ---------------------------------------------------------------- the transition system

  datatype Event = EDeliver | EResume | EConsume | EPutReturns(i: nat, a: Answer) | ESplice(i: nat) | EDrained | EAbort

  predicate Enabled(s: State, e: Event) {
    match e
    case EDeliver => s.producer == Walking
    case EResume => s.producer.Woken?
    case EConsume => s.consumer == Running
    case EPutReturns(i, _) => i < |s.active| && !s.active[i].settled
    case ESplice(i) => i < |s.active| && s.active[i].settled
    case EDrained => s.consumer == Draining && s.active == []
    case EAbort => !s.aborted
  }

  function Apply(s: State, e: Event, conc: nat): State
    requires Enabled(s, e)
  {
    match e
    case EDeliver => Deliver(s, conc)
    case EResume => Resume(s, conc)
    case EConsume => Consume(s, conc)
    case EPutReturns(i, a) => PutReturns(s, i, a)
    case ESplice(i) => Splice(s, i)
    case EDrained => s.(consumer := Done)
    case EAbort => s.(aborted := true)
  }

  /** A run of the push of `blocks`: every state follows from the one before by some event. */
  ghost predicate Run(trace: seq<State>, blocks: seq<Block>, conc: nat) {
    && trace != [] && trace[0] == Initial(blocks)
    && forall i :: 0 <= i < |trace| - 1 ==> Step(trace[i], trace[i + 1], conc)
  }

  ghost predicate Step(s: State, s': State, conc: nat) {
    exists e :: Enabled(s, e) && Apply(s, e, conc) == s'
  }

  // ---------------------------------------------------------------- the invariant

  function Held(p: Producer): seq<Block> {
    if p.Blocked? || p.Woken? then [p.block] else []
  }

  function Unsettled(active: seq<Task>): nat {
    if active == [] then 0 else (if active[0].settled then 0 else 1) + Unsettled(active[1..])
  }

  ghost predicate Inv(s: State, blocks: seq<Block>, conc: nat) {
    Flow(s, blocks, conc) && Counts(s)
  }

  ghost predicate Flow(s: State, blocks: seq<Block>, conc: nat) {
    && |s.queue| <= 2 * conc && |s.active| <= conc
    // no lost wake-up, on either side
    && (s.consumer == Waiting ==> s.queue == [] && !s.WalkDone())
    && (s.producer.Blocked? ==> |s.queue| == 2 * conc)
    && (s.producer.Woken? ==> |s.queue| < 2 * conc)
    && (s.consumer == Racing ==> s.active != [])
    && (s.consumer == Done ==> s.active == [])
    && (!s.aborted && (s.consumer == Draining || s.consumer == Done) ==>
          s.WalkDone() && s.queue == [] && s.active == [])
    // every block is in exactly one place
    && (!s.aborted ==> s.puts + s.queue + Held(s.producer) + s.todo == blocks)
    && s.puts <= blocks
    && (!s.aborted && s.WalkDone() ==> s.todo == [])
  }

  /** The answers are counted by their kind, and each put has been answered once or is pending. */
  ghost predicate Counts(s: State) {
    Books(s.stats, s.answers, s.active, s.puts)
  }

  ghost predicate Books(t: Stats, answers: seq<(Block, Answer)>, active: seq<Task>, puts: seq<Block>) {
    Accounted(t, answers) && EachOnce(answers, active, puts)
  }

  ghost predicate EachOnce(answers: seq<(Block, Answer)>, active: seq<Task>, puts: seq<Block>) {
    multiset(Answered(answers)) + multiset(Pending(active)) == multiset(puts)
  }

  /** The blocks that got this answer, in the order of the answers. */
  ghost function Those(answers: seq<(Block, Answer)>, a: Answer): (r: seq<Block>)
    ensures forall b :: b in r <==> (b, a) in answers
  {
    if answers == [] then []
    else
      var last, before := answers[|answers| - 1], Those(answers[..|answers| - 1], a);
      assert answers == answers[..|answers| - 1] + [last];
      if last.1 == a then before + [last.0] else before
  }

  ghost function Sizes(blocks: seq<Block>): nat {
    if blocks == [] then 0 else Sizes(blocks[..|blocks| - 1]) + blocks[|blocks| - 1].size
  }

  /** Each number is that of the answers it stands for. */
  ghost predicate Accounted(t: Stats, answers: seq<(Block, Answer)>) {
    && t.pushed == |Those(answers, Returned(true))| && t.bytes == Sizes(Those(answers, Returned(true)))
    && t.skipped == |Those(answers, Returned(false))|
    && t.failed == |Those(answers, Threw)| && t.errors == Those(answers, Threw)
    && t.completed == |answers| == t.pushed + t.skipped + t.failed
  }

  lemma AccountedOneMore(t: Stats, answers: seq<(Block, Answer)>, b: Block, a: Answer)
    requires Accounted(t, answers)
    ensures Accounted(Account(t, b, a), answers + [(b, a)])
  {
    ThoseOneMore(answers, b, a, Returned(true));
    ThoseOneMore(answers, b, a, Returned(false));
    ThoseOneMore(answers, b, a, Threw);
    SizesOneMore(Those(answers, Returned(true)), b);
  }

  lemma ThoseOneMore(answers: seq<(Block, Answer)>, b: Block, a: Answer, x: Answer)
    ensures Those(answers + [(b, a)], x) == if a == x then Those(answers, x) + [b] else Those(answers, x)
  {
    assert (answers + [(b, a)])[..|answers|] == answers;
  }

  lemma SizesOneMore(blocks: seq<Block>, b: Block)
    ensures Sizes(blocks + [b]) == Sizes(blocks) + b.size
  {
    assert (blocks + [b])[..|blocks|] == blocks;
  }

  ghost function Answered(answers: seq<(Block, Answer)>): (r: seq<Block>)
    ensures |r| == |answers|
  {
    if answers == [] then [] else Answered(answers[..|answers| - 1]) + [answers[|answers| - 1].0]
  }

  lemma AnsweredOneMore(answers: seq<(Block, Answer)>, b: Block, a: Answer)
    ensures Answered(answers + [(b, a)]) == Answered(answers) + [b]
  {
    assert (answers + [(b, a)])[..|answers|] == answers;
  }

  /** The blocks whose puts have not returned. */
  ghost function Pending(active: seq<Task>): seq<Block> {
    if active == [] then [] else (if active[0].settled then [] else [active[0].block]) + Pending(active[1..])
  }

  lemma {:induction false} PendingAppend(a: seq<Task>, b: seq<Task>)
    ensures Pending(a + b) == Pending(a) + Pending(b)
  {
    if a == [] {
      assert a + b == b;
    } else {
      assert (a + b)[1..] == a[1..] + b;
      PendingAppend(a[1..], b);
    }
  }

  lemma PendingAt(a: seq<Task>, i: nat)
    requires i < |a|
    ensures Pending(a) == Pending(a[..i]) + (if a[i].settled then [] else [a[i].block]) + Pending(a[i + 1..])
  {
    PendingAppend(a[..i], a[i..]);
    PendingFirst(a, i);
    Rejoined(Pending(a[..i]), if a[i].settled then [] else [a[i].block], Pending(a[i + 1..]));
    assert a == a[..i] + a[i..];
  }

  lemma PendingFirst(a: seq<Task>, i: nat)
    requires i < |a|
    ensures Pending(a[i..]) == (if a[i].settled then [] else [a[i].block]) + Pending(a[i + 1..])
  {
    assert a[i..][1..] == a[i + 1..];
  }

  lemma Rejoined(x: seq<Block>, y: seq<Block>, z: seq<Block>)
    ensures x + (y + z) == x + y + z
  {
  }

  lemma SettlesOne(active: seq<Task>, i: nat)
    requires i < |active| && !active[i].settled
    ensures multiset(Pending(active)) ==
            multiset(Pending(active[i := active[i].(settled := true)])) + multiset{active[i].block}
  {
    var active' := active[i := active[i].(settled := true)];
    PendingAt(active, i);
    PendingAt(active', i);
    assert active'[..i] == active[..i] && active'[i + 1..] == active[i + 1..];
  }

  lemma LeavesNoGap(active: seq<Task>, i: nat)
    requires i < |active| && active[i].settled
    ensures Pending(active[..i] + active[i + 1..]) == Pending(active)
  {
    PendingAt(active, i);
    PendingAppend(active[..i], active[i + 1..]);
    assert Pending(active[..i]) + [] == Pending(active[..i]);
  }

  lemma {:induction false} UnsettledAppend(a: seq<Task>, b: seq<Task>)
    ensures Unsettled(a + b) == Unsettled(a) + Unsettled(b)
  {
    if a == [] {
      assert a + b == b;
    } else {
      assert (a + b)[1..] == a[1..] + b;
      UnsettledAppend(a[1..], b);
    }
  }

  lemma UnsettledAt(a: seq<Task>, i: nat)
    requires i < |a|
    ensures Unsettled(a) == Unsettled(a[..i]) + (if a[i].settled then 0 else 1) + Unsettled(a[i + 1..])
  {
    assert a == a[..i] + a[i..];
    UnsettledAppend(a[..i], a[i..]);
    assert a[i..][1..] == a[i + 1..];
  }

  lemma StartOneKeepsFlow(s: State, blocks: seq<Block>, conc: nat)
    requires conc >= 1 && Flow(s, blocks, conc) && s.consumer == Running
    requires |s.active| < conc && s.queue != []
    ensures Flow(StartOne(s, conc), blocks, conc)
  {
    assert s.queue == [s.queue[0]] + s.queue[1..];
    var s' := StartOne(s, conc);
    if !s.aborted {
      assert s'.puts + s'.queue == s.puts + s.queue;
      assert Held(s'.producer) == Held(s.producer);
    }
  }

  lemma StartOneKeepsCounts(s: State, conc: nat)
    requires Counts(s) && s.queue != []
    ensures Counts(StartOne(s, conc))
  {
    var b := s.queue[0];
    PendingAppend(s.active, [Task(b, s.aborted)]);
    assert [Task(b, s.aborted)][1..] == [];
  }

  lemma {:induction false} StartTasksKeepsFlow(s: State, blocks: seq<Block>, conc: nat)
    requires conc >= 1 && Flow(s, blocks, conc) && s.consumer == Running
    ensures (var s' := StartTasks(s, conc);
             && Flow(s', blocks, conc) && s'.consumer == Running && s'.aborted == s.aborted
             && s'.WalkDone() == s.WalkDone()
             && (s'.queue == [] || |s'.active| == conc)
             && (s.queue != [] || s.active != [] ==> s'.active != []))
    decreases |s.queue|
  {
    if |s.active| < conc && s.queue != [] {
      StartOneKeepsFlow(s, blocks, conc);
      StartTasksKeepsFlow(StartOne(s, conc), blocks, conc);
    }
  }

  lemma {:induction false} StartTasksKeepsCounts(s: State, conc: nat)
    requires Counts(s)
    ensures Counts(StartTasks(s, conc))
    decreases |s.queue|
  {
    if |s.active| < conc && s.queue != [] {
      StartOneKeepsCounts(s, conc);
      StartTasksKeepsCounts(StartOne(s, conc), conc);
    }
  }

  lemma DeliverKeepsFlow(s: State, blocks: seq<Block>, conc: nat)
    requires conc >= 1 && Flow(s, blocks, conc) && s.producer == Walking
    ensures Flow(Deliver(s, conc), blocks, conc)
  {
    if s.todo != [] {
      DeliveredOnce(s.puts, s.queue, s.todo);
    }
  }

  lemma DeliveredOnce(puts: seq<Block>, queue: seq<Block>, todo: seq<Block>)
    requires todo != []
    ensures puts + queue + [] + todo == puts + queue + [todo[0]] + todo[1..]
    ensures puts + queue + [] + todo == puts + (queue + [todo[0]]) + [] + todo[1..]
  {
    assert todo == [todo[0]] + todo[1..];
  }

  lemma ResumeKeepsFlow(s: State, blocks: seq<Block>, conc: nat)
    requires conc >= 1 && Flow(s, blocks, conc) && s.producer.Woken?
    ensures Flow(Resume(s, conc), blocks, conc)
  {
    var b := s.producer.block;
    assert s.puts + s.queue + [b] + s.todo == s.puts + (s.queue + [b]) + [] + s.todo;
  }

  lemma StepKeepsFlow(s: State, e: Event, blocks: seq<Block>, conc: nat)
    requires conc >= 1 && Flow(s, blocks, conc) && Enabled(s, e)
    ensures Flow(Apply(s, e, conc), blocks, conc)
  {
    match e
    case EDeliver => DeliverKeepsFlow(s, blocks, conc);
    case EResume => ResumeKeepsFlow(s, blocks, conc);
    case EConsume => StartTasksKeepsFlow(s, blocks, conc);
    case EPutReturns(_, _) =>
    case ESplice(_) =>
    case EDrained =>
    case EAbort =>
  }

  lemma PutReturnsKeepsCounts(s: State, i: nat, a: Answer)
    requires Counts(s) && i < |s.active| && !s.active[i].settled
    ensures Counts(PutReturns(s, i, a))
  {
    SettlesOne(s.active, i);
    AccountedOneMore(s.stats, s.answers, s.active[i].block, a);
    AnsweredOneMore(s.answers, s.active[i].block, a);
  }

  /** What the accounting speaks of is the same. */
  predicate SameBooks(s: State, s': State) {
    s'.stats == s.stats && s'.answers == s.answers && s'.active == s.active && s'.puts == s.puts
  }

  lemma ProducerTouchesNoBooks(s: State, conc: nat)
    ensures s.producer == Walking ==> SameBooks(s, Deliver(s, conc))
    ensures s.producer.Woken? ==> SameBooks(s, Resume(s, conc))
  {
  }

  lemma ConsumeOnlyStarts(s: State, conc: nat)
    requires s.consumer == Running
    ensures SameBooks(s, Consume(s, conc)) || SameBooks(StartTasks(s, conc), Consume(s, conc))
  {
  }

  lemma SpliceKeepsCounts(s: State, i: nat)
    requires Counts(s) && i < |s.active| && s.active[i].settled
    ensures Counts(Splice(s, i))
  {
    LeavesNoGap(s.active, i);
  }

  lemma ConsumeKeepsCounts(s: State, conc: nat)
    requires Counts(s) && s.consumer == Running
    ensures Counts(Consume(s, conc))
  {
    StartTasksKeepsCounts(s, conc);
    ConsumeOnlyStarts(s, conc);
  }

  lemma StepKeepsCounts(s: State, e: Event, conc: nat)
    requires Counts(s) && Enabled(s, e)
    ensures Counts(Apply(s, e, conc))
  {
    match e
    case EDeliver => ProducerTouchesNoBooks(s, conc);
    case EResume => ProducerTouchesNoBooks(s, conc);
    case EConsume => ConsumeKeepsCounts(s, conc);
    case EPutReturns(i, a) => PutReturnsKeepsCounts(s, i, a);
    case ESplice(i) => SpliceKeepsCounts(s, i);
    case EDrained =>
    case EAbort =>
  }

  lemma StepKeepsInv(s: State, e: Event, blocks: seq<Block>, conc: nat)
    requires conc >= 1 && Inv(s, blocks, conc) && Enabled(s, e)
    ensures Inv(Apply(s, e, conc), blocks, conc)
  {
    StepKeepsFlow(s, e, blocks, conc);
    StepKeepsCounts(s, e, conc);
  }

  lemma StepAt(trace: seq<State>, blocks: seq<Block>, conc: nat, i: nat) returns (e: Event)
    requires Run(trace, blocks, conc) && 0 < i < |trace|
    ensures Enabled(trace[i - 1], e) && Apply(trace[i - 1], e, conc) == trace[i]
  {
    assert Step(trace[i - 1], trace[i - 1 + 1], conc);
    e :| Enabled(trace[i - 1], e) && Apply(trace[i - 1], e, conc) == trace[i];
  }

  lemma StartsWell(s: State, blocks: seq<Block>, conc: nat)
    requires s == Initial(blocks)
    ensures Inv(s, blocks, conc)
  {
    assert [] + [] + [] + blocks == blocks;
  }

  lemma {:induction false} RunKeepsFlow(trace: seq<State>, blocks: seq<Block>, conc: nat, i: nat)
    requires conc >= 1 && Run(trace, blocks, conc) && i < |trace|
    ensures Flow(trace[i], blocks, conc)
  {
    if i == 0 {
      StartsWell(trace[0], blocks, conc);
    } else {
      RunKeepsFlow(trace, blocks, conc, i - 1);
      var e := StepAt(trace, blocks, conc, i);
      StepKeepsFlow(trace[i - 1], e, blocks, conc);
    }
  }

  lemma {:induction false} RunKeepsCounts(trace: seq<State>, blocks: seq<Block>, conc: nat, i: nat)
    requires Run(trace, blocks, conc) && i < |trace|
    ensures Counts(trace[i])
  {
    if i > 0 {
      RunKeepsCounts(trace, blocks, conc, i - 1);
      var e := StepAt(trace, blocks, conc, i);
      StepKeepsCounts(trace[i - 1], e, conc);
    }
  }

  /** Bounds, wake-ups, conservation and accounting hold in every state of every run, aborted
      or not. */
  lemma RunKeepsInv(trace: seq<State>, blocks: seq<Block>, conc: nat, i: nat)
    requires conc >= 1 && Run(trace, blocks, conc) && i < |trace|
    ensures Inv(trace[i], blocks, conc)
  {
    RunKeepsFlow(trace, blocks, conc, i);
    RunKeepsCounts(trace, blocks, conc, i);
  }

  // ---------------------------------------------------------------- progress

  /** Something other than an abort can happen. */
  ghost predicate CanMove(s: State) {
    exists e :: e != EAbort && Enabled(s, e)
  }

  /** A state of a run is stuck before the end if and only if the push was aborted while the
      producer was blocked and the consumer has already left: nobody will call queueResolve. */
  lemma StuckExactly(s: State, blocks: seq<Block>, conc: nat)
    requires conc >= 1 && Flow(s, blocks, conc)
    ensures !CanMove(s) && !s.Final() <==> s.aborted && s.producer.Blocked? && s.consumer == Done
  {
    if s.active != [] {
      assert Enabled(s, if s.active[0].settled then ESplice(0) else EPutReturns(0, Threw));
    } else if s.producer == Walking {
      assert Enabled(s, EDeliver);
    } else if s.producer.Woken? {
      assert Enabled(s, EResume);
    } else if s.consumer == Running {
      assert Enabled(s, EConsume);
    } else if s.consumer == Draining {
      assert Enabled(s, EDrained);
    }
  }

  /** Nothing can go on. The puts are the first blocks of the walk, each answered once, with the
      answers counted by their kind. Without an abort all blocks have been put and both loops have
      ended; with one, the producer may be blocked instead. */
  ghost predicate Ended(s: State, blocks: seq<Block>) {
    && !CanMove(s) && s.puts <= blocks
    && (s.aborted ==> s.consumer == Done && (s.producer == Finished || s.producer.Blocked?))
    && (!s.aborted ==> s.Final() && s.puts == blocks)
    && AllAnswered(s)
  }

  lemma Stopped(s: State, blocks: seq<Block>, conc: nat)
    requires conc >= 1 && Inv(s, blocks, conc)
    requires s.producer != Walking && !s.producer.Woken? && s.consumer != Running
    requires !(s.consumer == Draining && s.active == []) && s.active == []
    ensures Ended(s, blocks)
  {
    StuckExactly(s, blocks, conc);
    assert s.puts + [] + [] + [] == s.puts;
    NonePending(s);
  }

  /** Every put has been answered, once, and the answers are counted by their kind. */
  ghost predicate AllAnswered(s: State) {
    && multiset(Answered(s.answers)) == multiset(s.puts) && |s.answers| == |s.puts|
    && Accounted(s.stats, s.answers)
  }

  lemma NonePending(s: State)
    requires Counts(s) && s.active == []
    ensures AllAnswered(s)
  {
    assert multiset(Pending(s.active)) == multiset{};
    assert |multiset(Answered(s.answers))| == |s.answers| && |multiset(s.puts)| == |s.puts|;
  }

  function ProducerRank(p: Producer): nat {
    match p
    case Walking => 2
    case Blocked(_) => 8
    case Woken(_) => 8
    case Finished => 0
  }

  function ConsumerRank(c: Consumer): nat {
    match c
    case Running => 3
    case Waiting => 2
    case Racing => 2
    case Draining => 1
    case Done => 0
  }

  /** Work left: a bound on the number of steps still possible. */
  function Rank(s: State): nat {
    7 * |s.todo| + 4 * |s.queue| + 2 * |s.active| + Unsettled(s.active)
    + ProducerRank(s.producer) + ConsumerRank(s.consumer) + if s.aborted then 0 else 1
  }

  lemma {:induction false} StartTasksRank(s: State, conc: nat)
    ensures Rank(StartTasks(s, conc)) <= Rank(s)
    ensures StartTasks(s, conc).consumer == s.consumer
    decreases |s.queue|
  {
    if |s.active| < conc && s.queue != [] {
      UnsettledAppend(s.active, [Task(s.queue[0], s.aborted)]);
      assert Unsettled([Task(s.queue[0], s.aborted)]) == (if s.aborted then 0 else 1) + Unsettled([]);
      StartTasksRank(StartOne(s, conc), conc);
    }
  }

  lemma ProducerLowersRank(s: State, e: Event, blocks: seq<Block>, conc: nat)
    requires conc >= 1 && Flow(s, blocks, conc) && Enabled(s, e) && (e == EDeliver || e == EResume)
    ensures Rank(Apply(s, e, conc)) < Rank(s)
  {
  }

  lemma ConsumerLowersRank(s: State, conc: nat)
    requires s.consumer == Running
    ensures Rank(Consume(s, conc)) < Rank(s)
  {
    StartTasksRank(s, conc);
  }

  lemma StepLowersRank(s: State, e: Event, blocks: seq<Block>, conc: nat)
    requires conc >= 1 && Flow(s, blocks, conc) && Enabled(s, e)
    ensures Rank(Apply(s, e, conc)) < Rank(s)
  {
    match e
    case EDeliver => ProducerLowersRank(s, e, blocks, conc);
    case EResume => ProducerLowersRank(s, e, blocks, conc);
    case EConsume => ConsumerLowersRank(s, conc);
    case EPutReturns(i, _) => SettlingLowers(s.active, i);
    case ESplice(i) => SplicingKeeps(s.active, i);
    case EDrained =>
    case EAbort =>
  }

  lemma StepGoesOn(s: State, s': State, blocks: seq<Block>, conc: nat)
    requires conc >= 1 && Inv(s, blocks, conc) && Step(s, s', conc)
    ensures Inv(s', blocks, conc) && Rank(s') < Rank(s)
  {
    var e :| Enabled(s, e) && Apply(s, e, conc) == s';
    StepKeepsFlow(s, e, blocks, conc);
    StepKeepsCounts(s, e, conc);
    StepLowersRank(s, e, blocks, conc);
  }

  lemma SettlingLowers(active: seq<Task>, i: nat)
    requires i < |active| && !active[i].settled
    ensures Unsettled(active[i := active[i].(settled := true)]) == Unsettled(active) - 1
  {
    var active' := active[i := active[i].(settled := true)];
    UnsettledAt(active, i);
    UnsettledAt(active', i);
    assert active'[..i] == active[..i] && active'[i + 1..] == active[i + 1..];
  }

  lemma SplicingKeeps(active: seq<Task>, i: nat)
    requires i < |active| && active[i].settled
    ensures Unsettled(active[..i] + active[i + 1..]) == Unsettled(active)
  {
    UnsettledAt(active, i);
    UnsettledAppend(active[..i], active[i + 1..]);
  }

  /** No run is longer than its initial work. */
  lemma {:induction false} RunsAreFinite(trace: seq<State>, blocks: seq<Block>, conc: nat, i: nat)
    requires conc >= 1 && Run(trace, blocks, conc) && i < |trace|
    ensures Rank(trace[i]) + i <= 7 * |blocks| + 6
  {
    if i > 0 {
      RunsAreFinite(trace, blocks, conc, i - 1);
      RunKeepsFlow(trace, blocks, conc, i - 1);
      var e := StepAt(trace, blocks, conc, i);
      StepLowersRank(trace[i - 1], e, blocks, conc);
    }
  }

  /** Every abort-free run that cannot go on has ended, with each block put exactly once, in
      walk order, and answered once, and with the answers counted by their kind. */
  lemma MaximalRunCompletes(trace: seq<State>, blocks: seq<Block>, conc: nat)
    requires conc >= 1 && Run(trace, blocks, conc)
    requires var last := trace[|trace| - 1]; !last.aborted && !CanMove(last)
    ensures var last := trace[|trace| - 1];
            && last.Final() && last.puts == blocks
            && multiset(Answered(last.answers)) == multiset(blocks) && Accounted(last.stats, last.answers)
  {
    var last := trace[|trace| - 1];
    RunKeepsInv(trace, blocks, conc, |trace| - 1);
    StuckExactly(last, blocks, conc);
    assert last.puts + [] + [] + [] == last.puts;
  }

  // ---------------------------------------------------------------- aborted runs

  /** The push is aborted in the step after state i, while the producer is blocked. */
  ghost predicate AbortedWhileBlocked(trace: seq<State>, i: nat) {
    i + 1 < |trace| && !trace[i].aborted && trace[i + 1].aborted && trace[i].producer.Blocked?
  }

  ghost predicate StrandedBefore(trace: seq<State>, n: nat) {
    exists i :: 0 <= i < n && AbortedWhileBlocked(trace, i)
  }

  lemma StrandedOneMore(trace: seq<State>, n: nat)
    ensures StrandedBefore(trace, n + 1) <==> StrandedBefore(trace, n) || AbortedWhileBlocked(trace, n)
  {
  }

  /** After an abort no more puts are started, a producer that is blocked stays so, and no other
      gets blocked. */
  lemma AbortFreezesBlocking(s: State, s': State, blocks: seq<Block>, conc: nat)
    requires conc >= 1 && Flow(s, blocks, conc) && Step(s, s', conc)
    ensures s.aborted ==> s'.aborted && s'.producer.Blocked? == s.producer.Blocked?
    ensures !s.aborted && s'.aborted ==> s'.producer == s.producer
    ensures s.aborted ==> s'.puts == s.puts
  {
    var e :| Enabled(s, e) && Apply(s, e, conc) == s';
    if e == EConsume { StartTasksKeepsFlow(s, blocks, conc); }
  }

  /** In an aborted state of a run the producer is blocked exactly when it was at the abort. */
  lemma {:induction false} BlockedSinceAbort(trace: seq<State>, blocks: seq<Block>, conc: nat, n: nat)
    requires conc >= 1 && Run(trace, blocks, conc) && n < |trace|
    ensures trace[n].aborted && trace[n].producer.Blocked? <==> StrandedBefore(trace, n)
    ensures StrandedBefore(trace, n) ==> trace[n].aborted
  {
    if n > 0 {
      BlockedSinceAbort(trace, blocks, conc, n - 1);
      RunKeepsFlow(trace, blocks, conc, n - 1);
      assert Step(trace[n - 1], trace[n - 1 + 1], conc);
      AbortFreezesBlocking(trace[n - 1], trace[n], blocks, conc);
      StrandedOneMore(trace, n - 1);
    }
  }

  /** A run that cannot go on has stopped before the end if and only if the push was aborted
      while its producer was blocked. */
  lemma StrandedExactly(trace: seq<State>, blocks: seq<Block>, conc: nat)
    requires conc >= 1 && Run(trace, blocks, conc) && !CanMove(trace[|trace| - 1])
    ensures !trace[|trace| - 1].Final() <==> StrandedBefore(trace, |trace| - 1)
  {
    var n := |trace| - 1;
    RunKeepsFlow(trace, blocks, conc, n);
    StuckExactly(trace[n], blocks, conc);
    BlockedSinceAbort(trace, blocks, conc, n);
  }

  lemma Extend(trace: seq<State>, e: Event, blocks: seq<Block>, conc: nat) returns (longer: seq<State>)
    requires Run(trace, blocks, conc) && Enabled(trace[|trace| - 1], e)
    ensures Run(longer, blocks, conc) && longer[|longer| - 1] == Apply(trace[|trace| - 1], e, conc)
  {
    var s := trace[|trace| - 1];
    longer := trace + [Apply(s, e, conc)];
    forall i | 0 <= i < |longer| - 1
      ensures Step(longer[i], longer[i + 1], conc)
    {
      if i < |trace| - 1 { assert Step(trace[i], trace[i + 1], conc); }
      else { assert Enabled(s, e) && Apply(s, e, conc) == longer[i + 1]; }
    }
  }

  /** n puts in flight. */
  function InFlight(blocks: seq<Block>, n: nat): (r: seq<Task>)
    requires n <= |blocks|
    ensures |r| == n && forall i :: 0 <= i < n ==> r[i] == Task(blocks[i], false)
  {
    if n == 0 then [] else InFlight(blocks, n - 1) + [Task(blocks[n - 1], false)]
  }

  /** The consumer has started n puts, each as soon as its block was delivered. */
  function Started(blocks: seq<Block>, n: nat, conc: nat): State
    requires n <= |blocks|
  {
    var consumer := if n < conc then Waiting else Racing;
    State(blocks[n..], Walking, [], consumer, InFlight(blocks, n), blocks[..n], [], NO_STATS, false)
  }

  lemma StartedOne(blocks: seq<Block>, n: nat, conc: nat)
    requires n < |blocks| && n < conc
    ensures (var s := Deliver(Started(blocks, n, conc), conc);
             s.consumer == Running && Consume(s, conc) == Started(blocks, n + 1, conc))
  {
    DeliveredOne(blocks, n, conc);
    TakenOne(blocks, n, conc);
  }

  /** The consumer takes it from there. */
  lemma TakenOne(blocks: seq<Block>, n: nat, conc: nat)
    requires n < |blocks| && n < conc
    ensures StartTasks(Offered(blocks, n), conc) == Started(blocks, n + 1, conc).(consumer := Running)
  {
    assert blocks[..n] + [blocks[n]] == blocks[..n + 1];
    StartedAlone(Offered(blocks, n), conc);
  }

  /** A single queued block is started, and nothing is left to start. */
  lemma StartedAlone(s: State, conc: nat)
    requires |s.active| < conc && |s.queue| == 1
    ensures StartTasks(s, conc) == StartOne(s, conc)
  {
    assert StartTasks(StartOne(s, conc), conc) == StartOne(s, conc);
  }

  /** Before that the next block is in the queue, and the consumer awake. */
  function Offered(blocks: seq<Block>, n: nat): State
    requires n < |blocks|
  {
    State(blocks[n + 1..], Walking, [blocks[n]], Running, InFlight(blocks, n), blocks[..n], [], NO_STATS, false)
  }

  lemma DeliveredOne(blocks: seq<Block>, n: nat, conc: nat)
    requires n < |blocks| && n < conc
    ensures Deliver(Started(blocks, n, conc), conc) == Offered(blocks, n)
  {
    assert blocks[n..][0] == blocks[n] && blocks[n..][1..] == blocks[n + 1..];
  }

  lemma {:induction false} AllStarted(blocks: seq<Block>, n: nat, conc: nat) returns (trace: seq<State>)
    requires conc >= 1 && n <= |blocks| && n <= conc
    ensures Run(trace, blocks, conc) && trace[|trace| - 1] == Started(blocks, n, conc)
  {
    if n == 0 {
      trace := Extend([Initial(blocks)], EConsume, blocks, conc);
      assert blocks[0..] == blocks && blocks[..0] == [];
    } else {
      trace := AllStarted(blocks, n - 1, conc);
      StartedOne(blocks, n - 1, conc);
      trace := Extend(trace, EDeliver, blocks, conc);
      trace := Extend(trace, EConsume, blocks, conc);
    }
  }

  /** Then m more blocks have gone into the queue. */
  function Queued(blocks: seq<Block>, m: nat, conc: nat): State
    requires conc + m <= |blocks|
  {
    Started(blocks, conc, conc).(todo := blocks[conc + m..], queue := blocks[conc..conc + m])
  }

  lemma {:induction false} AllQueued(blocks: seq<Block>, m: nat, conc: nat) returns (trace: seq<State>)
    requires conc >= 1 && m <= 2 * conc && conc + m <= |blocks|
    ensures Run(trace, blocks, conc) && trace[|trace| - 1] == Queued(blocks, m, conc)
  {
    if m == 0 {
      trace := AllStarted(blocks, conc, conc);
      assert blocks[conc..conc] == [];
    } else {
      trace := AllQueued(blocks, m - 1, conc);
      var n := conc + m - 1;
      assert blocks[n..][0] == blocks[n] && blocks[n..][1..] == blocks[n + 1..];
      assert blocks[conc..n] + [blocks[n]] == blocks[conc..n + 1];
      trace := Extend(trace, EDeliver, blocks, conc);
    }
  }

  /** Every put in flight returns and leaves; the consumer, once its race is won, is about to run. */
  lemma {:induction false} AllLeave(trace: seq<State>, blocks: seq<Block>, conc: nat) returns (longer: seq<State>)
    requires Run(trace, blocks, conc)
    requires var s := trace[|trace| - 1];
             (forall i :: 0 <= i < |s.active| ==> !s.active[i].settled) &&
                 (s.consumer == Running || (s.consumer == Racing && s.active != []))
    ensures Run(longer, blocks, conc)
    ensures var s, s' := trace[|trace| - 1], longer[|longer| - 1];
            s'.active == [] && s'.consumer == Running && s'.producer == s.producer && s'.aborted == s.aborted
    decreases |trace[|trace| - 1].active|
  {
    longer := trace;
    var s := trace[|trace| - 1];
    if s.active != [] {
      longer := Extend(longer, EPutReturns(0, Threw), blocks, conc);
      assert longer[|longer| - 1].active[0].settled && longer[|longer| - 1].active[1..] == s.active[1..];
      longer := Extend(longer, ESplice(0), blocks, conc);
      assert longer[|longer| - 1].active == s.active[1..];
      longer := AllLeave(longer, blocks, conc);
    }
  }

  /** For every concurrency, and every list of more than three times as many blocks, there is a
      run with an abort after which push never returns: the consumer has left, and nobody will
      call queueResolve. */
  lemma AbortStrandsTheProducer(blocks: seq<Block>, conc: nat) returns (trace: seq<State>)
    requires conc >= 1 && |blocks| > 3 * conc
    ensures Run(trace, blocks, conc)
    ensures var last := trace[|trace| - 1]; last.aborted && !CanMove(last) && !last.Final()
  {
    trace := AllQueued(blocks, 2 * conc, conc);
    trace := Extend(trace, EDeliver, blocks, conc);
    trace := Extend(trace, EAbort, blocks, conc);
    trace := AllLeave(trace, blocks, conc);
    trace := Extend(trace, EConsume, blocks, conc);
    trace := Extend(trace, EDrained, blocks, conc);
    RunKeepsInv(trace, blocks, conc, |trace| - 1);
    StuckExactly(trace[|trace| - 1], blocks, conc);
  }

  // ---------------------------------------------------------------- the closures of push

  /** The local variables of one push call, changed by its producer, consumer and tasks. */
  class Pushing {
    const concurrency: nat
    var todo: seq<Block>
    var producer: Producer
    var queue: seq<Block>
    var consumer: Consumer
    var active: seq<Task>
    ghost var puts: seq<Block>
    ghost var answers: seq<(Block, Answer)>
    var pushed: nat
    var skipped: nat
    var failed: nat
    var bytes: nat
    var errors: seq<Block>
    var completed: nat
    var aborted: bool

    ghost function View(): State
      reads this
    {
      State(todo, producer, queue, consumer, active, puts, answers,
            Stats(pushed, skipped, failed, bytes, errors, completed), aborted)
    }

    constructor (blocks: seq<Block>, concurrency: nat)
      ensures View() == Initial(blocks) && this.concurrency == concurrency
      ensures Inv(View(), blocks, concurrency)
    {
      this.concurrency := concurrency;
      todo, producer, queue, consumer, active := blocks, Walking, [], Running, [];
      puts, answers, aborted := [], [], false;
      pushed, skipped, failed, bytes, errors, completed := 0, 0, 0, 0, [], 0;
      new;
      StartsWell(View(), blocks, concurrency);
    }

    /** `if (consumerResolve) { consumerResolve(); consumerResolve = null; }` */
    method WakeUpConsumer()
      modifies this`consumer
      ensures View() == WakeConsumer(old(View()))
    {
      if consumer == Waiting { consumer := Running; }
    }

    /** One turn of the producer's for-await loop. */
    method ProducerTurn()
      requires producer == Walking
      modifies this
      ensures View() == Deliver(old(View()), concurrency)
    {
      if todo == [] {
        producer := Finished;
        WakeUpConsumer();
        return;
      }
      var block := todo[0];
      todo := todo[1..];
      if aborted {
        producer := Finished;
        WakeUpConsumer();
      } else if |queue| >= concurrency * 2 {
        producer := Blocked(block);
      } else {
        queue, producer := queue + [block], Walking;
        WakeUpConsumer();
      }
    }

    method ProducerResumes()
      requires producer.Woken?
      modifies this
      ensures View() == Resume(old(View()), concurrency)
    {
      var block := producer.block;
      if !aborted && |queue| >= concurrency * 2 {
        producer := Blocked(block);
      } else {
        queue, producer := queue + [block], Walking;
        WakeUpConsumer();
      }
    }

    /** The inner loop of the consumer: shift, signal the producer, start the put. */
    method StartFromQueue()
      modifies this
      ensures View() == StartTasks(old(View()), concurrency)
    {
      ghost var before := View();
      while |active| < concurrency && queue != []
        invariant StartTasks(View(), concurrency) == StartTasks(before, concurrency)
        decreases |queue|
      {
        var block := queue[0];
        queue := queue[1..];
        if producer.Blocked? && |queue| < concurrency * 2 {
          producer := Woken(producer.block);
        }
        if !aborted { puts := puts + [block]; }
        active := active + [Task(block, aborted)];
      }
    }

    method ConsumerTurn()
      requires consumer == Running
      modifies this
      ensures View() == Consume(old(View()), concurrency)
    {
      if (producer == Finished && queue == [] && active == []) || aborted {
        consumer := Draining;
        return;
      }
      StartFromQueue();
      if queue == [] && producer != Finished && |active| < concurrency {
        consumer := Waiting;
      } else {
        consumer := Racing;
      }
    }

    /** The rest of processBlock, once the target store has answered. */
    method PutAnswered(i: nat, answer: Answer)
      requires i < |active| && !active[i].settled
      modifies this
      ensures View() == PutReturns(old(View()), i, answer)
    {
      answers := answers + [(active[i].block, answer)];
      match answer {
        case Returned(isNew) =>
          if !isNew {
            skipped := skipped + 1;
          } else {
            pushed, bytes := pushed + 1, bytes + active[i].block.size;
          }
        case Threw =>
          failed, errors := failed + 1, errors + [active[i].block];
      }
      completed := completed + 1;
      active := active[i := active[i].(settled := true)];
    }

    method TaskLeaves(i: nat)
      requires i < |active| && active[i].settled
      modifies this
      ensures View() == Splice(old(View()), i)
    {
      active := active[..i] + active[i + 1..];
      if consumer == Racing { consumer := Running; }
    }

    /** What a scheduler may do next: any segment that is enabled. */
    predicate CanGoOn()
      reads this
    {
      || producer == Walking
      || producer.Woken?
      || consumer == Running
      || (consumer == Draining && active == [])
      || active != []
    }

    /** One segment, or an abort, as the scheduler and the network choose. */
    method Segment()
      requires CanGoOn()
      modifies this
      ensures Step(old(View()), View(), concurrency)
    {
      ghost var before := View();
      ghost var e: Event;
      if {
        case producer == Walking =>
          e := EDeliver;
          ProducerTurn();
        case producer.Woken? =>
          e := EResume;
          ProducerResumes();
        case consumer == Running =>
          e := EConsume;
          ConsumerTurn();
        case consumer == Draining && active == [] =>
          e := EDrained;
          consumer := Done;
        case active != [] =>
          e := TaskSegment();
        case !aborted =>
          e := EAbort;
          aborted := true;
      }
      assert Enabled(before, e) && Apply(before, e, concurrency) == View();
    }

    /** One of the active puts returns, or leaves `active` once it has. */
    method TaskSegment() returns (ghost e: Event)
      requires active != []
      modifies this
      ensures Enabled(old(View()), e) && Apply(old(View()), e, concurrency) == View()
    {
      var i: nat :| i < |active|;
      var answer: Answer := *;
      if active[i].settled {
        e := ESplice(i);
        TaskLeaves(i);
      } else {
        e := EPutReturns(i, answer);
        PutAnswered(i, answer);
      }
    }

    /** push, from its initial state or any that it gets to: whatever the schedule, the answers of the
        store and the time of an abort, it comes to a stop. All puts have then been answered, and the
        answers are counted by their kind. Without an abort every block has been put once, in walk
        order; with one, it has ended or its producer is blocked for ever. */
    method Push(ghost blocks: seq<Block>)
      requires concurrency >= 1 && Inv(View(), blocks, concurrency)
      modifies this
      ensures Ended(View(), blocks)
    {
      while CanGoOn()
        invariant Inv(View(), blocks, concurrency)
        decreases Rank(View())
      {
        ghost var before := View();
        Segment();
        ghost var after := View();
        StepGoesOn(before, after, blocks, concurrency);
      }
      Stopped(View(), blocks, concurrency);
    }
  }
}
