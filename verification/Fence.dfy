/**
 * Publication of a shared texture through a shared fence: the producer's CPU and GPU queue, the shared info cell, and
 * one consumer's CPU and GPU queue, interleaved step by step. Nothing holds the producer back, so a consumer is
 * promised at least the version it waited for, never exactly that version.
 */
module Fence {
  import opened Words
  import opened Wire

  // ---- the producer: copy, signal, count, publish --------------------------

  datatype ProducerPc = Idle | Copied | Signaled | Counted

  /** The n-th copy into the texture, and the signal that announces it. */
  datatype ProducerCmd = Copy(n: nat) | Signal(v: nat)

  /** `started` and `written` are the last copy the GPU began and finished, `fence` the last value it signalled. */
  datatype Producer = Producer(
    pc: ProducerPc,
    fenceValue: uint64,
    queue: seq<ProducerCmd>,
    started: nat,
    written: nat,
    fence: nat,
    infoFrames: uint32,
    infoFence: uint64)

  const PRODUCER_INIT := Producer(Idle, 0, [], 0, 0, 0, 0, 0)

  datatype ProducerStep = IssueCopy | IssueSignal | Count | Publish | GpuBeginCopy | GpuEndCopy | GpuSignal

  predicate GpuStep(step: ProducerStep) { step.GpuBeginCopy? || step.GpuEndCopy? || step.GpuSignal? }

  predicate Enabled(p: Producer, step: ProducerStep) {
    match step
    case IssueCopy => p.pc.Idle? && p.fenceValue < U64_LIMIT - 1
    case IssueSignal => p.pc.Copied? && p.fenceValue < U64_LIMIT - 1
    case Count => p.pc.Signaled?
    case Publish => p.pc.Counted?
    case GpuBeginCopy => p.queue != [] && p.queue[0].Copy? && p.started < p.queue[0].n
    case GpuEndCopy => p.queue != [] && p.queue[0].Copy? && p.started == p.queue[0].n
    case GpuSignal => p.queue != [] && p.queue[0].Signal?
  }

  function Do(p: Producer, step: ProducerStep): Producer
    requires Enabled(p, step)
  {
    match step
    case IssueCopy => p.(pc := Copied, queue := p.queue + [Copy(p.fenceValue + 1)])
    case IssueSignal => p.(pc := Signaled, fenceValue := p.fenceValue + 1,
                           queue := p.queue + [Signal(p.fenceValue + 1)])
    case Count => p.(pc := Counted, infoFrames := (p.infoFrames + 1) % U32_LIMIT)
    case Publish => p.(pc := Idle, infoFence := p.fenceValue)
    case GpuBeginCopy => p.(started := p.queue[0].n)
    case GpuEndCopy => p.(written := p.queue[0].n, queue := p.queue[1..])
    case GpuSignal => p.(fence := p.queue[0].v, queue := p.queue[1..])
  }

  // The i-th command ever issued: Copy(1), Signal(1), Copy(2), Signal(2), ...
  function CommandAt(i: nat): ProducerCmd { if i % 2 == 0 then Copy(i / 2 + 1) else Signal(i / 2 + 1) }

  function Issued(p: Producer): nat { 2 * p.fenceValue + if p.pc.Copied? then 1 else 0 }

  function Executed(p: Producer): int { Issued(p) - |p.queue| }

  ghost predicate QueuedAt(queue: seq<ProducerCmd>, first: nat, j: nat)
    requires j < |queue|
  {
    queue[j] == CommandAt(first + j)
  }

  /** The queue holds the commands issued and not executed, in order. */
  ghost predicate QueueIs(queue: seq<ProducerCmd>, first: nat) {
    forall j :: 0 <= j < |queue| ==> QueuedAt(queue, first, j)
  }

  ghost predicate ProducerInv(p: Producer) {
    && Executed(p) >= 0
    && QueueIs(p.queue, Executed(p))
    && p.fence == Executed(p) / 2
    && p.written == (Executed(p) + 1) / 2
    && p.written <= p.started <= p.written + 1
    && (p.started > p.written ==> p.queue != [] && p.queue[0].Copy?)
    && p.infoFence == (if p.pc.Signaled? || p.pc.Counted? then p.fenceValue - 1 else p.fenceValue)
    && p.infoFrames == (if p.pc.Signaled? then p.fenceValue - 1 else p.fenceValue) % U32_LIMIT
  }

  /** What a consumer relies on: nothing it has seen is taken back. */
  ghost predicate Advances(p: Producer, q: Producer) {
    && p.fence <= q.fence && p.written <= q.written && p.started <= q.started
    && p.infoFence <= q.infoFence && p.fenceValue <= q.fenceValue
  }

  lemma {:induction false} ProducerStepKeepsInv(p: Producer, step: ProducerStep)
    requires ProducerInv(p) && Enabled(p, step)
    ensures ProducerInv(Do(p, step)) && Advances(p, Do(p, step))
  {
    if GpuStep(step) {
      GpuStepKeepsInv(p, step);
    } else {
      CpuStepKeepsInv(p, step);
    }
  }

  lemma {:induction false} QueueGrows(queue: seq<ProducerCmd>, first: nat)
    requires QueueIs(queue, first)
    ensures QueueIs(queue + [CommandAt(first + |queue|)], first)
  {
    var grown := queue + [CommandAt(first + |queue|)];
    forall j | 0 <= j < |grown| ensures QueuedAt(grown, first, j) {
      assert j < |queue| ==> QueuedAt(queue, first, j);
    }
  }

  lemma {:induction false} QueueShrinks(queue: seq<ProducerCmd>, first: nat)
    requires QueueIs(queue, first) && queue != []
    ensures queue[0] == CommandAt(first) && QueueIs(queue[1..], first + 1)
  {
    assert QueuedAt(queue, first, 0);
    var rest, next := queue[1..], first + 1;
    forall j | 0 <= j < |rest| ensures QueuedAt(rest, next, j) {
      assert QueuedAt(queue, first, j + 1);
    }
  }

  lemma {:induction false} CpuStepKeepsInv(p: Producer, step: ProducerStep)
    requires ProducerInv(p) && Enabled(p, step) && !GpuStep(step)
    ensures ProducerInv(Do(p, step)) && Advances(p, Do(p, step))
  {
    match step
    case IssueCopy =>
      assert CommandAt(2 * p.fenceValue) == Copy(p.fenceValue + 1);
      QueueGrows(p.queue, Executed(p));
    case IssueSignal =>
      assert CommandAt(2 * p.fenceValue + 1) == Signal(p.fenceValue + 1);
      QueueGrows(p.queue, Executed(p));
    case Count => CountMod(p.fenceValue);
    case Publish =>
  }

  lemma {:induction false} GpuStepKeepsInv(p: Producer, step: ProducerStep)
    requires ProducerInv(p) && Enabled(p, step) && GpuStep(step)
    ensures ProducerInv(Do(p, step)) && Advances(p, Do(p, step))
  {
    QueueShrinks(p.queue, Executed(p));
  }

  lemma {:induction false} CountMod(v: nat)
    requires v > 0
    ensures ((v - 1) % U32_LIMIT + 1) % U32_LIMIT == v % U32_LIMIT
  {
  }

  // ---- the consumer: poll, wait, read --------------------------------------

  datatype ConsumerPc = Ready | Latched(latest: nat) | Waited(latest: nat)

  /** `Read(v)` is the texture read enqueued behind `Wait(v)`. */
  datatype ConsumerCmd = Wait(v: nat) | Read(v: nat)

  /** A finished read: all it saw comes from versions `low`..`high`. */
  datatype Seen = Seen(waited: nat, low: nat, high: nat)

  datatype Consumer = Consumer(
    pc: ConsumerPc,
    last: nat,
    queue: seq<ConsumerCmd>,
    passed: nat,
    reading: Option<nat>,
    waits: seq<nat>,
    seen: seq<Seen>)

  const CONSUMER_INIT := Consumer(Ready, 0, [], 0, None, [], [])

  datatype ConsumerStep = Poll | EnqueueWait | EnqueueRead | GpuPassWait | GpuBeginRead | GpuEndRead

  predicate CanTake(c: Consumer, p: Producer, step: ConsumerStep) {
    match step
    case Poll => c.pc.Ready?
    case EnqueueWait => c.pc.Latched?
    case EnqueueRead => c.pc.Waited?
    case GpuPassWait => c.queue != [] && c.queue[0].Wait? && c.queue[0].v <= p.fence
    case GpuBeginRead => c.queue != [] && c.queue[0].Read? && c.reading.None?
    case GpuEndRead => c.queue != [] && c.queue[0].Read? && c.reading.Some?
  }

  /**
   * `strict` is streamsender, which takes a fence value only once; otherwise screendisplay, which draws the
   * latest one again and again but draws nothing before the first.
   */
  function Take(c: Consumer, p: Producer, strict: bool, step: ConsumerStep): Consumer
    requires CanTake(c, p, step)
  {
    match step
    case Poll =>
      if (if strict then p.infoFence <= c.last else p.infoFence == 0) then c
      else c.(pc := Latched(p.infoFence), last := p.infoFence)
    case EnqueueWait => c.(pc := Waited(c.pc.latest), queue := c.queue + [Wait(c.pc.latest)],
                           waits := c.waits + [c.pc.latest])
    case EnqueueRead => c.(pc := Ready, queue := c.queue + [Read(c.pc.latest)])
    case GpuPassWait => c.(passed := c.queue[0].v, queue := c.queue[1..])
    case GpuBeginRead => c.(reading := Some(p.written))
    case GpuEndRead => c.(reading := None, queue := c.queue[1..],
                          seen := c.seen + [Seen(c.queue[0].v, c.reading.value, p.started)])
  }

  /** Every queued read stands right behind its own wait, unless that wait has been passed. */
  ghost predicate ReadsGuarded(queue: seq<ConsumerCmd>, passed: nat) {
    && (queue != [] && queue[0].Read? ==> queue[0].v <= passed)
    && (forall j :: 0 <= j < |queue| - 1 && queue[j + 1].Read? ==> queue[j] == Wait(queue[j + 1].v))
  }

  /** Each wait on record has a value that was published, in order. */
  ghost predicate WaitsOrdered(waits: seq<nat>, strict: bool, limit: nat) {
    && (forall j :: 0 <= j < |waits| ==> 0 < waits[j] <= limit)
    && (forall i, j :: 0 <= i < j < |waits| ==> if strict then waits[i] < waits[j] else waits[i] <= waits[j])
  }

  ghost predicate SeenEnough(seen: seq<Seen>, limit: nat) {
    && (forall j :: 0 <= j < |seen| ==> seen[j].waited <= seen[j].low <= seen[j].high && seen[j].low <= limit)
    && (forall i, j :: 0 <= i < j < |seen| ==> seen[i].low <= seen[j].low)
  }

  ghost predicate ConsumerInv(c: Consumer, p: Producer, strict: bool) {
    && ReadsGuarded(c.queue, c.passed)
    && (c.pc.Waited? ==> if c.queue == [] then c.pc.latest <= c.passed else c.queue[|c.queue| - 1] == Wait(c.pc.latest))
    && c.passed <= p.fence
    && WaitsOrdered(c.waits, strict, c.last)
    && c.last <= p.infoFence
    && (c.pc.Latched? ==> 0 < c.pc.latest == c.last)
    && (c.pc.Latched? && strict ==> forall j :: 0 <= j < |c.waits| ==> c.waits[j] < c.last)
    && (forall j :: 0 <= j < |c.queue| && c.queue[j].Wait? ==> c.queue[j].v <= c.last)
    && SeenEnough(c.seen, p.written)
    && (c.reading.Some? ==>
         && c.queue != [] && c.queue[0].Read?
         && c.queue[0].v <= c.reading.value <= p.written
         && forall j :: 0 <= j < |c.seen| ==> c.seen[j].low <= c.reading.value)
  }

  lemma {:induction false} GuardedAppend(queue: seq<ConsumerCmd>, passed: nat, cmd: ConsumerCmd)
    requires ReadsGuarded(queue, passed)
    requires cmd.Read? ==> if queue == [] then cmd.v <= passed else queue[|queue| - 1] == Wait(cmd.v)
    ensures ReadsGuarded(queue + [cmd], passed)
  {
    var q := queue + [cmd];
    forall j | 0 <= j < |q| - 1 && q[j + 1].Read? ensures q[j] == Wait(q[j + 1].v) {
      if j < |queue| - 1 {
        assert q[j] == queue[j] && q[j + 1] == queue[j + 1];
      }
    }
  }

  lemma {:induction false} CpuTakeKeepsInv(c: Consumer, p: Producer, strict: bool, step: ConsumerStep)
    requires ConsumerInv(c, p, strict) && CanTake(c, p, step) && (step.Poll? || step.EnqueueWait? || step.EnqueueRead?)
    ensures ConsumerInv(Take(c, p, strict, step), p, strict)
  {
    match step
    case EnqueueWait => GuardedAppend(c.queue, c.passed, Wait(c.pc.latest));
    case EnqueueRead => GuardedAppend(c.queue, c.passed, Read(c.pc.latest));
    case _ =>
  }

  lemma {:induction false} GpuTakeKeepsInv(c: Consumer, p: Producer, strict: bool, step: ConsumerStep)
    requires p.fence <= p.written <= p.started && ConsumerInv(c, p, strict) && CanTake(c, p, step)
    requires step.GpuPassWait? || step.GpuBeginRead? || step.GpuEndRead?
    ensures ConsumerInv(Take(c, p, strict, step), p, strict)
  {
    if !step.GpuBeginRead? {
      assert forall j :: 0 <= j < |c.queue| - 1 ==> c.queue[1..][j] == c.queue[j + 1];
    }
  }

  lemma {:induction false} ConsumerStepKeepsInv(c: Consumer, p: Producer, strict: bool, step: ConsumerStep)
    requires ProducerInv(p) && ConsumerInv(c, p, strict) && CanTake(c, p, step)
    ensures ConsumerInv(Take(c, p, strict, step), p, strict)
  {
    if step.Poll? || step.EnqueueWait? || step.EnqueueRead? {
      CpuTakeKeepsInv(c, p, strict, step);
    } else {
      GpuTakeKeepsInv(c, p, strict, step);
    }
  }

  lemma {:induction false} AdvanceKeepsConsumerInv(c: Consumer, p: Producer, q: Producer, strict: bool)
    requires ConsumerInv(c, p, strict) && Advances(p, q)
    ensures ConsumerInv(c, q, strict)
  {
  }

  // ---- both, in every interleaving -----------------------------------------

  /** One turn of a consumer's loop on the CPU: poll, and if there is something to take, wait for it and read. */
  function Turn(c: Consumer, p: Producer, strict: bool): Consumer
    requires c.pc.Ready?
  {
    var polled := Take(c, p, strict, Poll);
    if polled.pc.Ready? then polled
    else Take(Take(polled, p, strict, EnqueueWait), p, strict, EnqueueRead)
  }

  /** A turn is made of consumer steps, so it keeps what every fence theorem rests on. */
  lemma {:induction false} TurnKeepsInv(c: Consumer, p: Producer, strict: bool)
    requires ConsumerInv(c, p, strict) && ProducerInv(p) && c.pc.Ready?
    ensures ConsumerInv(Turn(c, p, strict), p, strict) && Turn(c, p, strict).pc.Ready?
  {
    var polled := Take(c, p, strict, Poll);
    ConsumerStepKeepsInv(c, p, strict, Poll);
    if polled.pc.Latched? {
      var waited := Take(polled, p, strict, EnqueueWait);
      ConsumerStepKeepsInv(polled, p, strict, EnqueueWait);
      ConsumerStepKeepsInv(waited, p, strict, EnqueueRead);
    }
  }

  datatype World = World(p: Producer, c: Consumer)

  ghost predicate Next(a: World, b: World, strict: bool) {
    || (exists step :: Enabled(a.p, step) && b == a.(p := Do(a.p, step)))
    || (exists step :: CanTake(a.c, a.p, step) && b == a.(c := Take(a.c, a.p, strict, step)))
  }

  ghost predicate NextAt(run: seq<World>, strict: bool, k: nat)
    requires k + 1 < |run|
  {
    Next(run[k], run[k + 1], strict)
  }

  ghost predicate IsRun(run: seq<World>, strict: bool) {
    && |run| > 0 && run[0] == World(PRODUCER_INIT, CONSUMER_INIT)
    && forall k :: 0 <= k < |run| - 1 ==> NextAt(run, strict, k)
  }

  ghost predicate Inv(w: World, strict: bool) { ProducerInv(w.p) && ConsumerInv(w.c, w.p, strict) }

  lemma {:induction false} NextKeepsInv(a: World, b: World, strict: bool)
    requires Inv(a, strict) && Next(a, b, strict)
    ensures Inv(b, strict) && Advances(a.p, b.p)
  {
    if step: ProducerStep :| Enabled(a.p, step) && b == a.(p := Do(a.p, step)) {
      ProducerStepKeepsInv(a.p, step);
      AdvanceKeepsConsumerInv(a.c, a.p, b.p, strict);
    } else {
      var step :| CanTake(a.c, a.p, step) && b == a.(c := Take(a.c, a.p, strict, step));
      ConsumerStepKeepsInv(a.c, a.p, strict, step);
    }
  }

  lemma {:induction false} RunKeepsInv(run: seq<World>, strict: bool, n: nat)
    requires IsRun(run, strict) && n < |run|
    ensures Inv(run[n], strict)
  {
    if n > 0 {
      RunKeepsInv(run, strict, n - 1);
      assert NextAt(run, strict, n - 1);
      NextKeepsInv(run[n - 1], run[n], strict);
    }
  }

  /**
   * Fence safety in every interleaving: a read behind Wait(v) sees nothing older than version v, later reads see
   * nothing older than earlier ones, and the sender never waits for the same value twice.
   */
  lemma {:induction false} ReadsSeeWhatTheyWaitedFor(run: seq<World>, strict: bool, n: nat)
    requires IsRun(run, strict) && n < |run|
    ensures var c := run[n].c;
            && (forall j :: 0 <= j < |c.seen| ==> c.seen[j].waited <= c.seen[j].low <= c.seen[j].high)
            && (forall i, j :: 0 <= i < j < |c.seen| ==> c.seen[i].low <= c.seen[j].low)
            && (strict ==> forall i, j :: 0 <= i < j < |c.waits| ==> c.waits[i] < c.waits[j])
  {
    RunKeepsInv(run, strict, n);
  }

  /** Between two turns of the producer's loop the frame count is the published fence value modulo 2^32. */
  lemma {:induction false} FrameCountIsFenceValue(run: seq<World>, strict: bool, n: nat)
    requires IsRun(run, strict) && n < |run| && run[n].p.pc.Idle?
    ensures run[n].p.infoFrames == run[n].p.fenceValue % U32_LIMIT
    ensures run[n].p.infoFence == run[n].p.fenceValue
  {
    RunKeepsInv(run, strict, n);
  }

  /** Every value waited for, or about to be, has its signal in the producer's queue or already given. */
  lemma {:induction false} NoOrphanWait(run: seq<World>, strict: bool, n: nat, v: nat)
    requires IsRun(run, strict) && n < |run|
    requires v in run[n].c.waits || run[n].c.pc == Latched(v)
    ensures v > 0 && (v <= run[n].p.fence || Signal(v) in run[n].p.queue)
  {
    RunKeepsInv(run, strict, n);
    SignalIsIssued(run[n].p, v);
  }

  lemma {:induction false} SignalIsIssued(p: Producer, v: nat)
    requires ProducerInv(p) && 0 < v <= p.infoFence
    ensures v <= p.fence || Signal(v) in p.queue
  {
    if p.fence < v {
      var i := 2 * (v - 1) + 1;
      assert CommandAt(i) == Signal(v) && Executed(p) <= i < Issued(p);
      assert QueuedAt(p.queue, Executed(p), i - Executed(p));
    }
  }

  function GpuStepsLeft(p: Producer): nat {
    2 * |p.queue| + if p.queue != [] && p.queue[0].Copy? && p.started < p.queue[0].n then 1 else 0
  }

  ghost predicate GpuMove(p: Producer, q: Producer) {
    exists step :: GpuStep(step) && Enabled(p, step) && q == Do(p, step)
  }

  lemma {:induction false} GpuCanMove(p: Producer) returns (step: ProducerStep)
    requires ProducerInv(p) && p.queue != []
    ensures GpuStep(step) && Enabled(p, step) && GpuMove(p, Do(p, step))
    ensures ProducerInv(Do(p, step)) && Advances(p, Do(p, step)) && GpuStepsLeft(Do(p, step)) < GpuStepsLeft(p)
  {
    assert QueuedAt(p.queue, Executed(p), 0);
    step := if p.queue[0].Signal? then GpuSignal
            else if p.started < p.queue[0].n then GpuBeginCopy else GpuEndCopy;
    ProducerStepKeepsInv(p, step);
    NextIsSmaller(p, step);
  }

  /** The producer's queue runs dry on its own, and then the fence has every value it ever published. */
  lemma {:induction false} QueueRunsDry(p: Producer) returns (run: seq<Producer>)
    requires ProducerInv(p)
    ensures |run| > 0 && run[0] == p
    ensures forall k :: 0 <= k < |run| - 1 ==> GpuMove(run[k], run[k + 1])
    ensures run[|run| - 1].queue == [] && p.infoFence <= run[|run| - 1].fence
    decreases GpuStepsLeft(p)
  {
    if p.queue == [] {
      run := [p];
    } else {
      var step := GpuCanMove(p);
      var rest := QueueRunsDry(Do(p, step));
      run := [p] + rest;
      forall k | 0 <= k < |run| - 1 ensures GpuMove(run[k], run[k + 1]) {
        if k > 0 {
          assert run[k] == rest[k - 1] && run[k + 1] == rest[k - 1 + 1];
        }
      }
    }
  }

  /** Progress of the producer's queue alone unblocks the consumer, whatever value it waits for. */
  lemma {:induction false} ProducerQueueUnblocks(run: seq<World>, strict: bool, n: nat) returns (gpu: seq<Producer>)
    requires IsRun(run, strict) && n < |run|
    ensures |gpu| > 0 && gpu[0] == run[n].p
    ensures forall k :: 0 <= k < |gpu| - 1 ==> GpuMove(gpu[k], gpu[k + 1])
    ensures var fence := gpu[|gpu| - 1].fence;
            && (forall j :: 0 <= j < |run[n].c.waits| ==> run[n].c.waits[j] <= fence)
            && (run[n].c.pc.Latched? ==> run[n].c.pc.latest <= fence)
  {
    RunKeepsInv(run, strict, n);
    gpu := QueueRunsDry(run[n].p);
  }

  lemma {:induction false} NextIsSmaller(p: Producer, step: ProducerStep)
    requires ProducerInv(p) && Enabled(p, step) && GpuStep(step)
    ensures GpuStepsLeft(Do(p, step)) < GpuStepsLeft(p)
  {
  }

  // ---- the promise is not exact --------------------------------------------

  function Then(w: World, step: ProducerStep): World
    requires Enabled(w.p, step)
  {
    w.(p := Do(w.p, step))
  }

  function ThenTake(w: World, step: ConsumerStep): World
    requires CanTake(w.c, w.p, step)
  {
    w.(c := Take(w.c, w.p, true, step))
  }

  lemma {:induction false} ExtendByProducer(run: seq<World>, step: ProducerStep)
    requires IsRun(run, true) && Enabled(run[|run| - 1].p, step)
    ensures IsRun(run + [Then(run[|run| - 1], step)], true)
  {
    var more := run + [Then(run[|run| - 1], step)];
    forall k | 0 <= k < |more| - 1 ensures NextAt(more, true, k) {
      assert k < |run| - 1 ==> NextAt(run, true, k);
    }
  }

  lemma {:induction false} ExtendByConsumer(run: seq<World>, step: ConsumerStep)
    requires IsRun(run, true) && CanTake(run[|run| - 1].c, run[|run| - 1].p, step)
    ensures IsRun(run + [ThenTake(run[|run| - 1], step)], true)
  {
    var more := run + [ThenTake(run[|run| - 1], step)];
    forall k | 0 <= k < |more| - 1 ensures NextAt(more, true, k) {
      assert k < |run| - 1 ==> NextAt(run, true, k);
    }
  }

  /** Version 1 is published and its wait has been passed. */
  function FirstPublished(): World {
    World(Producer(Idle, 1, [], 1, 1, 1, 1, 1), Consumer(Ready, 1, [Read(1)], 1, None, [1], []))
  }

  lemma {:induction false} FirstIsIssued() returns (run: seq<World>)
    ensures IsRun(run, true)
    ensures run[|run| - 1] == World(Producer(Idle, 1, [Copy(1), Signal(1)], 0, 0, 0, 1, 1), CONSUMER_INIT)
  {
    var w0 := World(PRODUCER_INIT, CONSUMER_INIT);
    run := [w0];
    ExtendByProducer(run, IssueCopy);
    run := run + [Then(w0, IssueCopy)];
    var w1 := World(Producer(Copied, 0, [Copy(1)], 0, 0, 0, 0, 0), CONSUMER_INIT);
    assert run[|run| - 1] == w1;
    ExtendByProducer(run, IssueSignal);
    run := run + [Then(w1, IssueSignal)];
    var w2 := World(Producer(Signaled, 1, [Copy(1), Signal(1)], 0, 0, 0, 0, 0), CONSUMER_INIT);
    assert run[|run| - 1] == w2;
    ExtendByProducer(run, Count);
    run := run + [Then(w2, Count)];
    var w3 := w2.(p := w2.p.(pc := Counted, infoFrames := 1));
    ExtendByProducer(run, Publish);
    run := run + [Then(w3, Publish)];
  }

  lemma {:induction false} FirstPublishedIsReached() returns (run: seq<World>)
    ensures IsRun(run, true) && run[|run| - 1] == FirstPublished()
  {
    run := FirstIsIssued();
    var w4 := run[|run| - 1];
    ExtendByProducer(run, GpuBeginCopy);
    run := run + [Then(w4, GpuBeginCopy)];
    var w5 := w4.(p := w4.p.(started := 1));
    ExtendByProducer(run, GpuEndCopy);
    run := run + [Then(w5, GpuEndCopy)];
    var w6 := w5.(p := w5.p.(written := 1, queue := [Signal(1)]));
    assert run[|run| - 1] == w6;
    ExtendByProducer(run, GpuSignal);
    run := run + [Then(w6, GpuSignal)];
    var w7 := World(Producer(Idle, 1, [], 1, 1, 1, 1, 1), CONSUMER_INIT);
    assert run[|run| - 1] == w7;
    run := FirstWaitIsPassed(run);
  }

  lemma {:induction false} FirstWaitIsPassed(before: seq<World>) returns (run: seq<World>)
    requires IsRun(before, true) && before[|before| - 1] == World(Producer(Idle, 1, [], 1, 1, 1, 1, 1), CONSUMER_INIT)
    ensures IsRun(run, true) && run[|run| - 1] == FirstPublished()
  {
    var w := before[|before| - 1];
    ExtendByConsumer(before, Poll);
    run := before + [ThenTake(w, Poll)];
    var w1 := w.(c := Consumer(Latched(1), 1, [], 0, None, [], []));
    ExtendByConsumer(run, EnqueueWait);
    run := run + [ThenTake(w1, EnqueueWait)];
    var w2 := w.(c := Consumer(Waited(1), 1, [Wait(1)], 0, None, [1], []));
    assert run[|run| - 1] == w2;
    ExtendByConsumer(run, EnqueueRead);
    run := run + [ThenTake(w2, EnqueueRead)];
    var w3 := w.(c := Consumer(Ready, 1, [Wait(1), Read(1)], 0, None, [1], []));
    assert run[|run| - 1] == w3;
    ExtendByConsumer(run, GpuPassWait);
    run := run + [ThenTake(w3, GpuPassWait)];
    assert run[|run| - 1] == FirstPublished();
  }

  /** The read that waited for version 1 can meet the copy of version 2: "at least" is all that holds. */
  lemma {:induction false} ReadCanMeetTheNextCopy() returns (run: seq<World>)
    ensures IsRun(run, true) && run[|run| - 1].c.seen == [Seen(1, 1, 2)]
  {
    run := FirstPublishedIsReached();
    var w := FirstPublished();
    ExtendByConsumer(run, GpuBeginRead);
    run := run + [ThenTake(w, GpuBeginRead)];
    var w1 := w.(c := w.c.(reading := Some(1)));
    ExtendByProducer(run, IssueCopy);
    run := run + [Then(w1, IssueCopy)];
    var w2 := w1.(p := w1.p.(pc := Copied, queue := [Copy(2)]));
    assert run[|run| - 1] == w2;
    ExtendByProducer(run, GpuBeginCopy);
    run := run + [Then(w2, GpuBeginCopy)];
    var w3 := w2.(p := w2.p.(started := 2));
    ExtendByConsumer(run, GpuEndRead);
    run := run + [ThenTake(w3, GpuEndRead)];
  }
}
