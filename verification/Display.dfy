/** screendisplay's render loop: two command allocators reused under a frame fence while the GPU runs behind. */
module Display {
  import opened Words
  import Fence

  const FRAME_COUNT := 2

  /**
   * What the CPU hands to the GPU queue. `Execute(a, drawn)` runs the command list recorded with allocator `a`, which
   * samples the shared texture at fence value `drawn`, or only clears the target if that is 0.
   */
  datatype Command = WaitShared(v: nat) | Execute(allocator: nat, drawn: nat) | Present | SignalFrame(v: nat)

  function Signals(queue: seq<Command>): (n: nat)
    ensures n <= |queue|
  {
    if queue == [] then 0
    else Signals(queue[..|queue| - 1]) + if queue[|queue| - 1].SignalFrame? then 1 else 0
  }

  /** The fence value that will be signalled first when the GPU gets from the queue's front past position j. */
  function BatchAt(queue: seq<Command>, completed: nat, j: nat): nat
    requires j < |queue|
  {
    completed + 1 + Signals(queue[..j])
  }

  ghost predicate EndsWithSignal(queue: seq<Command>) { queue != [] ==> queue[|queue| - 1].SignalFrame? }

  /** A signal has the value of its own batch; a command list's batch is no later than its allocator's value. */
  ghost predicate PacedAt(queue: seq<Command>, completed: nat, perFrame: seq<nat>, j: nat)
    requires j < |queue|
  {
    match queue[j]
    case SignalFrame(v) => v == BatchAt(queue, completed, j)
    case Execute(a, _) => a < |perFrame| && BatchAt(queue, completed, j) <= perFrame[a]
    case _ => true
  }

  /**
   * The signals in the queue are the successors of the completed value, in order; each allocator's value is that
   * of a batch no earlier than any of its command lists still in the queue; and the queue ends with the newest signal.
   */
  ghost predicate Paced(queue: seq<Command>, completed: nat, perFrame: seq<nat>, newest: nat) {
    && newest == completed + Signals(queue)
    && EndsWithSignal(queue)
    && (forall j :: 0 <= j < |queue| ==> PacedAt(queue, completed, perFrame, j))
    && (forall a :: 0 <= a < |perFrame| ==> perFrame[a] <= newest)
  }

  lemma {:induction false} SignalsSplit(a: seq<Command>, b: seq<Command>)
    ensures Signals(a + b) == Signals(a) + Signals(b)
  {
    if b == [] {
      assert a + b == a;
    } else {
      var n := |b| - 1;
      SignalsSplit(a, b[..n]);
      assert (a + b)[..|a| + n] == a + b[..n];
    }
  }

  // The fence's value after the GPU is done with one command.
  function CompletedAfter(completed: nat, cmd: Command): nat { if cmd.SignalFrame? then cmd.v else completed }

  lemma {:induction false} BatchStays(queue: seq<Command>, completed: nat, j: nat)
    requires 0 < j < |queue| && (queue[0].SignalFrame? ==> queue[0].v == completed + 1)
    ensures BatchAt(queue[1..], CompletedAfter(completed, queue[0]), j - 1) == BatchAt(queue, completed, j)
  {
    assert queue[..j] == [queue[0]] + queue[1..][..j - 1];
    SignalsSplit([queue[0]], queue[1..][..j - 1]);
    assert [queue[0]][..0] == [];
  }

  /** The GPU retiring the command at the front. */
  lemma {:induction false} RetireKeepsPaced(queue: seq<Command>, completed: nat, perFrame: seq<nat>, newest: nat)
    requires Paced(queue, completed, perFrame, newest) && queue != []
    ensures Paced(queue[1..], CompletedAfter(completed, queue[0]), perFrame, newest)
    ensures completed <= CompletedAfter(completed, queue[0])
  {
    var rest := queue[1..];
    assert queue[..0] == [] && [queue[0]][..0] == [];
    assert queue == [queue[0]] + rest;
    SignalsSplit([queue[0]], rest);
    assert PacedAt(queue, completed, perFrame, 0);
    forall j | 0 <= j < |rest| ensures PacedAt(rest, CompletedAfter(completed, queue[0]), perFrame, j) {
      assert PacedAt(queue, completed, perFrame, j + 1);
      BatchStays(queue, completed, j + 1);
    }
  }

  // One iteration's submissions, in order.
  function Batch(latest: nat, allocator: nat, v: nat): seq<Command> {
    (if latest > 0 then [WaitShared(latest)] else []) + [Execute(allocator, latest), Present, SignalFrame(v)]
  }

  /** A list that samples the texture stands right behind the wait for its fence value, or that was passed last. */
  ghost predicate GuardedAt(queue: seq<Command>, passed: nat, j: nat)
    requires j < |queue|
  {
    queue[j].Execute? && queue[j].drawn > 0 ==>
      if j == 0 then queue[j].drawn == passed else queue[j - 1] == WaitShared(queue[j].drawn)
  }

  ghost predicate Guarded(queue: seq<Command>, passed: nat) {
    forall j :: 0 <= j < |queue| ==> GuardedAt(queue, passed, j)
  }

  // The last shared-fence value the GPU waited for.
  function PassedAfter(passed: nat, cmd: Command): nat { if cmd.WaitShared? then cmd.v else passed }

  lemma {:induction false} RetireKeepsGuarded(queue: seq<Command>, passed: nat)
    requires Guarded(queue, passed) && queue != []
    ensures Guarded(queue[1..], PassedAfter(passed, queue[0]))
    ensures queue[0].Execute? && queue[0].drawn > 0 ==> queue[0].drawn == passed
  {
    assert GuardedAt(queue, passed, 0);
    forall j | 0 <= j < |queue[1..]| ensures GuardedAt(queue[1..], PassedAfter(passed, queue[0]), j) {
      assert GuardedAt(queue, passed, j + 1);
    }
  }

  lemma {:induction false} SubmitKeepsGuarded(queue: seq<Command>, passed: nat, latest: nat, a: nat, v: nat)
    requires Guarded(queue, passed)
    ensures Guarded(queue + Batch(latest, a, v), passed)
    ensures forall j :: |queue| <= j < |queue + Batch(latest, a, v)| && (queue + Batch(latest, a, v))[j].Execute? ==>
              (queue + Batch(latest, a, v))[j] == Execute(a, latest)
    ensures latest == 0 ==> forall j :: 0 <= j < |Batch(latest, a, v)| ==> !Batch(latest, a, v)[j].WaitShared?
  {
    var more := Batch(latest, a, v);
    forall j | 0 <= j < |queue + more| ensures GuardedAt(queue + more, passed, j) {
      if j < |queue| {
        assert GuardedAt(queue, passed, j);
      } else {
        assert (queue + more)[j] == more[j - |queue|];
      }
    }
  }

  lemma {:induction false} LastSignalKeepsGuarded(queue: seq<Command>, passed: nat, v: nat)
    requires Guarded(queue, passed)
    ensures Guarded(queue + [SignalFrame(v)], passed)
  {
    forall j | 0 <= j < |queue + [SignalFrame(v)]| ensures GuardedAt(queue + [SignalFrame(v)], passed, j) {
      if j < |queue| {
        assert GuardedAt(queue, passed, j);
      }
    }
  }

  lemma {:induction false} SignalsZeroIff(queue: seq<Command>)
    ensures Signals(queue) == 0 <==> forall j :: 0 <= j < |queue| ==> !queue[j].SignalFrame?
  {
    if queue != [] {
      SignalsZeroIff(queue[..|queue| - 1]);
    }
  }

  /**
   * Appending commands leaves the batches of the earlier ones alone; a batch without inner signals is all `newest +
   * 1`.
   */
  lemma {:induction false} AppendedBatches(queue: seq<Command>, more: seq<Command>, completed: nat, j: nat)
    requires j < |queue + more|
    requires forall i :: 0 <= i < |more| - 1 ==> !more[i].SignalFrame?
    ensures BatchAt(queue + more, completed, j) ==
            if j < |queue| then BatchAt(queue, completed, j) else completed + 1 + Signals(queue)
  {
    var q := queue + more;
    if j < |queue| {
      assert q[..j] == queue[..j];
    } else {
      assert q[..j] == queue + more[..j - |queue|];
      SignalsSplit(queue, more[..j - |queue|]);
      SignalsZeroIff(more[..j - |queue|]);
    }
  }

  /** Appending commands that end with the signal of the next value, all on behalf of allocators that get that value. */
  lemma {:induction false} AppendKeepsPaced(queue: seq<Command>, completed: nat, perFrame: seq<nat>, newest: nat,
                                            more: seq<Command>, after: seq<nat>)
    requires Paced(queue, completed, perFrame, newest)
    requires more != [] && more[|more| - 1] == SignalFrame(newest + 1)
    requires forall i :: 0 <= i < |more| - 1 ==> !more[i].SignalFrame?
    requires |after| == |perFrame| && forall k :: 0 <= k < |after| ==> perFrame[k] <= after[k] <= newest + 1
    requires forall i :: 0 <= i < |more| && more[i].Execute? ==>
               more[i].allocator < |after| && after[more[i].allocator] == newest + 1
    ensures Paced(queue + more, completed, after, newest + 1)
  {
    var q := queue + more;
    SignalsSplit(queue, more);
    SignalsZeroIff(more[..|more| - 1]);
    forall j | 0 <= j < |q| ensures PacedAt(q, completed, after, j) {
      AppendedBatches(queue, more, completed, j);
      if j < |queue| {
        assert PacedAt(queue, completed, perFrame, j);
      } else {
        assert q[j] == more[j - |queue|];
      }
    }
  }

  /** Submitting one more batch on behalf of allocator `a`. */
  lemma {:induction false} SubmitKeepsPaced(queue: seq<Command>, completed: nat, perFrame: seq<nat>, newest: nat,
                                            latest: nat, a: nat)
    requires Paced(queue, completed, perFrame, newest) && a < |perFrame|
    ensures Paced(queue + Batch(latest, a, newest + 1), completed, perFrame[a := newest + 1], newest + 1)
  {
    AppendKeepsPaced(queue, completed, perFrame, newest, Batch(latest, a, newest + 1), perFrame[a := newest + 1]);
  }

  /** Teardown's extra signal. */
  lemma {:induction false} LastSignalKeepsPaced(queue: seq<Command>, completed: nat, perFrame: seq<nat>, newest: nat)
    requires Paced(queue, completed, perFrame, newest)
    ensures Paced(queue + [SignalFrame(newest + 1)], completed, perFrame, newest + 1)
  {
    AppendKeepsPaced(queue, completed, perFrame, newest, [SignalFrame(newest + 1)], perFrame);
  }

  lemma {:induction false} SubmittedInOrder(before: seq<Command>, latest: nat, a: nat, v: nat)
    ensures var waiting := if latest > 0 then before + [WaitShared(latest)] else before;
            waiting + [Execute(a, latest)] + [Present] + [SignalFrame(v)] == before + Batch(latest, a, v)
  {
  }

  // ---- as a consumer of the shared texture -----------------------------------

  function SharedCmd(cmd: Command): seq<Fence.ConsumerCmd> {
    match cmd
    case WaitShared(v) => [Fence.Wait(v)]
    case Execute(_, drawn) => if drawn > 0 then [Fence.Read(drawn)] else []
    case _ => []
  }

  /** What of the queue concerns the shared texture. */
  function Shared(queue: seq<Command>): seq<Fence.ConsumerCmd> {
    if queue == [] then [] else SharedCmd(queue[0]) + Shared(queue[1..])
  }

  lemma {:induction false} SharedSplit(a: seq<Command>, b: seq<Command>)
    ensures Shared(a + b) == Shared(a) + Shared(b)
  {
    if a == [] {
      assert a + b == b;
    } else {
      SharedSplit(a[1..], b);
      assert (a + b)[1..] == a[1..] + b && (a + b)[0] == a[0];
      Associate(SharedCmd(a[0]), Shared(a[1..]), Shared(b));
    }
  }

  lemma {:induction false} SharedOfBatch(latest: nat, a: nat, v: nat)
    ensures Shared(Batch(latest, a, v)) == if latest > 0 then [Fence.Wait(latest), Fence.Read(latest)] else []
  {
    var drawing := [Execute(a, latest), Present, SignalFrame(v)];
    assert drawing[1..] == [Present, SignalFrame(v)] && drawing[1..][1..] == [SignalFrame(v)];
    assert drawing[1..][1..][1..] == [];
    assert Shared(drawing[1..][1..]) == [] && Shared(drawing[1..]) == [];
    assert Shared(drawing) == if latest > 0 then [Fence.Read(latest)] else [];
    if latest > 0 {
      assert Batch(latest, a, v)[1..] == drawing;
    } else {
      assert Batch(latest, a, v) == drawing;
    }
  }

  /** The consumer the queue belongs to, between two of its turns and two of its GPU commands. */
  ghost predicate Serves(c: Fence.Consumer, queue: seq<Command>, passed: nat) {
    c.pc.Ready? && c.reading.None? && c.queue == Shared(queue) && c.passed == passed
  }

  /** Submitting a batch is a turn of that consumer: the wait, then the drawing, or neither before a first value. */
  lemma {:induction false} SubmitIsATurn(c: Fence.Consumer, p: Fence.Producer, queue: seq<Command>, passed: nat,
                                         a: nat, v: nat)
    requires Serves(c, queue, passed)
    ensures Serves(Fence.Turn(c, p, false), queue + Batch(p.infoFence, a, v), passed)
  {
    SharedSplit(queue, Batch(p.infoFence, a, v));
    SharedOfBatch(p.infoFence, a, v);
    if p.infoFence > 0 {
      assert Shared(queue) + [Fence.Wait(p.infoFence)] + [Fence.Read(p.infoFence)]
          == Shared(queue) + [Fence.Wait(p.infoFence), Fence.Read(p.infoFence)];
    }
  }

  /** The consumer's GPU steps for one command of the display's queue, if the GPU can take them. */
  function GpuRuns(c: Fence.Consumer, p: Fence.Producer, cmd: Command): Fence.Consumer {
    if cmd.WaitShared? && Fence.CanTake(c, p, Fence.GpuPassWait) then Fence.Take(c, p, false, Fence.GpuPassWait)
    else if cmd.Execute? && cmd.drawn > 0 && Fence.CanTake(c, p, Fence.GpuBeginRead) then
      Fence.Take(Fence.Take(c, p, false, Fence.GpuBeginRead), p, false, Fence.GpuEndRead)
    else c
  }

  /** Retiring the front command is what the consumer's GPU does, once the producer's fence lets a wait pass. */
  lemma {:induction false} RetireIsGpuStep(c: Fence.Consumer, p: Fence.Producer, queue: seq<Command>, passed: nat)
    requires Serves(c, queue, passed) && queue != [] && (queue[0].WaitShared? ==> queue[0].v <= p.fence)
    ensures Serves(GpuRuns(c, p, queue[0]), queue[1..], PassedAfter(passed, queue[0]))
  {
    assert Shared(queue) == SharedCmd(queue[0]) + Shared(queue[1..]);
    if SharedCmd(queue[0]) != [] {
      assert Shared(queue)[1..] == Shared(queue[1..]);
    }
  }

  /** No command list recorded with this allocator is unfinished. */
  ghost predicate Unused(queue: seq<Command>, a: nat) {
    forall j :: 0 <= j < |queue| && queue[j].Execute? ==> queue[j].allocator != a
  }

  /** Once the fence has reached an allocator's value, none of its command lists is left in the queue. */
  lemma {:induction false} ReachedValueMeansIdle(queue: seq<Command>, completed: nat, perFrame: seq<nat>, newest: nat,
                                                 a: nat)
    requires Paced(queue, completed, perFrame, newest) && a < |perFrame| && perFrame[a] <= completed
    ensures Unused(queue, a)
  {
    forall j | 0 <= j < |queue| && queue[j].Execute? ensures queue[j].allocator != a {
      assert PacedAt(queue, completed, perFrame, j);
    }
  }

  /** Once the fence has reached the newest value, the queue is empty; until then there is something to retire. */
  lemma {:induction false} NewestReachedIffEmpty(queue: seq<Command>, completed: nat, perFrame: seq<nat>, newest: nat)
    requires Paced(queue, completed, perFrame, newest)
    ensures newest <= completed <==> queue == []
  {
    if newest <= completed {
      SignalsZeroIff(queue);
    } else {
      assert Signals([]) == 0;
    }
  }

  /** `now` is what is left of `before` after some commands at its front were retired. */
  ghost predicate Suffix(before: seq<Command>, now: seq<Command>) {
    |now| <= |before| && now == before[|before| - |now|..]
  }

  ghost predicate SuffixThen(before: seq<Command>, more: seq<Command>, now: seq<Command>) {
    |more| <= |now| && now[|now| - |more|..] == more && Suffix(before, now[..|now| - |more|])
  }

  lemma {:induction false} SuffixTransitive(a: seq<Command>, b: seq<Command>, c: seq<Command>)
    requires Suffix(a, b) && Suffix(b, c)
    ensures Suffix(a, c)
  {
  }

  lemma {:induction false} FrontMoves<T>(done: seq<T>, queue: seq<T>)
    requires queue != []
    ensures done + [queue[0]] + queue[1..] == done + queue
  {
  }

  /** Turn k of a run is the slice of the history between two positions. */
  ghost predicate TurnAt(history: seq<Command>, at: seq<nat>, latest: seq<nat>, next: seq<nat>, first: nat, v: nat,
                         k: nat)
    requires k < |latest| == |next|
  {
    && k + 1 < |at| && at[k] <= at[k + 1] <= |history|
    && history[at[k]..at[k + 1]] == Batch(latest[k], if k == 0 then first else next[k - 1], v + k + 1)
  }

  lemma {:induction false} TurnsStay(history: seq<Command>, at: seq<nat>, latest: seq<nat>, next: seq<nat>, first: nat,
                                     v: nat, k: nat, more: seq<Command>, longer: seq<nat>)
    requires k < |latest| == |next| && TurnAt(history, at, latest, next, first, v, k) && at <= longer
    ensures TurnAt(history + more, longer, latest, next, first, v, k)
  {
    assert (history + more)[at[k]..at[k + 1]] == history[at[k]..at[k + 1]];
    assert longer[k] == at[k] && longer[k + 1] == at[k + 1];
  }

  lemma {:induction false} TurnsGo(history: seq<Command>, at: seq<nat>, latest: seq<nat>, next: seq<nat>, first: nat,
                                   v: nat, k: nat, more: seq<Command>)
    requires k < |latest| == |next| && |at| == k + 1 && at[k] == |history|
    requires forall j :: 0 <= j < k ==> TurnAt(history, at, latest, next, first, v, j)
    requires more == Batch(latest[k], if k == 0 then first else next[k - 1], v + k + 1)
    ensures forall j :: 0 <= j < k + 1 ==>
              TurnAt(history + more, at + [|history + more|], latest, next, first, v, j)
  {
    forall j | 0 <= j < k + 1 ensures TurnAt(history + more, at + [|history + more|], latest, next, first, v, j) {
      if j < k {
        TurnsStay(history, at, latest, next, first, v, j, more, at + [|history + more|]);
      }
    }
  }

  lemma {:induction false} TurnsAre(history: seq<Command>, at: seq<nat>, latest: seq<nat>, next: seq<nat>, first: nat,
                                    v: nat, more: seq<Command>)
    requires |latest| == |next| && |at| == |latest| + 1
    requires forall i, j :: 0 <= i <= j < |at| ==> at[i] <= at[j] <= |history|
    requires forall j :: 0 <= j < |latest| ==> TurnAt(history, at, latest, next, first, v, j)
    ensures forall k {:trigger latest[k]} :: 0 <= k < |latest| ==>
              var allocator := if k == 0 then first else next[k - 1];
              (history + more)[at[k]..at[k + 1]] ==
                (if latest[k] > 0 then [WaitShared(latest[k])] else []) +
                [Execute(allocator, latest[k]), Present, SignalFrame(v + k + 1)]
  {
    forall k {:trigger latest[k]} | 0 <= k < |latest|
      ensures (history + more)[at[k]..at[k + 1]] ==
              Batch(latest[k], if k == 0 then first else next[k - 1], v + k + 1)
    {
      TurnsStay(history, at, latest, next, first, v, k, more, at);
    }
  }

  class RenderLoop {
    var frameFenceVal: nat
    var perFrameVal: array<nat>
    var frameIndex: nat
    // The GPU's side: what it has not finished, and the frame fence.
    var queue: seq<Command>
    var completed: nat
    var passed: nat
    // What it has finished, in order.
    ghost var retired: seq<Command>

    ghost predicate Valid()
      reads this, perFrameVal
    {
      && perFrameVal.Length == FRAME_COUNT
      && frameIndex < FRAME_COUNT
      && Paced(queue, completed, perFrameVal[..], frameFenceVal)
      && Guarded(queue, passed)
    }

    /** Everything submitted so far. */
    ghost function History(): seq<Command>
      reads this
    {
      retired + queue
    }

    /** The queue is that of the consumer `c`. */
    ghost predicate Drives(c: Fence.Consumer)
      reads this
    {
      Serves(c, queue, passed)
    }

    constructor (firstBackBuffer: nat)
      requires firstBackBuffer < FRAME_COUNT
      ensures Valid() && fresh(perFrameVal) && queue == [] && frameFenceVal == 0 && Drives(Fence.CONSUMER_INIT)
      ensures frameIndex == firstBackBuffer && retired == []
    {
      frameFenceVal, completed, passed, queue, retired := 0, 0, 0, [], [];
      perFrameVal := new nat[FRAME_COUNT](_ => 0);
      frameIndex := firstBackBuffer;
    }

    /** The GPU finishes the command at the front. A shared-fence wait there is met in time by the producer's queue. */
    method Retire()
      requires Valid() && queue != []
      modifies this`queue, this`completed, this`passed, this`retired
      ensures Valid() && queue == old(queue)[1..] && retired == old(retired) + [old(queue)[0]]
      ensures History() == old(History()) && completed == CompletedAfter(old(completed), old(queue)[0])
      ensures passed == PassedAfter(old(passed), old(queue)[0])
      ensures old(queue)[0].Execute? && old(queue)[0].drawn > 0 ==> old(queue)[0].drawn == old(passed)
      ensures forall c: Fence.Consumer, p: Fence.Producer ::
                old(Drives(c)) && (old(queue)[0].WaitShared? ==> old(queue)[0].v <= p.fence) ==>
                  Drives(GpuRuns(c, p, old(queue)[0]))
    {
      forall c: Fence.Consumer, p: Fence.Producer |
        Serves(c, queue, passed) && (queue[0].WaitShared? ==> queue[0].v <= p.fence)
        ensures Serves(GpuRuns(c, p, queue[0]), queue[1..], PassedAfter(passed, queue[0]))
      {
        RetireIsGpuStep(c, p, queue, passed);
      }
      RetireKeepsPaced(queue, completed, perFrameVal[..], frameFenceVal);
      RetireKeepsGuarded(queue, passed);
      passed := PassedAfter(passed, queue[0]);
      completed := if queue[0].SignalFrame? then queue[0].v else completed;
      FrontMoves(retired, queue);
      retired := retired + [queue[0]];
      queue := queue[1..];
    }

    /** The GPU's progress between two CPU actions. */
    method Progress(commands: nat)
      requires Valid()
      modifies this`queue, this`completed, this`passed, this`retired
      ensures Valid() && Suffix(old(queue), queue) && History() == old(History())
    {
      var r := 0;
      while r < commands && queue != []
        invariant Valid() && Suffix(old(queue), queue) && History() == old(History())
        decreases |queue|
      {
        Retire();
        r := r + 1;
      }
    }

    /** SetEventOnCompletion and WaitForSingleObject: the CPU sleeps while the GPU retires commands. */
    method WaitForFence(v: nat)
      requires Valid() && v <= frameFenceVal
      modifies this`queue, this`completed, this`passed, this`retired
      ensures Valid() && v <= completed
      ensures Suffix(old(queue), queue) && History() == old(History())
    {
      while completed < v
        invariant Valid() && Suffix(old(queue), queue) && History() == old(History())
        decreases |queue|
      {
        NewestReachedIffEmpty(queue, completed, perFrameVal[..], frameFenceVal);
        Retire();
      }
    }

    /** ID3D12CommandAllocator::Reset may only be called when the GPU is done with the allocator's command lists. */
    method ResetAllocator(a: nat)
      requires Unused(queue, a)
    {
    }

    /** What one frame hands to the GPU, from the shared-fence wait to the frame fence's signal. */
    method Enqueue(latest: nat, v: nat)
      requires Unused(queue, frameIndex)
      modifies this`queue
      ensures queue == old(queue) + Batch(latest, frameIndex, v)
    {
      SubmittedInOrder(queue, latest, frameIndex, v);
      if latest > 0 {
        queue := queue + [WaitShared(latest)];
      }
      ResetAllocator(frameIndex);
      queue := queue + [Execute(frameIndex, latest)];
      queue := queue + [Present];
      queue := queue + [SignalFrame(v)];
    }

    /** Recording and submitting one frame with an allocator the GPU is done with. */
    method Submit(latest: nat)
      requires Valid() && perFrameVal[frameIndex] <= completed
      modifies this`queue, this`frameFenceVal, perFrameVal
      ensures Valid() && frameFenceVal == old(frameFenceVal) + 1
      ensures queue == old(queue) + Batch(latest, frameIndex, frameFenceVal)
      ensures perFrameVal[..] == old(perFrameVal[..])[frameIndex := frameFenceVal]
      ensures forall c: Fence.Consumer, p: Fence.Producer :: old(Drives(c)) && p.infoFence == latest ==>
                Drives(Fence.Turn(c, p, false))
    {
      forall c: Fence.Consumer, p: Fence.Producer | Serves(c, queue, passed) && p.infoFence == latest
        ensures Serves(Fence.Turn(c, p, false), queue + Batch(latest, frameIndex, frameFenceVal + 1), passed)
      {
        SubmitIsATurn(c, p, queue, passed, frameIndex, frameFenceVal + 1);
      }
      ReachedValueMeansIdle(queue, completed, perFrameVal[..], frameFenceVal, frameIndex);
      SubmitKeepsPaced(queue, completed, perFrameVal[..], frameFenceVal, latest, frameIndex);
      SubmitKeepsGuarded(queue, passed, latest, frameIndex, frameFenceVal + 1);
      frameFenceVal := frameFenceVal + 1;
      Enqueue(latest, frameFenceVal);
      perFrameVal[frameIndex] := frameFenceVal;
    }

    /** One turn of the render loop; `next` is the back buffer the swap chain names afterwards. */
    method RenderFrame(latest: nat, next: nat, progress: nat)
      requires Valid() && next < FRAME_COUNT
      modifies this, perFrameVal
      ensures Valid() && perFrameVal == old(perFrameVal) && frameIndex == next
      ensures frameFenceVal == old(frameFenceVal) + 1
      ensures perFrameVal[..] == old(perFrameVal[..])[old(frameIndex) := frameFenceVal]
      ensures SuffixThen(old(queue), Batch(latest, old(frameIndex), frameFenceVal), queue)
      ensures History() == old(History()) + Batch(latest, old(frameIndex), frameFenceVal)
    {
      Progress(progress);
      ghost var mid := queue;
      if completed < perFrameVal[frameIndex] {
        WaitForFence(perFrameVal[frameIndex]);
        SuffixTransitive(old(queue), mid, queue);
      }
      ghost var waiting, more := queue, Batch(latest, frameIndex, frameFenceVal + 1);
      Submit(latest);
      frameIndex := next;
      assert queue == waiting + more;
      Associate(retired, waiting, more);
    }

    method SignalLast()
      requires Valid()
      modifies this`queue, this`frameFenceVal
      ensures Valid() && frameFenceVal == old(frameFenceVal) + 1 && queue == old(queue) + [SignalFrame(frameFenceVal)]
      ensures History() == old(History()) + [SignalFrame(frameFenceVal)]
    {
      Associate(retired, queue, [SignalFrame(frameFenceVal + 1)]);
      LastSignalKeepsPaced(queue, completed, perFrameVal[..], frameFenceVal);
      LastSignalKeepsGuarded(queue, passed, frameFenceVal + 1);
      frameFenceVal := frameFenceVal + 1;
      queue := queue + [SignalFrame(frameFenceVal)];
    }

    /** The drain before teardown leaves the GPU nothing to do. */
    method Teardown()
      requires Valid()
      modifies this
      ensures Valid() && queue == [] && completed == frameFenceVal == old(frameFenceVal) + 1
      ensures retired == old(History()) + [SignalFrame(frameFenceVal)]
    {
      SignalLast();
      if completed < frameFenceVal {
        WaitForFence(frameFenceVal);
      }
      NewestReachedIffEmpty(queue, completed, perFrameVal[..], frameFenceVal);
      assert History() == retired;
    }

    method RenderFrames(latest: seq<nat>, next: seq<nat>, progress: seq<nat>) returns (ghost at: seq<nat>)
      requires Valid() && |latest| == |next| == |progress|
      requires forall k :: 0 <= k < |next| ==> next[k] < FRAME_COUNT
      modifies this, perFrameVal
      ensures Valid() && frameFenceVal == old(frameFenceVal) + |latest|
      ensures |at| == |latest| + 1 && at[0] == |old(History())| && at[|latest|] == |History()|
      ensures old(History()) <= History()
      ensures forall i, j :: 0 <= i <= j < |at| ==> at[i] <= at[j] <= |History()|
      ensures forall k :: 0 <= k < |latest| ==>
                TurnAt(History(), at, latest, next, old(frameIndex), old(frameFenceVal), k)
    {
      var k := 0;
      at := [|History()|];
      while k < |latest|
        invariant 0 <= k <= |latest|
        invariant Valid() && perFrameVal == old(perFrameVal) && frameFenceVal == old(frameFenceVal) + k
        invariant frameIndex == if k == 0 then old(frameIndex) else next[k - 1]
        invariant |at| == k + 1 && at[0] == |old(History())| && at[k] == |History()|
        invariant old(History()) <= History()
        invariant forall i, j :: 0 <= i <= j < |at| ==> at[i] <= at[j] <= |History()|
        invariant forall j :: 0 <= j < k ==> TurnAt(History(), at, latest, next, old(frameIndex), old(frameFenceVal), j)
      {
        ghost var before, more := History(), Batch(latest[k], frameIndex, frameFenceVal + 1);
        RenderFrame(latest[k], next[k], progress[k]);
        TurnsGo(before, at, latest, next, old(frameIndex), old(frameFenceVal), k, more);
        at := at + [|History()|];
        k := k + 1;
      }
    }

    /**
     * Any number of frames, any fence values, any back-buffer indices, any GPU progress; then the teardown. The GPU
     * runs turn k's commands at position at[k]: the wait for the value read in that turn, the list that samples the
     * texture at that value, recorded with the allocator of the back buffer then current, and the next fence value.
     */
    method Run(latest: seq<nat>, next: seq<nat>, progress: seq<nat>) returns (ghost at: seq<nat>)
      requires Valid() && |latest| == |next| == |progress|
      requires forall k :: 0 <= k < |next| ==> next[k] < FRAME_COUNT
      modifies this, perFrameVal
      ensures queue == [] && frameFenceVal == old(frameFenceVal) + |latest| + 1 == completed
      ensures |at| == |latest| + 1 && at[0] == |old(History())|
      ensures forall i, j :: 0 <= i <= j < |at| ==> at[i] <= at[j] <= |retired|
      ensures retired[..at[0]] == old(History()) && retired[at[|latest|]..] == [SignalFrame(frameFenceVal)]
      ensures forall k {:trigger latest[k]} :: 0 <= k < |latest| ==>
                var allocator := if k == 0 then old(frameIndex) else next[k - 1];
                retired[at[k]..at[k + 1]] ==
                  (if latest[k] > 0 then [WaitShared(latest[k])] else []) +
                  [Execute(allocator, latest[k]), Present, SignalFrame(old(frameFenceVal) + k + 1)]
    {
      at := RenderFrames(latest, next, progress);
      ghost var before := History();
      Teardown();
      TurnsAre(before, at, latest, next, old(frameIndex), old(frameFenceVal), [SignalFrame(frameFenceVal)]);
    }
  }
}
