/**
 * How much loss-free disorder the receiver tolerates. In any run, whatever the order and repetition of the datagrams,
 * nothing is lost exactly while two things hold at every moment: the oldest unfinished frame is seen before any later
 * one, and from it on at most BACKLOG frames are seen.
 */
module Window {
  import opened Words
  import opened Packetizer
  import opened Receiver
  import opened Ledger
  import opened Transport
  import opened Progress

  /**
   * The decoder was given exactly the frames with bytes from `k` up to but not including `low`, in order, unaltered.
   */
  ghost predicate DeliveredUpTo(frames: seq<Frame>, idrPeriod: uint32, rs: seq<Removed>, k: nat, low: nat)
    requires idrPeriod > 0
  {
    && (forall j :: 0 <= j < |rs| ==> SameAsSent(frames, idrPeriod, rs[j]))
    && (forall i, j :: 0 <= i < j < |rs| ==> rs[i].id < rs[j].id)
    && (forall id :: id in Ids(rs) ==> k <= id < low && HasBytes(frames, id))
    && (forall id: nat :: k <= id < low && HasBytes(frames, id) ==> id in Ids(rs))
  }

  /** Nothing is lost: every finished frame with only finished ones before it was decoded, the others still can be. */
  ghost predicate Lossless(s: System, idrPeriod: uint32)
    requires idrPeriod > 0
  {
    var low := Oldest(s.frames, s.heard, s.rx.start);
    && s.rx.abandoned == []
    && s.rx.nextDeliver <= low
    && DeliveredUpTo(s.frames, idrPeriod, s.rx.delivered, s.rx.start, low)
  }

  // ---- while the window is kept -------------------------------------------------

  ghost predicate SeenAreFiled(s: System) {
    forall id :: Seen(s.heard, id) && s.rx.start <= id ==> id in s.rx.filed
  }

  /** Nothing given up, the watermark not past the oldest unfinished frame, and no seen frame refused. */
  ghost predicate OnTrack(s: System) {
    && s.rx.abandoned == []
    && s.rx.nextDeliver <= Oldest(s.frames, s.heard, s.rx.start)
    && SeenAreFiled(s)
  }

  lemma {:induction false} FiledIsSomewhere(rx: State, id: uint32)
    requires Conserved(rx) && rx.abandoned == [] && id in rx.filed
    ensures id in Ids(rx.delivered) || id in rx.pending
  {
    assert Ids([]) == {};
  }

  lemma {:induction false} OldestBehindIsUnfinished(s: System, id: nat)
    requires Clear(s) && id in Behind(s.frames, s.heard, s.rx.start)
    ensures var low := Oldest(s.frames, s.heard, s.rx.start);
            low < |s.frames| && !AllIn(s.frames, s.heard, low) && HasBytes(s.frames, low)
  {
    SeenIsSettled(s, id);
    LackingMeansBytes(s.frames, s.heard, Oldest(s.frames, s.heard, s.rx.start));
  }

  /** With nothing waiting, the watermark stands right behind a frame that was seen. */
  lemma {:induction false} LastWasSeen(s: System)
    requires Clear(s) && s.rx.pending == map[]
    ensures s.rx.nextDeliver > 0 && Seen(s.heard, s.rx.nextDeliver - 1)
  {
  }

  /**
   * If every seen frame was filed and none given up, a kept window holds the watermark at the oldest unfinished
   * frame.
   */
  lemma {:induction false} WatermarkHeld(s: System)
    requires Clear(s) && SeenAreFiled(s) && s.rx.abandoned == [] && Fits(s.frames, s.heard, s.rx.start)
    ensures s.rx.nextDeliver <= Oldest(s.frames, s.heard, s.rx.start)
  {
    var low := Oldest(s.frames, s.heard, s.rx.start);
    if low in Behind(s.frames, s.heard, s.rx.start) {
      OldestBehindIsUnfinished(s, low);
      FiledIsSomewhere(s.rx, low);
    } else if s.rx.pending != map[] {
      WaitingIsBehind(s);
    } else {
      LastWasSeen(s);
      assert s.rx.nextDeliver - 1 !in Behind(s.frames, s.heard, s.rx.start);
    }
  }

  lemma {:induction false} TakenKeepsTrack(a: System, b: System, t: Tag)
    requires Known(a) && Clear(b) && Taken(a, b, t) && (a.rx.streamStarted ==> OnTrack(a))
    requires Fits(b.frames, b.heard, b.rx.start)
    ensures OnTrack(b)
  {
    SeenGrows(a.heard, t);
    WatermarkHeld(b);
  }

  /** A refused packet while on track belongs to a finished frame, or to one before the start. */
  lemma {:induction false} RefusedKeepsTrack(a: System, b: System, t: Tag)
    requires Clear(a) && OnTrack(a) && Refused(a, b, t) && a.rx.start <= |a.frames|
    ensures OnTrack(b)
  {
    OldestGrows(a.frames, b.frames, a.heard, b.heard, a.rx.start);
    SeenGrows(a.heard, t);
    if a.rx.start <= t.id {
      assert AllIn(a.frames, a.heard, t.id) && Tag(t.id, t.idx) in a.heard;
    }
  }

  lemma {:induction false} FinishedIsSeen(frames: seq<Frame>, heard: set<Tag>, id: nat)
    requires ValidFrames(frames) && HasBytes(frames, id) && AllIn(frames, heard, id)
    ensures Seen(heard, id)
  {
    BytesMeanPacket(frames, id);
    assert Tag(id, 0) in heard;
  }

  lemma {:induction false} FinishedIsDelivered(s: System, id: uint32)
    requires Clear(s) && OnTrack(s) && Seen(s.heard, id)
    requires s.rx.start <= id < Oldest(s.frames, s.heard, s.rx.start)
    ensures id in Ids(s.rx.delivered)
  {
    FiledIsSomewhere(s.rx, id);
    if id in s.rx.pending {
      WaitingIsBehind(s);
    }
  }

  lemma {:induction false} DeliveredIsBelow(s: System, id: uint32)
    requires Clear(s) && OnTrack(s) && id in Ids(s.rx.delivered) && id < s.rx.nextDeliver
    ensures s.rx.start <= id < Oldest(s.frames, s.heard, s.rx.start) && HasBytes(s.frames, id)
  {
    SeenIsSettled(s, id);
  }

  /** On track, what was decoded is exactly the finished prefix. */
  lemma {:induction false} TrackIsLossless(s: System, idrPeriod: uint32)
    requires idrPeriod > 0 && Sound(s, idrPeriod) && s.rx.streamStarted && OnTrack(s)
    ensures Lossless(s, idrPeriod)
  {
    SoundIsClear(s, idrPeriod);
    forall j | 0 <= j < |s.rx.delivered| ensures SameAsSent(s.frames, idrPeriod, s.rx.delivered[j]) {
      CompleteIsSent(s.frames, idrPeriod, s.rx.delivered[j]);
    }
    LeftIds(s.rx.delivered, s.rx.nextDeliver);
    forall id | id in Ids(s.rx.delivered)
      ensures s.rx.start <= id < Oldest(s.frames, s.heard, s.rx.start) && HasBytes(s.frames, id)
    {
      DeliveredIsBelow(s, id);
    }
    forall id: nat | s.rx.start <= id < Oldest(s.frames, s.heard, s.rx.start) && HasBytes(s.frames, id)
      ensures id in Ids(s.rx.delivered)
    {
      FinishedIsSeen(s.frames, s.heard, id);
      FinishedIsDelivered(s, id);
    }
  }

  // ---- once it is not -------------------------------------------------------------

  /** Passed by the watermark without having been decoded: such a frame never will be. */
  ghost predicate Passed(rx: State, id: nat) { id < rx.nextDeliver && id !in Ids(rx.delivered) }

  lemma {:induction false} LaterSeenPasses(s: System, x: nat)
    requires Clear(s) && x in Behind(s.frames, s.heard, s.rx.start)
    requires Oldest(s.frames, s.heard, s.rx.start) !in Behind(s.frames, s.heard, s.rx.start)
    ensures Oldest(s.frames, s.heard, s.rx.start) < s.rx.nextDeliver
  {
    SeenIsSettled(s, x);
    if s.rx.pending != map[] {
      WaitingIsBehind(s);
    }
  }

  lemma {:induction false} CrowdPasses(s: System)
    requires Clear(s) && |Behind(s.frames, s.heard, s.rx.start)| > BACKLOG
    ensures Oldest(s.frames, s.heard, s.rx.start) < s.rx.nextDeliver
  {
    var w := Behind(s.frames, s.heard, s.rx.start);
    if w <= s.rx.pending.Keys {
      SubsetSize(w, s.rx.pending.Keys);
    } else {
      var x :| x in w && x !in s.rx.pending.Keys;
      SeenIsSettled(s, x);
    }
  }

  lemma {:induction false} UnkeptPasses(s: System)
    requires Clear(s) && !Fits(s.frames, s.heard, s.rx.start)
    ensures var low := Oldest(s.frames, s.heard, s.rx.start);
            Passed(s.rx, low) && HasBytes(s.frames, low)
  {
    var low := Oldest(s.frames, s.heard, s.rx.start);
    var x :| x in Behind(s.frames, s.heard, s.rx.start);
    OldestBehindIsUnfinished(s, x);
    if low !in Behind(s.frames, s.heard, s.rx.start) {
      LaterSeenPasses(s, x);
    } else {
      CrowdPasses(s);
    }
  }

  // ---- every run -------------------------------------------------------------------

  /** At every moment of the run up to n at which the stream was started. */
  ghost predicate WindowKept(run: seq<System>, k: nat, n: nat)
    requires n < |run|
  {
    forall m :: 0 <= m <= n && run[m].rx.streamStarted ==> Fits(run[m].frames, run[m].heard, k)
  }

  lemma {:induction false} StepKeepsTrack(run: seq<System>, idrPeriod: uint32, n: nat)
    requires idrPeriod > 0 && IsRun(run, idrPeriod) && n + 1 < |run| && run[n + 1].rx.streamStarted
    requires run[n].rx.streamStarted ==> OnTrack(run[n])
    requires Fits(run[n + 1].frames, run[n + 1].heard, run[n + 1].rx.start)
    ensures OnTrack(run[n + 1])
  {
    var a, b := run[n], run[n + 1];
    var t := StepIs(run, idrPeriod, n);
    RunIsKnown(run, idrPeriod, n);
    if Taken(a, b, t) {
      RunIsClear(run, idrPeriod, n + 1);
      TakenKeepsTrack(a, b, t);
    } else {
      RunIsClear(run, idrPeriod, n);
      StartIsSent(run, idrPeriod, n);
      OldestGrows(a.frames, b.frames, a.heard, b.heard, a.rx.start);
      if Refused(a, b, t) {
        RefusedKeepsTrack(a, b, t);
      }
    }
  }

  lemma {:induction false} KeptWindowTracks(run: seq<System>, idrPeriod: uint32, k: nat, n: nat)
    requires idrPeriod > 0 && IsRun(run, idrPeriod) && n < |run| && run[n].rx.streamStarted && run[n].rx.start == k
    requires WindowKept(run, k, n)
    ensures OnTrack(run[n])
  {
    if n > 0 {
      if run[n - 1].rx.streamStarted {
        NextKeepsStart(run, idrPeriod, n - 1);
        KeptWindowTracks(run, idrPeriod, k, n - 1);
      }
      StepKeepsTrack(run, idrPeriod, n - 1);
    }
  }

  lemma {:induction false} StepKeepsPassed(run: seq<System>, idrPeriod: uint32, n: nat, id: nat)
    requires idrPeriod > 0 && IsRun(run, idrPeriod) && n + 1 < |run| && run[n].rx.streamStarted && Passed(run[n].rx, id)
    ensures Passed(run[n + 1].rx, id)
  {
    var t := StepIs(run, idrPeriod, n);
  }

  lemma {:induction false} PassedStays(run: seq<System>, idrPeriod: uint32, m: nat, n: nat, id: nat)
    requires idrPeriod > 0 && IsRun(run, idrPeriod) && m <= n < |run| && run[m].rx.streamStarted
    requires Passed(run[m].rx, id)
    ensures Passed(run[n].rx, id)
    decreases n
  {
    if m < n {
      PassedStays(run, idrPeriod, m, n - 1, id);
      StartStays(run, idrPeriod, m, n - 1);
      StepKeepsPassed(run, idrPeriod, n - 1, id);
    }
  }

  /** Once the window is not kept, the frame that was oldest and unfinished is never decoded, whatever arrives later. */
  lemma {:induction false} UnkeptFrameIsLost(run: seq<System>, idrPeriod: uint32, m: nat, n: nat)
    requires idrPeriod > 0 && IsRun(run, idrPeriod) && m <= n < |run| && run[m].rx.streamStarted
    requires !Fits(run[m].frames, run[m].heard, run[m].rx.start)
    ensures var low := Oldest(run[m].frames, run[m].heard, run[m].rx.start);
            HasBytes(run[m].frames, low) && low !in Ids(run[n].rx.delivered) && low < run[n].rx.nextDeliver
  {
    RunIsClear(run, idrPeriod, m);
    UnkeptPasses(run[m]);
    PassedStays(run, idrPeriod, m, n, Oldest(run[m].frames, run[m].heard, run[m].rx.start));
  }

  lemma {:induction false} LostIsNotLossless(run: seq<System>, idrPeriod: uint32, m: nat, n: nat)
    requires idrPeriod > 0 && IsRun(run, idrPeriod) && m <= n < |run| && run[m].rx.streamStarted
    requires !Fits(run[m].frames, run[m].heard, run[m].rx.start)
    ensures !Lossless(run[n], idrPeriod)
  {
    var k, low := run[m].rx.start, Oldest(run[m].frames, run[m].heard, run[m].rx.start);
    UnkeptFrameIsLost(run, idrPeriod, m, n);
    StartStays(run, idrPeriod, m, n);
    RunIsClear(run, idrPeriod, m);
    StartIsSent(run, idrPeriod, m);
    OldestGrows(run[m].frames, run[n].frames, run[m].heard, run[n].heard, k);
    assert HasBytes(run[n].frames, low);
  }

  /**
   * Exactly when nothing is lost, in every run: the decoder has the finished frames in turn, nothing was given up and
   * the rest can still be decoded, if and only if the window was kept at every moment.
   */
  lemma {:induction false} LosslessIffWindowKept(run: seq<System>, idrPeriod: uint32, n: nat)
    requires idrPeriod > 0 && IsRun(run, idrPeriod) && n < |run| && run[n].rx.streamStarted
    ensures Lossless(run[n], idrPeriod) <==> WindowKept(run, run[n].rx.start, n)
  {
    if WindowKept(run, run[n].rx.start, n) {
      KeptWindowTracks(run, idrPeriod, run[n].rx.start, n);
      RunKeepsSound(run, idrPeriod, n);
      TrackIsLossless(run[n], idrPeriod);
    } else {
      var m :| 0 <= m <= n && run[m].rx.streamStarted && !Fits(run[m].frames, run[m].heard, run[n].rx.start);
      StartStays(run, idrPeriod, m, n);
      LostIsNotLossless(run, idrPeriod, m, n);
    }
  }

  /** While the window is kept, exactly the frames behind the oldest unfinished one wait; once all are in, none. */
  lemma {:induction false} DeliversEveryFinishedFrame(run: seq<System>, idrPeriod: uint32, n: nat)
    requires idrPeriod > 0 && IsRun(run, idrPeriod) && n < |run| && run[n].rx.streamStarted
    requires WindowKept(run, run[n].rx.start, n)
    ensures var s, k := run[n], run[n].rx.start;
            && DeliveredUpTo(s.frames, idrPeriod, s.rx.delivered, k, Oldest(s.frames, s.heard, k))
            && (forall id :: id in s.rx.pending <==> id in Behind(s.frames, s.heard, k))
            && ((forall id :: k <= id < |s.frames| ==> AllIn(s.frames, s.heard, id)) ==>
                 DeliveredUpTo(s.frames, idrPeriod, s.rx.delivered, k, |s.frames|) && s.rx.pending == map[])
  {
    var s, k := run[n], run[n].rx.start;
    LosslessIffWindowKept(run, idrPeriod, n);
    KeptWindowTracks(run, idrPeriod, run[n].rx.start, n);
    RunIsClear(run, idrPeriod, n);
    StartIsSent(run, idrPeriod, n);
    if s.rx.pending != map[] {
      WaitingIsBehind(s);
    }
    forall id | id in Behind(s.frames, s.heard, k) ensures id in s.rx.pending && id < |s.frames| {
      SeenIsSettled(s, id);
    }
    if forall id :: k <= id < |s.frames| ==> AllIn(s.frames, s.heard, id) {
      assert Oldest(s.frames, s.heard, k) == |s.frames|;
      assert s.rx.pending.Keys == {};
    }
  }

  // ---- frames first seen in order ----------------------------------------------------

  /** No frame was seen before one with bytes in front of it. */
  ghost predicate SeenInOrder(s: System) {
    forall x, id: nat ::
      Seen(s.heard, x) && s.rx.start <= id < x && HasBytes(s.frames, id) ==> Seen(s.heard, id)
  }

  lemma {:induction false} SeenBefore(s: System, x: nat, id: nat)
    requires SeenInOrder(s) && Seen(s.heard, x) && s.rx.start <= id <= x && HasBytes(s.frames, id)
    ensures Seen(s.heard, id)
  {
  }

  lemma {:induction false} InOrderOldestIsSeen(s: System, x: nat)
    requires Clear(s) && SeenInOrder(s) && x in Behind(s.frames, s.heard, s.rx.start)
    ensures Oldest(s.frames, s.heard, s.rx.start) in Behind(s.frames, s.heard, s.rx.start)
  {
    OldestBehindIsUnfinished(s, x);
    SeenBefore(s, x, Oldest(s.frames, s.heard, s.rx.start));
  }

  lemma {:induction false} InOrderFitsIff(s: System)
    requires Clear(s) && SeenInOrder(s)
    ensures Fits(s.frames, s.heard, s.rx.start) <==> |Behind(s.frames, s.heard, s.rx.start)| <= BACKLOG
  {
    if id :| id in Behind(s.frames, s.heard, s.rx.start) {
      InOrderOldestIsSeen(s, id);
    }
  }

  /** In order, a refused packet belongs to a frame that was filed. */
  lemma {:induction false} InOrderRefusedIsFiled(a: System, id: nat)
    requires Clear(a) && SeenInOrder(a) && SeenAreFiled(a) && HasBytes(a.frames, id)
    requires a.rx.start <= id < a.rx.nextDeliver
    ensures id in a.rx.filed
  {
    var last: uint32 := if a.rx.nextDeliver in a.rx.pending then a.rx.nextDeliver else a.rx.nextDeliver - 1;
    assert last in a.rx.filed by { assert a.rx.nextDeliver in a.rx.pending ==> a.rx.nextDeliver in a.rx.pending.Keys; }
    SeenBefore(a, last, id);
  }

  lemma {:induction false} RefusedStaysFiled(a: System, b: System, t: Tag)
    requires Clear(a) && SeenInOrder(a) && SeenAreFiled(a) && Refused(a, b, t)
    ensures SeenAreFiled(b)
  {
    SeenGrows(a.heard, t);
    PacketMeansBytes(a.frames, t.id, t.idx);
    if a.rx.start <= t.id {
      InOrderRefusedIsFiled(a, t.id);
    }
  }

  lemma {:induction false} TakenAreFiled(a: System, b: System, t: Tag)
    requires Known(a) && Taken(a, b, t) && (a.rx.streamStarted ==> SeenAreFiled(a))
    ensures SeenAreFiled(b)
  {
    SeenGrows(a.heard, t);
  }

  lemma {:induction false} InOrderStepIsFiled(run: seq<System>, idrPeriod: uint32, n: nat)
    requires idrPeriod > 0 && IsRun(run, idrPeriod) && n + 1 < |run| && run[n + 1].rx.streamStarted
    requires SeenInOrder(run[n]) && (run[n].rx.streamStarted ==> SeenAreFiled(run[n]))
    ensures SeenAreFiled(run[n + 1])
  {
    var t := StepIs(run, idrPeriod, n);
    RunIsKnown(run, idrPeriod, n);
    if Taken(run[n], run[n + 1], t) {
      TakenAreFiled(run[n], run[n + 1], t);
    } else if Refused(run[n], run[n + 1], t) {
      RefusedStaysFiled(run[n], run[n + 1], t);
    }
  }

  ghost predicate InOrderUpTo(run: seq<System>, n: nat)
    requires n < |run|
  {
    forall m :: 0 <= m <= n ==> SeenInOrder(run[m])
  }

  lemma {:induction false} InOrderSeenAreFiled(run: seq<System>, idrPeriod: uint32, n: nat)
    requires idrPeriod > 0 && IsRun(run, idrPeriod) && n < |run| && run[n].rx.streamStarted
    requires InOrderUpTo(run, n)
    ensures SeenAreFiled(run[n])
  {
    if n > 0 {
      if run[n - 1].rx.streamStarted {
        InOrderSeenAreFiled(run, idrPeriod, n - 1);
      }
      InOrderStepIsFiled(run, idrPeriod, n - 1);
    }
  }

  lemma {:induction false} CrowdIsGivenUp(s: System)
    requires Clear(s) && SeenInOrder(s) && SeenAreFiled(s) && !Fits(s.frames, s.heard, s.rx.start)
    ensures s.rx.abandoned != []
  {
    UnkeptPasses(s);
    var x :| x in Behind(s.frames, s.heard, s.rx.start);
    InOrderOldestIsSeen(s, x);
    OldestBehindIsUnfinished(s, x);
    IdsAre(s.rx.abandoned);
  }

  /**
   * Frames first seen in order: one is given up exactly if more than BACKLOG were ever seen from the oldest
   * unfinished on.
   */
  lemma {:induction false} NothingAbandonedIffWithinWindow(run: seq<System>, idrPeriod: uint32, n: nat)
    requires idrPeriod > 0 && IsRun(run, idrPeriod) && n < |run| && run[n].rx.streamStarted
    requires InOrderUpTo(run, n)
    ensures run[n].rx.abandoned == [] <==>
            forall m :: 0 <= m <= n && run[m].rx.streamStarted ==>
              |Behind(run[m].frames, run[m].heard, run[n].rx.start)| <= BACKLOG
  {
    forall m | 0 <= m <= n && run[m].rx.streamStarted
      ensures Fits(run[m].frames, run[m].heard, run[n].rx.start)
              <==> |Behind(run[m].frames, run[m].heard, run[n].rx.start)| <= BACKLOG
      ensures !Fits(run[m].frames, run[m].heard, run[n].rx.start) ==> run[n].rx.abandoned != []
    {
      StartStays(run, idrPeriod, m, n);
      RunIsClear(run, idrPeriod, m);
      InOrderFitsIff(run[m]);
      InOrderSeenAreFiled(run, idrPeriod, m);
      if !Fits(run[m].frames, run[m].heard, run[n].rx.start) {
        CrowdIsGivenUp(run[m]);
        RunOnlyGrows(run, idrPeriod, m, n);
      }
    }
    LosslessIffWindowKept(run, idrPeriod, n);
  }

  function Range(low: nat, n: nat): (r: set<nat>)
    ensures |r| == n
    ensures forall id :: id in r <==> low <= id < low + n
  {
    if n == 0 then {} else Range(low, n - 1) + {low + n - 1}
  }

  ghost predicate AllHaveBytes(s: System) { forall id :: s.rx.start <= id < |s.frames| ==> HasBytes(s.frames, id) }

  lemma {:induction false} BehindIsDense(s: System, x: nat, id: nat)
    requires Clear(s) && SeenInOrder(s) && AllHaveBytes(s) && Seen(s.heard, x)
    requires Oldest(s.frames, s.heard, s.rx.start) <= id <= x
    ensures id in Behind(s.frames, s.heard, s.rx.start)
  {
    SeenIsSettled(s, x);
  }

  /** If every frame has bytes, that bounds how far the newest frame seen is ahead of the oldest unfinished one. */
  lemma {:induction false} WindowIsASpan(s: System)
    requires Clear(s) && SeenInOrder(s) && AllHaveBytes(s)
    ensures var low := Oldest(s.frames, s.heard, s.rx.start);
            |Behind(s.frames, s.heard, s.rx.start)| <= BACKLOG <==>
            forall id: nat :: Seen(s.heard, id) ==> id < low + BACKLOG
  {
    var low, w := Oldest(s.frames, s.heard, s.rx.start), Behind(s.frames, s.heard, s.rx.start);
    if x: nat :| Seen(s.heard, x) && x >= low + BACKLOG {
      forall id | id in Range(low, BACKLOG + 1) ensures id in w {
        BehindIsDense(s, x, id);
      }
      SubsetSize(Range(low, BACKLOG + 1), w);
    } else {
      SubsetSize(w, Range(low, BACKLOG));
    }
  }

  /** A packet of a frame is only handled after every packet of the frames before it. */
  ghost predicate FramesInTurn(s: System) {
    forall x, id: nat :: Seen(s.heard, x) && s.rx.start <= id < x ==> AllIn(s.frames, s.heard, id)
  }

  lemma {:induction false} InTurnOnlyOldest(s: System, x: nat)
    requires Clear(s) && FramesInTurn(s) && x in Behind(s.frames, s.heard, s.rx.start)
    ensures x == Oldest(s.frames, s.heard, s.rx.start)
  {
    OldestBehindIsUnfinished(s, x);
  }

  lemma {:induction false} InTurnFits(s: System)
    requires Clear(s) && FramesInTurn(s)
    ensures Fits(s.frames, s.heard, s.rx.start)
  {
    var low, w := Oldest(s.frames, s.heard, s.rx.start), Behind(s.frames, s.heard, s.rx.start);
    forall x | x in w ensures x == low {
      InTurnOnlyOldest(s, x);
    }
    SubsetSize(w, {low});
  }

  /**
   * A loss-free in-order channel loses nothing: once all is through, exactly the frames with bytes from the start on
   * were decoded.
   */
  lemma {:induction false} InOrderChannelDeliversAll(run: seq<System>, idrPeriod: uint32, n: nat)
    requires idrPeriod > 0 && IsRun(run, idrPeriod) && n < |run| && run[n].rx.streamStarted
    requires forall m :: 0 <= m <= n ==> FramesInTurn(run[m])
    requires forall id :: run[n].rx.start <= id < |run[n].frames| ==> AllIn(run[n].frames, run[n].heard, id)
    ensures var s := run[n];
            && DeliveredUpTo(s.frames, idrPeriod, s.rx.delivered, s.rx.start, |s.frames|)
            && s.rx.abandoned == [] && s.rx.pending == map[]
  {
    forall m | 0 <= m <= n && run[m].rx.streamStarted ensures Fits(run[m].frames, run[m].heard, run[n].rx.start) {
      StartStays(run, idrPeriod, m, n);
      RunIsClear(run, idrPeriod, m);
      InTurnFits(run[m]);
    }
    LosslessIffWindowKept(run, idrPeriod, n);
    DeliversEveryFinishedFrame(run, idrPeriod, n);
  }
}
