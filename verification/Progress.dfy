/**
 * Which frames the receiver has seen, finished and filed along a run, and what one step of the system does to that.
 * A frame without bytes has no packets: it counts as finished.
 */
module Progress {
  import opened Words
  import opened Wire
  import opened Packetizer
  import opened Receiver
  import opened Reassembly
  import opened Ledger
  import opened Transport

  predicate HasBytes(frames: seq<Frame>, id: nat) { id < |frames| && Body(frames[id]) != [] }

  /** Every packet of the frame was handled since the start. */
  ghost predicate AllIn(frames: seq<Frame>, heard: set<Tag>, id: nat) {
    forall i :: IsPacket(frames, id, i) ==> Tag(id, i) in heard
  }

  /** The oldest frame from `k` on that lacks a packet. */
  ghost function Oldest(frames: seq<Frame>, heard: set<Tag>, k: nat): (low: nat)
    ensures k <= low && (k <= |frames| ==> low <= |frames|)
    ensures forall id :: k <= id < low ==> AllIn(frames, heard, id)
    ensures low < |frames| ==> !AllIn(frames, heard, low)
    decreases |frames| - k
  {
    if k < |frames| && AllIn(frames, heard, k) then Oldest(frames, heard, k + 1) else k
  }

  /** Some packet of the frame was handled since the start. */
  ghost predicate Seen(heard: set<Tag>, id: nat) { exists i :: Tag(id, i) in heard }

  /** The frames seen from the oldest unfinished one on. */
  ghost function Behind(frames: seq<Frame>, heard: set<Tag>, k: nat): set<nat> {
    set id: nat | id < |frames| && Seen(heard, id) && Oldest(frames, heard, k) <= id
  }

  /** The oldest unfinished frame is seen before any later one, and there is room for them. */
  ghost predicate Fits(frames: seq<Frame>, heard: set<Tag>, k: nat) {
    var w := Behind(frames, heard, k);
    w != {} ==> Oldest(frames, heard, k) in w && |w| <= BACKLOG
  }

  // ---- what every reachable state keeps -------------------------------------

  /** Filed frames were seen, decoded frames were seen completely, and the watermark stands next to a filed frame. */
  ghost predicate Traced(s: System) {
    && (forall id :: id in s.rx.filed ==> Seen(s.heard, id))
    && (forall id :: id in Ids(s.rx.delivered) ==> id < |s.frames| && AllIn(s.frames, s.heard, id))
    && (s.rx.streamStarted ==> Anchored(s.rx))
  }

  ghost predicate Sound(s: System, idrPeriod: uint32)
    requires idrPeriod > 0
  {
    Inv(s, idrPeriod) && Traced(s)
  }

  lemma {:induction false} AllInStays(frames: seq<Frame>, more: seq<Frame>, heard: set<Tag>, louder: set<Tag>, id: nat)
    requires frames <= more && heard <= louder && id < |frames| && AllIn(frames, heard, id)
    ensures AllIn(more, louder, id)
  {
    assert frames[id] == more[id];
  }

  lemma {:induction false} PacketMeansBytes(frames: seq<Frame>, id: nat, i: nat)
    requires IsPacket(frames, id, i)
    ensures HasBytes(frames, id)
  {
    assert PacketCount(0) == 0;
  }

  lemma {:induction false} BytesMeanPacket(frames: seq<Frame>, id: nat)
    requires ValidFrames(frames) && HasBytes(frames, id)
    ensures IsPacket(frames, id, 0)
  {
    PacketCountIsCeiling(|Body(frames[id])|);
  }

  lemma {:induction false} LackingMeansBytes(frames: seq<Frame>, heard: set<Tag>, id: nat)
    requires !AllIn(frames, heard, id)
    ensures HasBytes(frames, id)
  {
    var i :| IsPacket(frames, id, i) && Tag(id, i) !in heard;
    PacketMeansBytes(frames, id, i);
  }

  lemma {:induction false} AllInIffMarked(frames: seq<Frame>, heard: set<Tag>, id: nat)
    requires ValidFrames(frames) && id < |frames|
    ensures var have := HeardMarks(heard, id, PacketCount(|Body(frames[id])|));
            AllIn(frames, heard, id) <==> forall i :: 0 <= i < |have| ==> have[i]
  {
    var have := HeardMarks(heard, id, PacketCount(|Body(frames[id])|));
    assert Sendable(frames[id]);
    assert forall i: nat :: IsPacket(frames, id, i) <==> i < |have|;
    assert forall i :: 0 <= i < |have| ==> (have[i] <==> Tag(id, i) in heard);
  }

  /** A waiting or newly removed entry is complete exactly when all packets of its frame were handled. */
  lemma {:induction false} CompleteIffAllIn(frames: seq<Frame>, idrPeriod: uint32, heard: set<Tag>, id: uint32,
                                            fa: FrameAssembly)
    requires idrPeriod > 0 && ValidFrames(frames) && MatchesHeard(frames, idrPeriod, heard, id, fa)
    ensures fa.Complete() <==> AllIn(frames, heard, id)
  {
    var body := Body(frames[id]);
    CompleteIffAllHeld(StampAt(frames, id, idrPeriod), body, HeardMarks(heard, id, PacketCount(|body|)));
    AllInIffMarked(frames, heard, id);
  }

  /** What one datagram does, as a packet of a sent frame. */
  lemma {:induction false} DeliveredPacket(a: System, b: System, idrPeriod: uint32, d: seq<byte>)
    returns (id: uint32, i: uint16)
    requires idrPeriod > 0 && ValidFrames(a.frames) && IsSent(a.frames, idrPeriod, d) && DeliverStep(a, b, d)
    ensures b.frames == a.frames && IsPacket(a.frames, id, i)
    ensures b.rx == Handle(a.rx, PacketAt(a.frames, idrPeriod, id, i))
    ensures b.heard == if b.rx.streamStarted then a.heard + {Tag(id, i)} else a.heard
  {
    id, i := FindPacket(a.frames, idrPeriod, d);
  }

  lemma {:induction false} TracedBySender(a: System, b: System, idrPeriod: uint32)
    requires idrPeriod > 0 && Traced(a) && SenderStep(a, b, idrPeriod)
    ensures Traced(b)
  {
    forall id | id in Ids(b.rx.delivered) ensures id < |b.frames| && AllIn(b.frames, b.heard, id) {
      AllInStays(a.frames, b.frames, a.heard, b.heard, id);
    }
  }

  lemma {:induction false} AcceptedIsFiled(rx: State, p: Packet)
    requires Settled(rx) && p.header.frameId != LAST_ID && Accepted(rx, p.header) && !OpensNothing(rx, p.header)
    ensures Handle(rx, p).filed == rx.filed + {p.header.frameId}
    ensures Anchored(Handle(rx, p)) && Handle(rx, p).streamStarted
  {
    HandleSettles(rx, p);
    var t := Filed(Resync(rx, p.header), p);
    FilingBalances(rx, p);
    DrainAbandonsExcess(t);
    assert p.header.frameId in t.pending;
    DrainAnchors(t);
    HandleStarts(rx, p);
  }

  lemma {:induction false} NewlyRemoved(m: map<uint32, FrameAssembly>, before: seq<Removed>, now: seq<Removed>,
                                        r: uint32)
    returns (fa: FrameAssembly)
    requires CameFrom(m, before, now) && r in Ids(now) && r !in Ids(before)
    ensures r in m && fa == m[r] && Removed(r, fa) in now
  {
    IdsAre(before);
    IdsAre(now);
    var j :| 0 <= j < |now| && now[j].id == r;
    assert j >= |before| by {
      assert forall i :: 0 <= i < |before| ==> before[i] == now[i];
    }
    fa := now[j].frame;
  }

  lemma {:induction false} NewlyDelivered(frames: seq<Frame>, idrPeriod: uint32, rx: State, heard: set<Tag>, t: Tag,
                                          r: uint32)
    requires idrPeriod > 0 && ValidFrames(frames) && ReceiverInv(frames, idrPeriod, rx, heard)
    requires IsPacket(frames, t.id, t.idx) && Accepted(rx, PacketAt(frames, idrPeriod, t.id, t.idx).header)
    requires r in Ids(Handle(rx, PacketAt(frames, idrPeriod, t.id, t.idx)).delivered) && r !in Ids(rx.delivered)
    ensures r >= rx.nextDeliver && r < |frames| && AllIn(frames, heard + {t}, r)
  {
    var p := PacketAt(frames, idrPeriod, t.id, t.idx);
    var u := Handle(rx, p);
    FiledMatches(frames, idrPeriod, rx, heard, t.id, t.idx);
    HandleMoves(rx, p);
    FiledKeys(rx, p);
    var fa := NewlyRemoved(Filed(rx, p).pending, rx.delivered, u.delivered, r);
    DeliveredIsComplete(rx, p, Removed(r, fa));
    CompleteIffAllIn(frames, idrPeriod, heard + {t}, r, fa);
  }

  lemma {:induction false} DeliveredIsComplete(rx: State, p: Packet, r: Removed)
    requires Good(rx) && p.header.frameId != LAST_ID && r in Handle(rx, p).delivered
    ensures r.frame.Complete()
  {
    HandleKeepsLedger(rx, p);
  }

  lemma {:induction false} DeliveredAreIn(a: System, b: System, idrPeriod: uint32, t: Tag, r: uint32)
    requires idrPeriod > 0 && Sound(a, idrPeriod) && b.frames == a.frames && IsPacket(a.frames, t.id, t.idx)
    requires Accepted(a.rx, PacketAt(a.frames, idrPeriod, t.id, t.idx).header)
    requires b.rx == Handle(a.rx, PacketAt(a.frames, idrPeriod, t.id, t.idx)) && b.heard == a.heard + {t}
    requires r in Ids(b.rx.delivered)
    ensures r < |b.frames| && AllIn(b.frames, b.heard, r)
  {
    if r in Ids(a.rx.delivered) {
      AllInStays(a.frames, b.frames, a.heard, b.heard, r);
    } else {
      NewlyDelivered(a.frames, idrPeriod, a.rx, a.heard, t, r);
    }
  }

  lemma {:induction false} FiledWereSeen(a: System, b: System, idrPeriod: uint32, t: Tag)
    requires idrPeriod > 0 && Sound(a, idrPeriod) && IsPacket(a.frames, t.id, t.idx)
    requires Accepted(a.rx, PacketAt(a.frames, idrPeriod, t.id, t.idx).header)
    requires b.rx == Handle(a.rx, PacketAt(a.frames, idrPeriod, t.id, t.idx)) && b.heard == a.heard + {t}
    ensures forall id :: id in b.rx.filed ==> Seen(b.heard, id)
    ensures Anchored(b.rx)
  {
    FiledMatches(a.frames, idrPeriod, a.rx, a.heard, t.id, t.idx);
    AcceptedIsFiled(a.rx, PacketAt(a.frames, idrPeriod, t.id, t.idx));
    SeenGrows(a.heard, t);
  }

  lemma {:induction false} SeenGrows(heard: set<Tag>, t: Tag)
    ensures forall id :: Seen(heard + {t}, id) <==> Seen(heard, id) || id == t.id
  {
    assert Tag(t.id, t.idx) in heard + {t};
    forall id: nat | Seen(heard, id) ensures Seen(heard + {t}, id) {
      var i :| Tag(id, i) in heard;
      assert Tag(id, i) in heard + {t};
    }
  }

  lemma {:induction false} TracedByArrival(a: System, b: System, idrPeriod: uint32, t: Tag)
    requires idrPeriod > 0 && Sound(a, idrPeriod) && b.frames == a.frames && IsPacket(a.frames, t.id, t.idx)
    requires Accepted(a.rx, PacketAt(a.frames, idrPeriod, t.id, t.idx).header)
    requires b.rx == Handle(a.rx, PacketAt(a.frames, idrPeriod, t.id, t.idx)) && b.heard == a.heard + {t}
    ensures Traced(b)
  {
    FiledWereSeen(a, b, idrPeriod, t);
    forall r | r in Ids(b.rx.delivered) ensures r < |b.frames| && AllIn(b.frames, b.heard, r) {
      DeliveredAreIn(a, b, idrPeriod, t, r);
    }
  }

  lemma {:induction false} TracedByStale(a: System, b: System, t: Tag)
    requires Traced(a) && b.frames == a.frames && b.rx == a.rx && b.heard == a.heard + {t}
    ensures Traced(b)
  {
    forall r | r in Ids(b.rx.delivered) ensures r < |b.frames| && AllIn(b.frames, b.heard, r) {
      AllInStays(a.frames, b.frames, a.heard, b.heard, r);
    }
  }

  lemma {:induction false} NextKeepsTraced(a: System, b: System, idrPeriod: uint32)
    requires idrPeriod > 0 && Sound(a, idrPeriod) && Next(a, b, idrPeriod)
    ensures Traced(b)
  {
    if SenderStep(a, b, idrPeriod) {
      TracedBySender(a, b, idrPeriod);
    } else {
      var d :| DeliverStep(a, b, d);
      var id, i := DeliveredPacket(a, b, idrPeriod, d);
      var p := PacketAt(a.frames, idrPeriod, id, i);
      if Accepted(a.rx, p.header) {
        HandleStarts(a.rx, p);
        TracedByArrival(a, b, idrPeriod, Tag(id, i));
      } else if a.rx.streamStarted {
        TracedByStale(a, b, Tag(id, i));
      }
    }
  }

  lemma {:induction false} StepKeepsTraced(run: seq<System>, idrPeriod: uint32, n: nat)
    requires idrPeriod > 0 && IsRun(run, idrPeriod) && n + 1 < |run| && Traced(run[n])
    ensures Traced(run[n + 1])
  {
    RunKeepsInv(run, idrPeriod, n);
    assert NextAt(run, idrPeriod, n);
    NextKeepsTraced(run[n], run[n + 1], idrPeriod);
  }

  lemma {:induction false} RunKeepsTraced(run: seq<System>, idrPeriod: uint32, n: nat)
    requires idrPeriod > 0 && IsRun(run, idrPeriod) && n < |run|
    ensures Traced(run[n])
  {
    if n > 0 {
      RunKeepsTraced(run, idrPeriod, n - 1);
      StepKeepsTraced(run, idrPeriod, n - 1);
    }
  }

  lemma {:induction false} RunKeepsSound(run: seq<System>, idrPeriod: uint32, n: nat)
    requires idrPeriod > 0 && IsRun(run, idrPeriod) && n < |run|
    ensures Sound(run[n], idrPeriod)
  {
    RunKeepsInv(run, idrPeriod, n);
    RunKeepsTraced(run, idrPeriod, n);
  }

  /** Until the first keyframe packet nothing leaves a trace in the receiver. */
  lemma {:induction false} NothingBeforeKeyframe(run: seq<System>, idrPeriod: uint32, n: nat)
    requires idrPeriod > 0 && IsRun(run, idrPeriod) && n < |run| && !run[n].rx.streamStarted
    ensures run[n].rx == INIT_STATE && run[n].heard == {}
  {
    RunKeepsInv(run, idrPeriod, n);
    NothingBeforeStart(run[n].rx);
  }

  // ---- the oldest unfinished frame -------------------------------------------

  lemma {:induction false} OldestIsLeast(frames: seq<Frame>, heard: set<Tag>, k: nat, id: nat)
    requires k <= id && !AllIn(frames, heard, id)
    ensures Oldest(frames, heard, k) <= id < |frames|
  {
    LackingMeansBytes(frames, heard, id);
  }

  lemma {:induction false} OldestGrows(frames: seq<Frame>, more: seq<Frame>, heard: set<Tag>, louder: set<Tag>, k: nat)
    requires frames <= more && heard <= louder && k <= |frames|
    ensures Oldest(frames, heard, k) <= Oldest(more, louder, k)
  {
    var low := Oldest(frames, heard, k);
    var high := Oldest(more, louder, k);
    if high < low {
      AllInStays(frames, more, heard, louder, high);
    }
  }

  /** The front of what waits lacks a packet, and at most BACKLOG frames wait. */
  ghost predicate FrontLacks(s: System) {
    s.rx.pending != map[] ==>
      s.rx.nextDeliver in s.rx.pending && !AllIn(s.frames, s.heard, s.rx.nextDeliver) && |s.rx.pending| <= BACKLOG
  }

  ghost predicate FiledAreSeen(s: System) {
    forall id :: id in s.rx.filed ==> s.rx.start <= id && Seen(s.heard, id)
  }

  /** What the proofs below need of a started receiver. */
  ghost predicate Clear(s: System) {
    && s.rx.streamStarted && s.rx.start <= s.rx.nextDeliver
    && Conserved(s.rx) && Waiting(s.rx.pending, s.rx.nextDeliver)
    && HeardIsSettled(s.frames, s.heard, s.rx)
    && FrontLacks(s) && FiledAreSeen(s) && Traced(s)
  }

  lemma {:induction false} SoundIsClear(s: System, idrPeriod: uint32)
    requires idrPeriod > 0 && Sound(s, idrPeriod) && s.rx.streamStarted
    ensures Clear(s)
  {
    if s.rx.pending != map[] {
      var front := s.rx.nextDeliver;
      assert MatchesHeard(s.frames, idrPeriod, s.heard, front, s.rx.pending[front]);
      CompleteIffAllIn(s.frames, idrPeriod, s.heard, front, s.rx.pending[front]);
    }
  }

  lemma {:induction false} RunIsClear(run: seq<System>, idrPeriod: uint32, n: nat)
    requires idrPeriod > 0 && IsRun(run, idrPeriod) && n < |run| && run[n].rx.streamStarted
    ensures Clear(run[n]) && run[n].rx.start in run[n].rx.filed
  {
    RunKeepsSound(run, idrPeriod, n);
    SoundIsClear(run[n], idrPeriod);
  }

  /** Whatever waits is behind the oldest unfinished frame. */
  lemma {:induction false} WaitingIsBehind(s: System)
    requires Clear(s) && s.rx.pending != map[]
    ensures s.rx.nextDeliver in s.rx.pending
    ensures forall id :: id in s.rx.pending ==> id in Behind(s.frames, s.heard, s.rx.start)
  {
    OldestIsLeast(s.frames, s.heard, s.rx.start, s.rx.nextDeliver);
    forall id | id in s.rx.pending ensures id in Behind(s.frames, s.heard, s.rx.start) {
      assert id in s.rx.pending.Keys;
      assert id in s.rx.filed;
    }
  }

  lemma {:induction false} SeenIsSettled(s: System, id: nat)
    requires Clear(s) && Seen(s.heard, id)
    ensures id < |s.frames| && HasBytes(s.frames, id) && (id in s.rx.pending || id < s.rx.nextDeliver)
  {
    var i :| Tag(id, i) in s.heard;
    PacketMeansBytes(s.frames, id, i);
  }

  /** The same before the start, when there is nothing. */
  ghost predicate Known(s: System) {
    if s.rx.streamStarted then Clear(s)
    else s.rx.pending == map[] && s.rx.abandoned == [] && s.rx.filed == {} && s.heard == {}
  }

  lemma {:induction false} SoundIsKnown(s: System, idrPeriod: uint32)
    requires idrPeriod > 0 && Sound(s, idrPeriod)
    ensures Known(s)
  {
    if s.rx.streamStarted {
      SoundIsClear(s, idrPeriod);
    } else {
      NothingBeforeStart(s.rx);
    }
  }

  lemma {:induction false} RunIsKnown(run: seq<System>, idrPeriod: uint32, n: nat)
    requires idrPeriod > 0 && IsRun(run, idrPeriod) && n < |run|
    ensures Known(run[n])
  {
    RunKeepsSound(run, idrPeriod, n);
    SoundIsKnown(run[n], idrPeriod);
  }

  // ---- what one step does -----------------------------------------------------

  /** More frames may have been sent. */
  ghost predicate Unheard(a: System, b: System) { a.frames <= b.frames && b.rx == a.rx && b.heard == a.heard }

  /** A packet below the watermark arrived. */
  ghost predicate Refused(a: System, b: System, t: Tag) {
    && a.rx.streamStarted && IsPacket(a.frames, t.id, t.idx) && t.id < a.rx.nextDeliver
    && b.frames == a.frames && b.rx == a.rx && b.heard == a.heard + {t}
  }

  /** A packet arrived and was filed; a frame was only given up if the window was not kept. */
  ghost predicate Taken(a: System, b: System, t: Tag) {
    && IsPacket(a.frames, t.id, t.idx) && b.frames == a.frames && b.heard == a.heard + {t}
    && b.rx.streamStarted && (forall id :: id in b.rx.filed <==> id in a.rx.filed || id == t.id)
    && (a.rx.streamStarted ==> b.rx.start == a.rx.start && a.rx.nextDeliver <= b.rx.nextDeliver)
    && (forall id :: id in Ids(b.rx.delivered) ==> id in Ids(a.rx.delivered) || a.rx.nextDeliver <= id)
    && (a.rx.abandoned == [] && Fits(b.frames, b.heard, b.rx.start) ==> b.rx.abandoned == [])
  }

  /** The frames that wait from `r` on when the drain loop starts are all behind the oldest unfinished one. */
  lemma {:induction false} WaitingWasSeen(s: System, id: uint32)
    requires Known(s) && id in s.rx.pending
    ensures id < |s.frames| && Seen(s.heard, id)
  {
    assert id in s.rx.pending.Keys;
    assert id in s.rx.filed;
    SeenIsSettled(s, id);
  }

  lemma {:induction false} PiledAreBehind(a: System, b: System, p: Packet, t: Tag, r: uint32)
    requires Known(a)
    requires b.frames == a.frames && b.heard == a.heard + {t} && p.header.frameId == t.id < |a.frames|
    requires Oldest(b.frames, b.heard, b.rx.start) <= r
    ensures |WaitingFrom(Filed(a.rx, p).pending, r)| <= |Behind(b.frames, b.heard, b.rx.start)|
  {
    var m := Filed(a.rx, p).pending;
    FiledKeys(a.rx, p);
    SeenGrows(a.heard, t);
    forall k | k in WaitingFrom(m, r) ensures k in Behind(b.frames, b.heard, b.rx.start) {
      assert k in m.Keys;
      if k != t.id {
        WaitingWasSeen(a, k);
      }
    }
    SubsetSize(WaitingFrom(m, r), Behind(b.frames, b.heard, b.rx.start));
  }

  ghost predicate OneOfThree(a: System, b: System, t: Tag) { Unheard(a, b) || Refused(a, b, t) || Taken(a, b, t) }

  /** `b` is `a` after the packet with this tag was accepted. */
  ghost predicate Arrived(a: System, b: System, idrPeriod: uint32, t: Tag)
    requires idrPeriod > 0
  {
    && |a.frames| < U32_LIMIT && b.frames == a.frames && b.heard == a.heard + {t}
    && IsPacket(a.frames, t.id, t.idx)
    && Accepted(a.rx, PacketAt(a.frames, idrPeriod, t.id, t.idx).header)
    && b.rx == Handle(a.rx, PacketAt(a.frames, idrPeriod, t.id, t.idx))
  }

  /** What is given up lacks a packet, and more than BACKLOG frames waited from it on. */
  lemma {:induction false} GivenUpWasPiled(a: System, b: System, idrPeriod: uint32, t: Tag)
    requires idrPeriod > 0 && Inv(a, idrPeriod) && Arrived(a, b, idrPeriod, t)
    requires a.rx.abandoned == [] && b.rx.abandoned != []
    ensures var p, r := PacketAt(a.frames, idrPeriod, t.id, t.idx), b.rx.abandoned[0].id;
            !AllIn(b.frames, b.heard, r) && |WaitingFrom(Filed(a.rx, p).pending, r)| > BACKLOG
  {
    var p, r := PacketAt(a.frames, idrPeriod, t.id, t.idx), b.rx.abandoned[0];
    NewlyAbandoned(a.frames, idrPeriod, a.rx, a.heard, t.id, t.idx, 0);
    CompleteIffAllIn(b.frames, idrPeriod, b.heard, r.id, r.frame);
    FiledMatches(a.frames, idrPeriod, a.rx, a.heard, t.id, t.idx);
    HandleSettles(a.rx, p);
    DrainAbandonsPiled(Filed(Resync(a.rx, p.header), p), 0);
    ResyncKeepsEntries(a.rx, p);
  }

  lemma {:induction false} GivenUpIsFiled(s: System)
    requires Clear(s) && s.rx.abandoned != []
    ensures s.rx.start <= s.rx.abandoned[0].id
  {
    IdsAre(s.rx.abandoned);
    assert s.rx.abandoned[0].id in Ids(s.rx.abandoned);
  }

  lemma {:induction false} PiledIsUnkept(a: System, b: System, p: Packet, t: Tag)
    requires Known(a) && Known(b) && b.rx.streamStarted && b.rx.abandoned != []
    requires b.frames == a.frames && b.heard == a.heard + {t} && p.header.frameId == t.id < |a.frames|
    requires var r := b.rx.abandoned[0].id;
             !AllIn(b.frames, b.heard, r) && |WaitingFrom(Filed(a.rx, p).pending, r)| > BACKLOG
    ensures !Fits(b.frames, b.heard, b.rx.start)
  {
    var r := b.rx.abandoned[0].id;
    GivenUpIsFiled(b);
    OldestIsLeast(b.frames, b.heard, b.rx.start, r);
    PiledAreBehind(a, b, p, t, r);
  }

  lemma {:induction false} TakingIs(rx: State, p: Packet)
    requires Settled(rx) && p.header.frameId != LAST_ID && Accepted(rx, p.header) && !OpensNothing(rx, p.header)
    ensures Handle(rx, p).streamStarted && Handle(rx, p).filed == rx.filed + {p.header.frameId}
    ensures rx.streamStarted ==> Handle(rx, p).start == rx.start && rx.nextDeliver <= Handle(rx, p).nextDeliver
  {
    AcceptedIsFiled(rx, p);
    HandleStarts(rx, p);
    HandleKeepsLedger(rx, p);
  }

  lemma {:induction false} ArrivalIsFiled(run: seq<System>, idrPeriod: uint32, n: nat, t: Tag)
    requires idrPeriod > 0 && IsRun(run, idrPeriod) && n + 1 < |run| && Arrived(run[n], run[n + 1], idrPeriod, t)
    ensures var a, b := run[n].rx, run[n + 1].rx;
            && b.streamStarted && (forall id :: id in b.filed <==> id in a.filed || id == t.id)
            && (a.streamStarted ==> b.start == a.start && a.nextDeliver <= b.nextDeliver)
  {
    var a := run[n];
    RunKeepsInv(run, idrPeriod, n);
    FiledMatches(a.frames, idrPeriod, a.rx, a.heard, t.id, t.idx);
    TakingIs(a.rx, PacketAt(a.frames, idrPeriod, t.id, t.idx));
  }

  lemma {:induction false} ArrivalDelivers(run: seq<System>, idrPeriod: uint32, n: nat, t: Tag)
    requires idrPeriod > 0 && IsRun(run, idrPeriod) && n + 1 < |run| && Arrived(run[n], run[n + 1], idrPeriod, t)
    ensures var a, b := run[n].rx, run[n + 1].rx;
            forall id :: id in Ids(b.delivered) ==> id in Ids(a.delivered) || a.nextDeliver <= id
  {
    var a, b := run[n], run[n + 1];
    RunKeepsInv(run, idrPeriod, n);
    forall id | id in Ids(b.rx.delivered) && id !in Ids(a.rx.delivered) ensures a.rx.nextDeliver <= id {
      NewlyDelivered(a.frames, idrPeriod, a.rx, a.heard, t, id);
    }
  }

  lemma {:induction false} ArrivalPiles(run: seq<System>, idrPeriod: uint32, n: nat, t: Tag)
    requires idrPeriod > 0 && IsRun(run, idrPeriod) && n + 1 < |run| && Arrived(run[n], run[n + 1], idrPeriod, t)
    requires run[n].rx.abandoned == [] && run[n + 1].rx.abandoned != []
    ensures var a, b := run[n], run[n + 1];
            var p, r := PacketAt(a.frames, idrPeriod, t.id, t.idx), b.rx.abandoned[0].id;
            !AllIn(b.frames, b.heard, r) && |WaitingFrom(Filed(a.rx, p).pending, r)| > BACKLOG
  {
    RunKeepsInv(run, idrPeriod, n);
    GivenUpWasPiled(run[n], run[n + 1], idrPeriod, t);
  }

  lemma {:induction false} ArrivalIsTaken(run: seq<System>, idrPeriod: uint32, n: nat, t: Tag)
    requires idrPeriod > 0 && IsRun(run, idrPeriod) && n + 1 < |run| && Arrived(run[n], run[n + 1], idrPeriod, t)
    ensures Taken(run[n], run[n + 1], t)
  {
    ArrivalIsFiled(run, idrPeriod, n, t);
    ArrivalDelivers(run, idrPeriod, n, t);
    if run[n].rx.abandoned == [] && run[n + 1].rx.abandoned != [] {
      ArrivalPiles(run, idrPeriod, n, t);
      RunIsKnown(run, idrPeriod, n);
      RunIsKnown(run, idrPeriod, n + 1);
      PiledIsUnkept(run[n], run[n + 1], PacketAt(run[n].frames, idrPeriod, t.id, t.idx), t);
    }
  }

  lemma {:induction false} WireIsSent(run: seq<System>, idrPeriod: uint32, n: nat, d: seq<byte>)
    requires idrPeriod > 0 && IsRun(run, idrPeriod) && n < |run| && d in run[n].wire
    ensures ValidFrames(run[n].frames) && IsSent(run[n].frames, idrPeriod, d)
  {
    RunKeepsInv(run, idrPeriod, n);
  }

  lemma {:induction false} DeliveryAtIs(run: seq<System>, idrPeriod: uint32, n: nat, d: seq<byte>) returns (t: Tag)
    requires idrPeriod > 0 && IsRun(run, idrPeriod) && n + 1 < |run| && DeliverStep(run[n], run[n + 1], d)
    ensures OneOfThree(run[n], run[n + 1], t)
  {
    WireIsSent(run, idrPeriod, n, d);
    var id, i := DeliveredPacket(run[n], run[n + 1], idrPeriod, d);
    t := Tag(id, i);
    if Accepted(run[n].rx, PacketAt(run[n].frames, idrPeriod, id, i).header) {
      HandleStarts(run[n].rx, PacketAt(run[n].frames, idrPeriod, id, i));
      ArrivalIsTaken(run, idrPeriod, n, t);
    }
  }

  /** Each step of a run is one of the three. */
  lemma {:induction false} StepIs(run: seq<System>, idrPeriod: uint32, n: nat) returns (t: Tag)
    requires idrPeriod > 0 && IsRun(run, idrPeriod) && n + 1 < |run|
    ensures OneOfThree(run[n], run[n + 1], t)
  {
    assert NextAt(run, idrPeriod, n);
    t := Tag(0, 0);
    if !SenderStep(run[n], run[n + 1], idrPeriod) {
      var d :| DeliverStep(run[n], run[n + 1], d);
      t := DeliveryAtIs(run, idrPeriod, n, d);
    }
  }

  /** The frame the stream was started at was sent, has bytes and is flagged. */
  lemma {:induction false} StartIsSent(run: seq<System>, idrPeriod: uint32, n: nat)
    requires idrPeriod > 0 && IsRun(run, idrPeriod) && n < |run| && run[n].rx.streamStarted
    ensures HasBytes(run[n].frames, run[n].rx.start) && ForceIdr(run[n].rx.start, idrPeriod)
    ensures run[n].rx.start > 0 && run[n].rx.start % idrPeriod == 0
  {
    RunIsClear(run, idrPeriod, n);
    SeenIsSettled(run[n], run[n].rx.start);
    EveryStateIsSettled(run, idrPeriod, n);
  }

  lemma {:induction false} FirstPacketStartsIff(a: System, b: System, d: seq<byte>, p: Packet)
    requires a.rx == INIT_STATE && DeliverStep(a, b, d) && Parse(d) == Some(p)
    ensures b.rx.streamStarted <==> p.header.flags % 2 == 1
    ensures b.rx.streamStarted ==> b.rx.start == p.header.frameId
  {
    assert b.rx == Handle(INIT_STATE, p);
    if Accepted(INIT_STATE, p.header) {
      HandleStarts(INIT_STATE, p);
    }
  }

  lemma {:induction false} FlagIsIff(frames: seq<Frame>, idrPeriod: uint32, id: nat, i: nat)
    requires idrPeriod > 0 && |frames| < U32_LIMIT && IsPacket(frames, id, i)
    ensures var h := PacketAt(frames, idrPeriod, id, i).header;
            h.frameId == id && (h.flags % 2 == 1 <==> id > 0 && id % idrPeriod == 0)
  {
  }

  /**
   * A datagram that meets a receiver not yet started starts it if and only if its frame's id is a positive multiple of
   * the keyframe period, and at that frame.
   */
  lemma {:induction false} StartsIffKeyframe(run: seq<System>, idrPeriod: uint32, n: nat, d: seq<byte>)
    requires idrPeriod > 0 && IsRun(run, idrPeriod) && n + 1 < |run| && !run[n].rx.streamStarted
    requires DeliverStep(run[n], run[n + 1], d)
    ensures Parse(d).Some?
    ensures var id, rx := Parse(d).value.header.frameId, run[n + 1].rx;
            && (rx.streamStarted <==> id > 0 && id % idrPeriod == 0)
            && (rx.streamStarted ==> rx.start == id)
  {
    NothingBeforeKeyframe(run, idrPeriod, n);
    WireIsSent(run, idrPeriod, n, d);
    var id, i := FindPacket(run[n].frames, idrPeriod, d);
    FlagIsIff(run[n].frames, idrPeriod, id, i);
    FirstPacketStartsIff(run[n], run[n + 1], d, PacketAt(run[n].frames, idrPeriod, id, i));
  }

  lemma {:induction false} NextKeepsStart(run: seq<System>, idrPeriod: uint32, n: nat)
    requires idrPeriod > 0 && IsRun(run, idrPeriod) && n + 1 < |run| && run[n].rx.streamStarted
    ensures run[n + 1].rx.streamStarted && run[n + 1].rx.start == run[n].rx.start
    ensures run[n].frames <= run[n + 1].frames && run[n].heard <= run[n + 1].heard
  {
    var t := StepIs(run, idrPeriod, n);
  }

  lemma {:induction false} StartStays(run: seq<System>, idrPeriod: uint32, m: nat, n: nat)
    requires idrPeriod > 0 && IsRun(run, idrPeriod) && m <= n < |run| && run[m].rx.streamStarted
    ensures run[n].rx.streamStarted && run[n].rx.start == run[m].rx.start
    ensures run[m].frames <= run[n].frames && run[m].heard <= run[n].heard
    decreases n
  {
    if m < n {
      StartStays(run, idrPeriod, m, n - 1);
      NextKeepsStart(run, idrPeriod, n - 1);
      PrefixTransitive(run[m].frames, run[n - 1].frames, run[n].frames);
    }
  }
}
