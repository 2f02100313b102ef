/** Inputs at which frames are lost or damaged, as runs of the system and of the receiver. */
module Losses {
  import opened Words
  import opened Wire
  import opened Packetizer
  import opened Receiver
  import opened Reassembly
  import opened Ledger
  import opened Transport
  import opened Progress
  import opened Window

  // ---- building runs -----------------------------------------------------------

  lemma {:induction false} ExtendRun(run: seq<System>, idrPeriod: uint32, s: System)
    requires idrPeriod > 0 && IsRun(run, idrPeriod) && Next(run[|run| - 1], s, idrPeriod)
    ensures IsRun(run + [s], idrPeriod)
  {
    var longer := run + [s];
    forall k | 0 <= k < |longer| - 1 ensures NextAt(longer, idrPeriod, k) {
      assert k < |run| - 1 ==> NextAt(run, idrPeriod, k);
    }
  }

  ghost predicate AllOnWire(s: System, idrPeriod: uint32)
    requires idrPeriod > 0 && |s.frames| < U32_LIMIT
  {
    forall id, i :: IsPacket(s.frames, id, i) ==> DatagramAt(s.frames, idrPeriod, id, i) in s.wire
  }

  lemma {:induction false} FrameIsOnWire(frames: seq<Frame>, idrPeriod: uint32, id: nat, i: nat)
    requires idrPeriod > 0 && ValidFrames(frames) && IsPacket(frames, id, i)
    ensures DatagramAt(frames, idrPeriod, id, i) in FrameDatagrams(id, frames[id], idrPeriod)
  {
    var stamp := StampAt(frames, id, idrPeriod);
    OneChunkTravelsAsBody(stamp, frames[id].chunks);
    assert Datagrams(stamp, Body(frames[id]))[i] == DatagramAt(frames, idrPeriod, id, i);
  }

  lemma {:induction false} SameDatagram(frames: seq<Frame>, more: seq<Frame>, idrPeriod: uint32, id: nat, i: nat)
    requires idrPeriod > 0 && frames <= more && |more| < U32_LIMIT && id < |frames| && IsPacket(more, id, i)
    ensures IsPacket(frames, id, i) && DatagramAt(more, idrPeriod, id, i) == DatagramAt(frames, idrPeriod, id, i)
  {
    assert frames[id] == more[id];
  }

  lemma {:induction false} WireHolds(a: System, frames: seq<Frame>, idrPeriod: uint32, wire: set<seq<byte>>, id: nat,
                                     i: nat)
    requires idrPeriod > 0 && ValidFrames(frames) && |frames| > 0 && a.frames == frames[..|frames| - 1]
    requires AllOnWire(a, idrPeriod) && a.wire <= wire && IsPacket(frames, id, i)
    requires forall d :: d in FrameDatagrams(|frames| - 1, frames[|frames| - 1], idrPeriod) ==> d in wire
    ensures DatagramAt(frames, idrPeriod, id, i) in wire
  {
    if id < |frames| - 1 {
      SameDatagram(a.frames, frames, idrPeriod, id, i);
    } else {
      FrameIsOnWire(frames, idrPeriod, id, i);
    }
  }

  lemma {:induction false} SendOne(a: System, frames: seq<Frame>, idrPeriod: uint32) returns (b: System)
    requires idrPeriod > 0 && ValidFrames(frames) && |frames| > 0 && a.frames == frames[..|frames| - 1]
    requires AllOnWire(a, idrPeriod)
    ensures SenderStep(a, b, idrPeriod) && b.frames == frames && b.rx == a.rx && b.heard == a.heard
    ensures AllOnWire(b, idrPeriod)
  {
    var sent := FrameDatagrams(|frames| - 1, frames[|frames| - 1], idrPeriod);
    var wire := a.wire + set d | d in sent;
    b := a.(frames := frames, wire := wire);
    forall id: nat, i: nat | IsPacket(frames, id, i) ensures DatagramAt(frames, idrPeriod, id, i) in wire {
      WireHolds(a, frames, idrPeriod, wire, id, i);
    }
  }

  /** A run in which every datagram of these frames gets onto the wire and none has arrived yet. */
  lemma {:induction false} SendAll(frames: seq<Frame>, idrPeriod: uint32) returns (run: seq<System>)
    requires idrPeriod > 0 && ValidFrames(frames)
    ensures IsRun(run, idrPeriod)
    ensures var s := run[|run| - 1];
            s.frames == frames && s.rx == INIT_STATE && s.heard == {} && AllOnWire(s, idrPeriod)
  {
    if frames == [] {
      run := [System([], {}, INIT_STATE, {})];
    } else {
      var before := SendAll(frames[..|frames| - 1], idrPeriod);
      var s := SendOne(before[|before| - 1], frames, idrPeriod);
      ExtendRun(before, idrPeriod, s);
      run := before + [s];
    }
  }

  /** One more packet arrives. */
  lemma {:induction false} HandOver(run: seq<System>, idrPeriod: uint32, t: Tag) returns (longer: seq<System>)
    requires idrPeriod > 0 && IsRun(run, idrPeriod) && |run[|run| - 1].frames| < U32_LIMIT
    requires AllOnWire(run[|run| - 1], idrPeriod) && IsPacket(run[|run| - 1].frames, t.id, t.idx)
    ensures IsRun(longer, idrPeriod) && |longer| == |run| + 1 && longer[..|run|] == run
    ensures var a, b := run[|run| - 1], longer[|run|];
            && b.frames == a.frames && b.wire == a.wire
            && b.rx == Handle(a.rx, PacketAt(a.frames, idrPeriod, t.id, t.idx))
            && b.heard == if b.rx.streamStarted then a.heard + {t} else a.heard
  {
    var a := run[|run| - 1];
    var d := DatagramAt(a.frames, idrPeriod, t.id, t.idx);
    RunKeepsInv(run, idrPeriod, |run| - 1);
    DatagramIsReadBack(a.frames, idrPeriod, t.id, t.idx);
    var rx := Step(a.rx, d);
    var b := a.(rx := rx, heard := if rx.streamStarted then a.heard + TagOf(d) else a.heard);
    assert DeliverStep(a, b, d);
    ExtendRun(run, idrPeriod, b);
    longer := run + [b];
  }

  /**
   * The frames a receiver can start at: some run of these frames starts it at this one if and only if the frame has
   * bytes and its id is a positive multiple of the keyframe period. So every such frame offers a new start.
   */
  lemma {:induction false} CanStartAtIff(frames: seq<Frame>, idrPeriod: uint32, id: nat)
    requires idrPeriod > 0 && ValidFrames(frames)
    ensures (exists run: seq<System>, n: nat :: IsRun(run, idrPeriod) && n < |run| && run[n].frames == frames &&
               run[n].rx.streamStarted && run[n].rx.start == id) <==>
            HasBytes(frames, id) && id > 0 && id % idrPeriod == 0
  {
    if HasBytes(frames, id) && id > 0 && id % idrPeriod == 0 {
      var before := SendAll(frames, idrPeriod);
      BytesMeanPacket(frames, id);
      var run := HandOver(before, idrPeriod, Tag(id, 0));
      HandleStarts(INIT_STATE, PacketAt(frames, idrPeriod, id, 0));
      assert run[|before|].rx.start == id;
    }
    forall run: seq<System>, n: nat | IsRun(run, idrPeriod) && n < |run| && run[n].frames == frames &&
      run[n].rx.streamStarted && run[n].rx.start == id
      ensures HasBytes(frames, id) && id > 0 && id % idrPeriod == 0
    {
      StartIsSent(run, idrPeriod, n);
    }
  }

  // ---- a frame overtaken before its first packet -----------------------------------

  /** Four frames of one byte; with period 1 every frame but the first is a keyframe. */
  function FourFrames(): seq<Frame> { seq(4, _ => Frame([[7]], 1, 1)) }

  lemma {:induction false} FourFramesAreValid()
    ensures ValidFrames(FourFrames()) && |FourFrames()| == 4
    ensures forall id, i: nat :: IsPacket(FourFrames(), id, i) <==> id < 4 && i == 0
  {
    assert Flatten([[7]]) == [7] by { assert [[7]][..0] == [] && Flatten([]) == []; }
    assert PacketCount(1) == 1;
  }

  lemma {:induction false} FewWait(rx: State, ids: set<nat>)
    requires Conserved(rx) && (forall id :: id in rx.filed ==> id in ids)
    ensures |rx.pending| <= |ids|
  {
    SubsetSize(rx.pending.Keys, ids);
  }

  lemma {:induction false} DrainsNone(t: State)
    requires |t.pending| <= BACKLOG
    ensures Drain(t).abandoned == t.abandoned
  {
    DrainAbandonsExcess(t);
    DrainKeepsAbandoned(t);
  }

  lemma {:induction false} FewAreKept(rx: State, p: Packet, ids: set<nat>)
    requires Good(rx) && p.header.frameId != LAST_ID
    requires (forall id :: id in rx.filed ==> id in ids) && |ids| < BACKLOG
    ensures Handle(rx, p).abandoned == rx.abandoned
  {
    if Accepted(rx, p.header) {
      FewWait(rx, ids);
      FilingBalances(rx, p);
      DrainsNone(Filed(Resync(rx, p.header), p));
    }
  }

  lemma {:induction false} NoneGivenUp(run: seq<System>, idrPeriod: uint32, p: Packet, ids: set<nat>)
    requires idrPeriod > 0 && IsRun(run, idrPeriod) && run[|run| - 1].rx.streamStarted
    requires p.header.frameId != LAST_ID && |ids| < BACKLOG
    requires forall id :: Seen(run[|run| - 1].heard, id) ==> id in ids
    ensures Handle(run[|run| - 1].rx, p).abandoned == run[|run| - 1].rx.abandoned
  {
    RunKeepsInv(run, idrPeriod, |run| - 1);
    RunIsClear(run, idrPeriod, |run| - 1);
    FewAreKept(run[|run| - 1].rx, p, ids);
  }

  lemma {:induction false} LongerKeepsStart(run: seq<System>, longer: seq<System>, idrPeriod: uint32)
    requires idrPeriod > 0 && IsRun(longer, idrPeriod) && 0 < |run| && |longer| == |run| + 1 && longer[..|run|] == run
    requires run[|run| - 1].rx.streamStarted
    ensures longer[|run|].rx.streamStarted && longer[|run|].rx.start == run[|run| - 1].rx.start
  {
    assert longer[|run| - 1] == run[|run| - 1];
    NextKeepsStart(longer, idrPeriod, |run| - 1);
  }

  /** A packet of a frame from the start on arrives while few frames were seen. */
  lemma {:induction false} Arrive(run: seq<System>, idrPeriod: uint32, t: Tag, ids: set<nat>)
    returns (longer: seq<System>)
    requires idrPeriod > 0 && IsRun(run, idrPeriod) && run[|run| - 1].rx.streamStarted
    requires ValidFrames(run[|run| - 1].frames)
    requires AllOnWire(run[|run| - 1], idrPeriod) && IsPacket(run[|run| - 1].frames, t.id, t.idx)
    requires |ids| < BACKLOG && forall id :: Seen(run[|run| - 1].heard, id) ==> id in ids
    ensures IsRun(longer, idrPeriod) && |longer| == |run| + 1 && longer[..|run|] == run
    ensures var a, b := run[|run| - 1], longer[|run|];
            && b.frames == a.frames && b.wire == a.wire && b.heard == a.heard + {t}
            && b.rx.streamStarted && b.rx.start == a.rx.start && b.rx.abandoned == a.rx.abandoned
  {
    longer := HandOver(run, idrPeriod, t);
    NoneGivenUp(run, idrPeriod, PacketAt(run[|run| - 1].frames, idrPeriod, t.id, t.idx), ids);
    LongerKeepsStart(run, longer, idrPeriod);
  }

  lemma {:induction false} FirstArrival() returns (run: seq<System>)
    ensures IsRun(run, 1)
    ensures var s := run[|run| - 1];
            && s.frames == FourFrames() && AllOnWire(s, 1) && s.heard == {Tag(1, 0)}
            && s.rx.streamStarted && s.rx.start == 1 && s.rx.abandoned == []
  {
    FourFramesAreValid();
    var before := SendAll(FourFrames(), 1);
    run := HandOver(before, 1, Tag(1, 0));
    RunKeepsSound(before, 1, |before| - 1);
    FewAreKept(INIT_STATE, PacketAt(FourFrames(), 1, 1, 0), {});
    HandleStarts(INIT_STATE, PacketAt(FourFrames(), 1, 1, 0));
  }

  lemma {:induction false} ThreeArrivals() returns (run: seq<System>, m: nat)
    ensures IsRun(run, 1) && m + 2 == |run|
    ensures run[m].frames == run[m + 1].frames == FourFrames()
    ensures run[m].heard == {Tag(1, 0)} + {Tag(3, 0)} && run[m + 1].heard == run[m].heard + {Tag(2, 0)}
    ensures run[m].rx.streamStarted && run[m].rx.start == 1 && run[m + 1].rx.abandoned == []
  {
    FourFramesAreValid();
    var one := FirstArrival();
    var two := Arrive(one, 1, Tag(3, 0), {1});
    SeenGrows({Tag(1, 0)}, Tag(3, 0));
    run := Arrive(two, 1, Tag(2, 0), {1, 3});
    m := |two| - 1;
    assert run[m] == two[m];
  }

  /**
   * Frame 3 overtakes frame 2 while nothing waits: every packet arrives, none is given up, and frame 2 is never
   * decoded.
   */
  lemma {:induction false} OvertakenFrameIsLost() returns (run: seq<System>, n: nat)
    ensures IsRun(run, 1) && n < |run| && run[n].frames == FourFrames() && run[n].rx.start == 1
    ensures forall id :: 1 <= id < 4 ==> HasBytes(run[n].frames, id) && AllIn(run[n].frames, run[n].heard, id)
    ensures run[n].rx.abandoned == [] && 2 !in Ids(run[n].rx.delivered) && !Lossless(run[n], 1)
  {
    var m;
    run, m := ThreeArrivals();
    n := m + 1;
    FourFramesAreValid();
    StartStays(run, 1, m, n);
    forall id | 1 <= id < 4 ensures HasBytes(run[n].frames, id) {
      PacketMeansBytes(FourFrames(), id, 0);
    }
    var frames, heard := run[m].frames, run[m].heard;
    assert AllIn(frames, heard, 1);
    assert IsPacket(frames, 2, 0) && !AllIn(frames, heard, 2);
    assert Oldest(frames, heard, 1) == 2;
    SeenGrows({Tag(1, 0)}, Tag(3, 0));
    assert 3 in Behind(frames, heard, 1) && 2 !in Behind(frames, heard, 1);
    UnkeptFrameIsLost(run, 1, m, n);
    LostIsNotLossless(run, 1, m, n);
  }

  // ---- two chunks of one frame --------------------------------------------------------

  /** Packet by packet, the bytes of one of two chunks of the same size. */
  function Mixed(a: seq<byte>, b: seq<byte>, pick: seq<bool>): (m: seq<byte>)
    requires |a| == |b| <= MAX_CHUNK && |pick| == PacketCount(|a|)
    ensures |m| == |a|
  {
    PacketCountIsCeiling(|a|);
    seq(|a|, i requires 0 <= i < |a| => if pick[i / MAX_PAYLOAD] then a[i] else b[i])
  }

  lemma {:induction false} MixedByte(a: seq<byte>, b: seq<byte>, pick: seq<bool>, i: nat, x: nat)
    requires |a| == |b| <= MAX_CHUNK && |pick| == PacketCount(|a|) && i < |pick|
    requires i * MAX_PAYLOAD <= x < (i + 1) * MAX_PAYLOAD && x < |a|
    ensures Mixed(a, b, pick)[x] == if pick[i] then a[x] else b[x]
  {
    assert x / MAX_PAYLOAD == i;
  }

  lemma {:induction false} MixedPayload(a: seq<byte>, b: seq<byte>, pick: seq<bool>, i: nat)
    requires |a| == |b| <= MAX_CHUNK && |pick| == PacketCount(|a|) && i < |pick|
    ensures PayloadOf(Mixed(a, b, pick), i) == PayloadOf(if pick[i] then a else b, i)
  {
    var m, c := Mixed(a, b, pick), if pick[i] then a else b;
    PacketsStartInside(|a|, i);
    var from, to := i * MAX_PAYLOAD, Min((i + 1) * MAX_PAYLOAD, |a|);
    forall x | from <= x < to ensures m[x] == c[x] {
      MixedByte(a, b, pick, i, x);
    }
    SlicesAreEqual(m, c, from, to);
  }

  lemma {:induction false} SlicesAreEqual(a: seq<byte>, b: seq<byte>, from: nat, to: nat)
    requires from <= to <= |a| == |b| && forall x :: from <= x < to ==> a[x] == b[x]
    ensures a[from..to] == b[from..to]
  {
  }

  lemma {:induction false} MixedPacket(stamp: Stamp, a: seq<byte>, b: seq<byte>, pick: seq<bool>, i: uint16)
    requires |a| == |b| <= MAX_CHUNK && |pick| == PacketCount(|a|) && i < |pick|
    ensures PacketOf(stamp, Mixed(a, b, pick), i) == PacketOf(stamp, if pick[i] then a else b, i)
  {
    MixedPayload(a, b, pick, i);
  }

  lemma {:induction false} TwoChunksTravel(stamp: Stamp, a: seq<byte>, b: seq<byte>)
    ensures ChunksDatagrams(stamp, [a, b]) == Datagrams(stamp, a) + Datagrams(stamp, b)
  {
    assert [a, b][..1] == [a] && [a][..0] == [] && ChunksDatagrams(stamp, []) == [];
    assert ChunksDatagrams(stamp, [a]) == Datagrams(stamp, a);
  }

  lemma {:induction false} DatagramOf(stamp: Stamp, chunk: seq<byte>, i: uint16)
    requires i < PacketCount(Size32(chunk))
    ensures Serialize(PacketOf(stamp, chunk, i)) in Datagrams(stamp, chunk)
  {
    assert Datagrams(stamp, chunk)[i] == Serialize(PacketOf(stamp, chunk, i));
  }

  lemma {:induction false} MixedDatagramIsSent(stamp: Stamp, a: seq<byte>, b: seq<byte>, pick: seq<bool>, i: uint16)
    requires |a| == |b| <= MAX_CHUNK && |pick| == PacketCount(|a|) && i < |pick|
    ensures Serialize(PacketOf(stamp, Mixed(a, b, pick), i)) in ChunksDatagrams(stamp, [a, b])
  {
    MixedPacket(stamp, a, b, pick, i);
    DatagramOf(stamp, if pick[i] then a else b, i);
    TwoChunksTravel(stamp, a, b);
  }

  // ---- a receiver that is handed the packets of one frame -------------------------------

  /** One frame waits, at the watermark, and none was decoded yet. */
  ghost predicate Lone(s: State, id: uint32, fa: FrameAssembly) {
    s.streamStarted && s.nextDeliver == id && s.delivered == [] && s.pending == map[id := fa]
  }

  lemma {:induction false} DrainOne(s: State, id: uint32, fa: FrameAssembly)
    requires s.pending == map[id := fa] && s.nextDeliver == id
    ensures if fa.Complete() then Drain(s).delivered == s.delivered + [Removed(id, fa)] else Drain(s) == s
  {
    assert IsHead(s.pending, id) && Head(s.pending) == id;
    assert s.pending - {id} == map[];
    assert |s.pending| == 1;
  }

  lemma {:induction false} LoneTakes(s: State, p: Packet, fa: FrameAssembly, fb: FrameAssembly)
    requires Lone(s, p.header.frameId, fa) && fa.totalPackets > 0 && fb == Absorb(fa, p)
    ensures if fb.Complete() then Handle(s, p).delivered == [Removed(p.header.frameId, fb)]
            else Lone(Handle(s, p), p.header.frameId, fb)
  {
    assert Filed(s, p).pending == map[p.header.frameId := fb];
    DrainOne(Filed(s, p), p.header.frameId, fb);
  }

  lemma {:induction false} FirstTakes(p: Packet, fb: FrameAssembly)
    requires HasKeyframeFlag(p.header.flags) && p.header.totalPackets > 0 && p.header.frameSize > 0
    requires fb == Absorb(Fresh(p.header), p)
    ensures var t := Handle(INIT_STATE, p);
            if fb.Complete() then t.delivered == [Removed(p.header.frameId, fb)] else Lone(t, p.header.frameId, fb)
  {
    var s := Resync(INIT_STATE, p.header);
    assert Filed(s, p).pending == map[p.header.frameId := fb];
    DrainOne(Filed(s, p), p.header.frameId, fb);
  }

  /** These packets belong to one keyframe, and laying them in one after the other makes these entries. */
  ghost predicate Growing(id: uint32, ps: seq<Packet>, fas: seq<FrameAssembly>) {
    && |ps| > 0 && |fas| == |ps| + 1 && fas[0] == Fresh(ps[0].header)
    && (forall i :: 0 <= i < |ps| ==> GrowsAt(id, ps[i], fas[i], fas[i + 1]))
    && (forall i :: 0 <= i < |ps| ==> !fas[i].Complete()) && fas[|ps|].Complete()
  }

  ghost predicate GrowsAt(id: uint32, p: Packet, fa: FrameAssembly, fb: FrameAssembly) {
    && p.header.frameId == id && HasKeyframeFlag(p.header.flags) && p.header.totalPackets > 0 && p.header.frameSize > 0
    && fa.totalPackets > 0 && fb == Absorb(fa, p)
  }

  ghost predicate HandledAt(states: seq<State>, ps: seq<Packet>, i: nat)
    requires i < |ps| && i + 1 < |states|
  {
    states[i + 1] == Handle(states[i], ps[i])
  }

  /** The receiver's states while it handles the first n of these packets one after the other. */
  ghost predicate Handles(states: seq<State>, ps: seq<Packet>, n: nat)
    requires n <= |ps|
  {
    |states| == n + 1 && states[0] == INIT_STATE && forall i :: 0 <= i < n ==> HandledAt(states, ps, i)
  }

  lemma {:induction false} HandleOneMore(states: seq<State>, ps: seq<Packet>, n: nat, s: State)
    requires n < |ps| && Handles(states, ps, n) && s == Handle(states[n], ps[n])
    ensures Handles(states + [s], ps, n + 1)
  {
    forall i | 0 <= i < n + 1 ensures HandledAt(states + [s], ps, i) {
      assert i < n ==> HandledAt(states, ps, i);
    }
  }

  ghost predicate Holds(s: State, id: uint32, fa: FrameAssembly) {
    if fa.Complete() then s.delivered == [Removed(id, fa)] else Lone(s, id, fa)
  }

  lemma {:induction false} HandleAll(id: uint32, ps: seq<Packet>, fas: seq<FrameAssembly>, n: nat)
    returns (states: seq<State>)
    requires Growing(id, ps, fas) && 0 < n <= |ps|
    ensures Handles(states, ps, n) && Holds(states[n], id, fas[n])
  {
    var s;
    if n == 1 {
      states, s := [INIT_STATE], Handle(INIT_STATE, ps[0]);
      assert GrowsAt(id, ps[0], fas[0], fas[0 + 1]);
      FirstTakes(ps[0], fas[1]);
    } else {
      states := HandleAll(id, ps, fas, n - 1);
      s := Handle(states[n - 1], ps[n - 1]);
      assert GrowsAt(id, ps[n - 1], fas[n - 1], fas[n - 1 + 1]);
      LoneTakes(states[n - 1], ps[n - 1], fas[n - 1], fas[n]);
    }
    HandleOneMore(states, ps, n - 1, s);
    states := states + [s];
  }

  function FirstTags(id: nat, n: nat): set<Tag> {
    if n == 0 then {} else FirstTags(id, n - 1) + {Tag(id, n - 1)}
  }

  lemma {:induction false} FirstTagsAre(id: nat, n: nat)
    ensures forall t :: t in FirstTags(id, n) <==> t.id == id && t.idx < n
  {
    if n > 0 {
      FirstTagsAre(id, n - 1);
    }
  }

  function FirstHeld(stamp: Stamp, body: seq<byte>, n: nat): FrameAssembly
    requires |body| <= MAX_CHUNK
  {
    HoldingHeard(stamp, body, FirstTags(stamp.frameId, n))
  }

  lemma {:induction false} CompleteAtLast(stamp: Stamp, body: seq<byte>, n: nat)
    requires |body| <= MAX_CHUNK && n <= PacketCount(|body|)
    ensures var fa := HoldingHeard(stamp, body, FirstTags(stamp.frameId, n));
            && (fa.Complete() <==> n == PacketCount(|body|))
            && (fa.Complete() ==> fa.bits == body)
  {
    var have := HeardMarks(FirstTags(stamp.frameId, n), stamp.frameId, PacketCount(|body|));
    FirstTagsAre(stamp.frameId, n);
    CompleteIffAllHeld(stamp, body, have);
    if n < |have| {
      assert !have[n];
    }
  }

  lemma {:induction false} HeldNext(stamp: Stamp, body: seq<byte>, n: uint16)
    requires |body| <= MAX_CHUNK && n < PacketCount(|body|)
    ensures Absorb(FirstHeld(stamp, body, n), PacketOf(stamp, body, n)) == FirstHeld(stamp, body, n + 1)
    ensures FirstHeld(stamp, body, n).totalPackets > 0
  {
    HeardMarksGrow(FirstTags(stamp.frameId, n), stamp.frameId, PacketCount(|body|), n);
    AbsorbMarksOne(stamp, body, HeardMarks(FirstTags(stamp.frameId, n), stamp.frameId, PacketCount(|body|)), n);
  }

  lemma {:induction false} HeldNone(stamp: Stamp, body: seq<byte>)
    requires |body| <= MAX_CHUNK && 0 < PacketCount(|body|)
    ensures Fresh(PacketOf(stamp, body, 0).header) == FirstHeld(stamp, body, 0)
  {
    FreshHoldsNothing(stamp, body, 0);
    assert HeardMarks({}, stamp.frameId, PacketCount(|body|)) == seq(PacketCount(|body|), _ => false);
  }

  lemma {:induction false} PacketIsMarked(stamp: Stamp, body: seq<byte>, n: uint16)
    requires stamp.keyframe && |body| <= MAX_CHUNK && n < PacketCount(|body|)
    ensures var h := PacketOf(stamp, body, n).header;
            h.frameId == stamp.frameId && HasKeyframeFlag(h.flags) && h.totalPackets > 0 && h.frameSize > 0
  {
    EmittedPacketIsReadBack(stamp, body, n);
  }

  lemma {:induction false} GrowsByOne(stamp: Stamp, body: seq<byte>, i: uint16)
    requires stamp.keyframe && |body| <= MAX_CHUNK && i < PacketCount(|body|)
    ensures GrowsAt(stamp.frameId, PacketOf(stamp, body, i), FirstHeld(stamp, body, i), FirstHeld(stamp, body, i + 1))
  {
    PacketIsMarked(stamp, body, i);
    HeldNext(stamp, body, i);
  }

  function AllHeld(stamp: Stamp, body: seq<byte>): (fas: seq<FrameAssembly>)
    requires |body| <= MAX_CHUNK
    ensures |fas| == PacketCount(|body|) + 1
  {
    seq(PacketCount(|body|) + 1, i requires 0 <= i <= PacketCount(|body|) => FirstHeld(stamp, body, i))
  }

  lemma {:induction false} ChunkPacketIs(stamp: Stamp, body: seq<byte>, i: nat)
    requires |body| <= MAX_CHUNK && i < PacketCount(|body|)
    ensures |ChunkPackets(stamp, body)| == PacketCount(|body|)
    ensures ChunkPackets(stamp, body)[i] == PacketOf(stamp, body, i)
  {
    assert Size32(body) == |body|;
  }

  lemma {:induction false} KeyframeGrowsAt(stamp: Stamp, body: seq<byte>, i: nat)
    requires stamp.keyframe && 0 < |body| <= MAX_CHUNK && i < PacketCount(|body|)
    ensures var ps, fas := ChunkPackets(stamp, body), AllHeld(stamp, body);
            i < |ps| && GrowsAt(stamp.frameId, ps[i], fas[i], fas[i + 1])
  {
    GrowsByOne(stamp, body, i);
    ChunkPacketIs(stamp, body, i);
    assert AllHeld(stamp, body)[i] == FirstHeld(stamp, body, i);
    assert AllHeld(stamp, body)[i + 1] == FirstHeld(stamp, body, i + 1);
  }

  lemma {:induction false} NotCompleteYet(stamp: Stamp, body: seq<byte>, i: nat)
    requires |body| <= MAX_CHUNK && i < PacketCount(|body|)
    ensures !AllHeld(stamp, body)[i].Complete()
  {
    CompleteAtLast(stamp, body, i);
  }

  lemma {:induction false} KeyframeStarts(stamp: Stamp, body: seq<byte>)
    requires 0 < |body| <= MAX_CHUNK
    ensures |ChunkPackets(stamp, body)| > 0
    ensures AllHeld(stamp, body)[0] == Fresh(ChunkPackets(stamp, body)[0].header)
  {
    PacketCountIsCeiling(|body|);
    HeldNone(stamp, body);
  }

  lemma {:induction false} KeyframeGrows(stamp: Stamp, body: seq<byte>)
    requires stamp.keyframe && 0 < |body| <= MAX_CHUNK
    ensures Growing(stamp.frameId, ChunkPackets(stamp, body), AllHeld(stamp, body))
    ensures AllHeld(stamp, body)[PacketCount(|body|)].bits == body
  {
    var ps, fas := ChunkPackets(stamp, body), AllHeld(stamp, body);
    KeyframeStarts(stamp, body);
    forall i | 0 <= i < |ps| ensures GrowsAt(stamp.frameId, ps[i], fas[i], fas[i + 1]) && !fas[i].Complete() {
      KeyframeGrowsAt(stamp, body, i);
      NotCompleteYet(stamp, body, i);
    }
    CompleteAtLast(stamp, body, PacketCount(|body|));
  }

  /**
   * What loss does to a keyframe of two equally long chunks: whichever packets of the one and of the other get through,
   * the decoder is given a single frame of the announced size with the bytes mixed packet by packet.
   */
  lemma {:induction false} ChunksAreMixed(stamp: Stamp, a: seq<byte>, b: seq<byte>, pick: seq<bool>)
    returns (ps: seq<Packet>, states: seq<State>)
    requires stamp.keyframe && 0 < |a| == |b| <= MAX_CHUNK && |pick| == PacketCount(|a|)
    ensures |ps| == |pick| && Handles(states, ps, |ps|)
    ensures forall i :: 0 <= i < |ps| ==> Serialize(ps[i]) in ChunksDatagrams(stamp, [a, b])
    ensures var s := states[|ps|];
            |s.delivered| == 1 && s.delivered[0].id == stamp.frameId && s.delivered[0].frame.bits == Mixed(a, b, pick)
  {
    var m := Mixed(a, b, pick);
    ps := ChunkPackets(stamp, m);
    forall i | 0 <= i < |ps| ensures Serialize(ps[i]) in ChunksDatagrams(stamp, [a, b]) {
      MixedDatagramIsSent(stamp, a, b, pick, i);
    }
    PacketCountIsCeiling(|a|);
    KeyframeGrows(stamp, m);
    states := HandleAll(stamp.frameId, ps, AllHeld(stamp, m), |ps|);
  }
}
