/**
 * Sender, channel and receiver together. The channel keeps every datagram that was ever sent and may hand any of
 * them to the receiver at any time and any number of times, or never: loss, duplication, delay and reordering.
 */
module Transport {
  import opened Words
  import opened Wire
  import opened Packetizer
  import opened Receiver
  import opened Reassembly
  import opened Ledger

  /** Which packet of which frame a datagram says it is. */
  datatype Tag = Tag(id: nat, idx: nat)

  /** `heard` collects the tags of the datagrams handled since the stream was started. */
  datatype System = System(frames: seq<Frame>, wire: set<seq<byte>>, rx: State, heard: set<Tag>)

  function TagOf(d: seq<byte>): set<Tag> {
    match Parse(d)
    case None => {}
    case Some(p) => {Tag(p.header.frameId, p.header.packetIdx)}
  }

  function StampAt(frames: seq<Frame>, id: nat, idrPeriod: uint32): Stamp
    requires idrPeriod > 0 && id < |frames| < U32_LIMIT
  {
    StampOf(id, frames[id], idrPeriod)
  }

  predicate IsPacket(frames: seq<Frame>, id: nat, i: nat) {
    id < |frames| && i < PacketCount(Size32(Body(frames[id])))
  }

  function PacketAt(frames: seq<Frame>, idrPeriod: uint32, id: nat, i: nat): Packet
    requires idrPeriod > 0 && |frames| < U32_LIMIT && IsPacket(frames, id, i)
  {
    PacketOf(StampAt(frames, id, idrPeriod), Body(frames[id]), i)
  }

  function DatagramAt(frames: seq<Frame>, idrPeriod: uint32, id: nat, i: nat): seq<byte>
    requires idrPeriod > 0 && |frames| < U32_LIMIT && IsPacket(frames, id, i)
  {
    Serialize(PacketAt(frames, idrPeriod, id, i))
  }

  /** What the encoder is relied on for, and no wrap-around of the frame counter. */
  ghost predicate ValidFrames(frames: seq<Frame>) {
    |frames| <= LAST_ID && forall k :: 0 <= k < |frames| ==> Sendable(frames[k])
  }

  ghost predicate Init(s: System) { s == System([], {}, INIT_STATE, {}) }

  /** One frame is encoded; any part of its datagrams gets onto the wire. */
  ghost predicate SenderStep(a: System, b: System, idrPeriod: uint32)
    requires idrPeriod > 0
  {
    && |b.frames| == |a.frames| + 1 && a.frames == b.frames[..|a.frames|]
    && ValidFrames(b.frames)
    && a.wire <= b.wire
    && (forall d :: d in b.wire - a.wire ==> d in FrameDatagrams(|a.frames|, b.frames[|a.frames|], idrPeriod))
    && b.rx == a.rx && b.heard == a.heard
  }

  /** Any datagram on the wire reaches the receiver. */
  ghost predicate DeliverStep(a: System, b: System, d: seq<byte>) {
    && d in a.wire
    && b.frames == a.frames && b.wire == a.wire
    && b.rx == Step(a.rx, d)
    && b.heard == if b.rx.streamStarted then a.heard + TagOf(d) else a.heard
  }

  ghost predicate Next(a: System, b: System, idrPeriod: uint32)
    requires idrPeriod > 0
  {
    SenderStep(a, b, idrPeriod) || exists d :: DeliverStep(a, b, d)
  }

  ghost predicate NextAt(run: seq<System>, idrPeriod: uint32, k: nat)
    requires idrPeriod > 0 && k + 1 < |run|
  {
    Next(run[k], run[k + 1], idrPeriod)
  }

  ghost predicate IsRun(run: seq<System>, idrPeriod: uint32)
    requires idrPeriod > 0
  {
    && |run| > 0 && Init(run[0])
    && forall k :: 0 <= k < |run| - 1 ==> NextAt(run, idrPeriod, k)
  }

  /** `fa` is filed under `id` and holds some packets of that frame, byte for byte. */
  ghost predicate Matches(frames: seq<Frame>, idrPeriod: uint32, id: uint32, fa: FrameAssembly)
    requires idrPeriod > 0 && ValidFrames(frames)
  {
    && id < |frames|
    && |fa.have| == PacketCount(|Body(frames[id])|)
    && fa == Holding(StampAt(frames, id, idrPeriod), Body(frames[id]), fa.have)
  }

  /** Which packets of frame `id` have been heard. */
  function HeardMarks(heard: set<Tag>, id: nat,
                      n: nat): seq<bool> { seq(n, j requires 0 <= j < n => Tag(id, j) in heard) }

  function HoldingHeard(stamp: Stamp, body: seq<byte>, heard: set<Tag>): FrameAssembly
    requires |body| <= MAX_CHUNK
  {
    Holding(stamp, body, HeardMarks(heard, stamp.frameId, PacketCount(|body|)))
  }

  /** ... namely those handled since the stream was started. */
  ghost predicate MatchesHeard(frames: seq<Frame>, idrPeriod: uint32, heard: set<Tag>, id: uint32, fa: FrameAssembly)
    requires idrPeriod > 0 && ValidFrames(frames)
  {
    && id < |frames|
    && fa == HoldingHeard(StampAt(frames, id, idrPeriod), Body(frames[id]), heard)
  }

  ghost predicate PendingMatches(frames: seq<Frame>, idrPeriod: uint32, heard: set<Tag>, m: map<uint32, FrameAssembly>)
    requires idrPeriod > 0 && ValidFrames(frames)
  {
    forall id :: id in m ==> MatchesHeard(frames, idrPeriod, heard, id, m[id])
  }

  ghost predicate AllMatch(frames: seq<Frame>, idrPeriod: uint32, rs: seq<Removed>)
    requires idrPeriod > 0 && ValidFrames(frames)
  {
    forall k :: 0 <= k < |rs| ==> Matches(frames, idrPeriod, rs[k].id, rs[k].frame)
  }

  ghost predicate IsSent(frames: seq<Frame>, idrPeriod: uint32, d: seq<byte>)
    requires idrPeriod > 0 && ValidFrames(frames)
  {
    exists id, i :: IsPacket(frames, id, i) && d == DatagramAt(frames, idrPeriod, id, i)
  }

  ghost predicate AllSent(frames: seq<Frame>, idrPeriod: uint32, wire: set<seq<byte>>)
    requires idrPeriod > 0 && ValidFrames(frames)
  {
    forall d :: d in wire ==> IsSent(frames, idrPeriod, d)
  }

  /** A packet that was handled belongs to a waiting frame or to one the watermark has passed. */
  ghost predicate HeardIsSettled(frames: seq<Frame>, heard: set<Tag>, rx: State) {
    forall t :: t in heard ==> IsPacket(frames, t.id, t.idx) && (t.id in rx.pending || t.id < rx.nextDeliver)
  }

  ghost predicate HistoryMatches(frames: seq<Frame>, idrPeriod: uint32, rx: State)
    requires idrPeriod > 0 && ValidFrames(frames)
  {
    AllMatch(frames, idrPeriod, rx.delivered) && AllMatch(frames, idrPeriod, rx.abandoned)
  }

  ghost predicate StartInv(idrPeriod: uint32, rx: State, heard: set<Tag>)
    requires idrPeriod > 0
  {
    if rx.streamStarted then ForceIdr(rx.start, idrPeriod) else heard == {}
  }

  /** The receiver's own bookkeeping between two datagrams. */
  ghost predicate Settled(rx: State) { Good(rx) && Drained(rx) && AllDescribed(rx) }

  ghost predicate ReceiverInv(frames: seq<Frame>, idrPeriod: uint32, rx: State, heard: set<Tag>)
    requires idrPeriod > 0 && ValidFrames(frames)
  {
    && Settled(rx)
    && PendingMatches(frames, idrPeriod, heard, rx.pending)
    && HistoryMatches(frames, idrPeriod, rx)
    && HeardIsSettled(frames, heard, rx)
    && StartInv(idrPeriod, rx, heard)
  }

  ghost predicate Inv(s: System, idrPeriod: uint32)
    requires idrPeriod > 0
  {
    && ValidFrames(s.frames)
    && AllSent(s.frames, idrPeriod, s.wire)
    && ReceiverInv(s.frames, idrPeriod, s.rx, s.heard)
  }

  // ---- datagrams --------------------------------------------------------

  lemma {:induction false} DatagramIsReadBack(frames: seq<Frame>, idrPeriod: uint32, id: nat, i: nat)
    requires idrPeriod > 0 && |frames| < U32_LIMIT && IsPacket(frames, id, i)
    ensures Parse(DatagramAt(frames, idrPeriod, id, i)) == Some(PacketAt(frames, idrPeriod, id, i))
  {
    EmittedPacketIsReadBack(StampAt(frames, id, idrPeriod), Body(frames[id]), i);
  }

  lemma {:induction false} StillSent(frames: seq<Frame>, f: Frame, idrPeriod: uint32, d: seq<byte>)
    requires idrPeriod > 0 && ValidFrames(frames) && ValidFrames(frames + [f]) && IsSent(frames, idrPeriod, d)
    ensures IsSent(frames + [f], idrPeriod, d)
  {
    var id, i :| IsPacket(frames, id, i) && d == DatagramAt(frames, idrPeriod, id, i);
    assert IsPacket(frames + [f], id, i) && d == DatagramAt(frames + [f], idrPeriod, id, i);
  }

  lemma {:induction false} NewlySent(frames: seq<Frame>, f: Frame, idrPeriod: uint32, d: seq<byte>)
    requires idrPeriod > 0 && ValidFrames(frames + [f]) && d in FrameDatagrams(|frames|, f, idrPeriod)
    ensures IsSent(frames + [f], idrPeriod, d)
  {
    var n, stamp := |frames|, StampOf(|frames|, f, idrPeriod);
    assert (frames + [f])[n] == f;
    OneChunkTravelsAsBody(stamp, f.chunks);
    var i :| 0 <= i < PacketCount(Size32(Body(f))) && d == Datagrams(stamp, Body(f))[i];
    assert IsPacket(frames + [f], n, i) && d == DatagramAt(frames + [f], idrPeriod, n, i);
  }

  lemma {:induction false} SenderKeepsSent(a: System, b: System, idrPeriod: uint32)
    requires idrPeriod > 0 && SenderStep(a, b, idrPeriod) && ValidFrames(a.frames)
    requires AllSent(a.frames, idrPeriod, a.wire)
    ensures AllSent(b.frames, idrPeriod, b.wire)
  {
    var f := b.frames[|a.frames|];
    assert b.frames == a.frames + [f];
    forall d | d in b.wire ensures IsSent(b.frames, idrPeriod, d) {
      if d in a.wire {
        StillSent(a.frames, f, idrPeriod, d);
      } else {
        NewlySent(a.frames, f, idrPeriod, d);
      }
    }
  }

  // ---- a sender step keeps the invariant --------------------------------

  lemma {:induction false} StillMatches(frames: seq<Frame>, f: Frame, idrPeriod: uint32, rs: seq<Removed>)
    requires idrPeriod > 0 && ValidFrames(frames) && ValidFrames(frames + [f]) && AllMatch(frames, idrPeriod, rs)
    ensures AllMatch(frames + [f], idrPeriod, rs)
  {
  }

  lemma {:induction false} SenderKeepsInv(a: System, b: System, idrPeriod: uint32)
    requires idrPeriod > 0 && Inv(a, idrPeriod) && SenderStep(a, b, idrPeriod)
    ensures Inv(b, idrPeriod)
  {
    var f := b.frames[|a.frames|];
    assert b.frames == a.frames + [f];
    SenderKeepsSent(a, b, idrPeriod);
    StillMatches(a.frames, f, idrPeriod, a.rx.delivered);
    StillMatches(a.frames, f, idrPeriod, a.rx.abandoned);
    assert forall id, i :: IsPacket(a.frames, id, i) ==> IsPacket(b.frames, id, i);
    forall id | id in b.rx.pending ensures MatchesHeard(b.frames, idrPeriod, b.heard, id, b.rx.pending[id]) {
      assert MatchesHeard(a.frames, idrPeriod, a.heard, id, a.rx.pending[id]);
    }
  }

  // ---- a delivery keeps the invariant -----------------------------------

  lemma {:induction false} HeardMarksGrow(heard: set<Tag>, id: nat, n: nat, i: nat)
    requires i < n
    ensures HeardMarks(heard, id, n)[i := true] == HeardMarks(heard + {Tag(id, i)}, id, n)
  {
  }

  /** The entry a packet meets, freshly opened if there is none, holds what was heard before ... */
  lemma {:induction false} EntryMet(stamp: Stamp, body: seq<byte>, i: uint16, rx: State, heard: set<Tag>)
    requires |body| <= MAX_CHUNK && i < PacketCount(|body|)
    requires if stamp.frameId in rx.pending then rx.pending[stamp.frameId] == HoldingHeard(stamp, body, heard)
             else forall j :: Tag(stamp.frameId, j) !in heard
    ensures var h, entry := PacketOf(stamp, body, i).header, Entry(rx, stamp.frameId);
            && !OpensNothing(rx, h)
            && (if entry.totalPackets == 0 then Fresh(h) else entry) == HoldingHeard(stamp, body, heard)
  {
    var n := PacketCount(|body|);
    assert PacketOf(stamp, body, i).header.totalPackets == n && PacketOf(stamp, body, i).header.frameSize == |body|;
    if stamp.frameId !in rx.pending {
      FreshHasNoMarks(stamp, body, i);
      assert HeardMarks(heard, stamp.frameId, n) == Marks(n, []);
    }
  }

  /** ... and afterwards that and this packet. */
  lemma {:induction false} AssembledEntry(stamp: Stamp, body: seq<byte>, i: uint16, rx: State, heard: set<Tag>)
    requires |body| <= MAX_CHUNK && i < PacketCount(|body|)
    requires if stamp.frameId in rx.pending then rx.pending[stamp.frameId] == HoldingHeard(stamp, body, heard)
             else forall j :: Tag(stamp.frameId, j) !in heard
    ensures Assemble(rx, PacketOf(stamp, body, i)) == HoldingHeard(stamp, body, heard + {Tag(stamp.frameId, i)})
  {
    var have := HeardMarks(heard, stamp.frameId, PacketCount(|body|));
    EntryMet(stamp, body, i, rx, heard);
    HeardMarksGrow(heard, stamp.frameId, |have|, i);
    AbsorbMarksOne(stamp, body, have, i);
  }

  lemma {:induction false} ResyncKeepsEntries(s: State, p: Packet)
    ensures Assemble(Resync(s, p.header), p) == Assemble(s, p)
    ensures OpensNothing(Resync(s, p.header), p.header) == OpensNothing(s, p.header)
    ensures Filed(Resync(s, p.header), p).pending == Filed(s, p).pending
  {
  }

  lemma {:induction false} OtherUnaffected(frames: seq<Frame>, idrPeriod: uint32, heard: set<Tag>, t: Tag, id: uint32,
                                           fa: FrameAssembly)
    requires idrPeriod > 0 && ValidFrames(frames) && MatchesHeard(frames, idrPeriod, heard, id, fa) && t.id != id
    ensures MatchesHeard(frames, idrPeriod, heard + {t}, id, fa)
  {
    var n := PacketCount(|Body(frames[id])|);
    assert HeardMarks(heard + {t}, id, n) == HeardMarks(heard, id, n);
  }

  lemma {:induction false} NotHeardYet(frames: seq<Frame>, heard: set<Tag>, rx: State, id: uint32)
    requires HeardIsSettled(frames, heard, rx) && id !in rx.pending && (heard == {} || rx.nextDeliver <= id)
    ensures forall j :: Tag(id, j) !in heard
  {
  }

  /** What the entry for a packet holds, or that there is none and nothing was heard. */
  lemma {:induction false} EntryBefore(frames: seq<Frame>, idrPeriod: uint32, rx: State, heard: set<Tag>, id: uint32)
    requires idrPeriod > 0 && ValidFrames(frames) && id < |frames|
    requires PendingMatches(frames, idrPeriod, heard, rx.pending) && HeardIsSettled(frames, heard, rx)
    requires heard == {} || rx.nextDeliver <= id
    ensures if id in rx.pending
            then rx.pending[id] == HoldingHeard(StampAt(frames, id, idrPeriod), Body(frames[id]), heard)
            else forall j :: Tag(id, j) !in heard
  {
    if id in rx.pending {
      assert MatchesHeard(frames, idrPeriod, heard, id, rx.pending[id]);
    } else {
      NotHeardYet(frames, heard, rx, id);
    }
  }

  lemma {:induction false} OthersUnaffected(frames: seq<Frame>, idrPeriod: uint32, heard: set<Tag>, t: Tag,
                                            m: map<uint32, FrameAssembly>, n: map<uint32, FrameAssembly>)
    requires idrPeriod > 0 && ValidFrames(frames) && PendingMatches(frames, idrPeriod, heard, m)
    requires forall k :: k in n && k != t.id ==> k in m && n[k] == m[k]
    requires t.id in n ==> MatchesHeard(frames, idrPeriod, heard + {t}, t.id, n[t.id])
    ensures PendingMatches(frames, idrPeriod, heard + {t}, n)
  {
    forall k | k in n ensures MatchesHeard(frames, idrPeriod, heard + {t}, k, n[k]) {
      if k != t.id {
        OtherUnaffected(frames, idrPeriod, heard, t, k, m[k]);
      }
    }
  }

  lemma {:induction false} FiledMatches(frames: seq<Frame>, idrPeriod: uint32, rx: State, heard: set<Tag>, id: uint32,
                                        i: uint16)
    requires idrPeriod > 0 && ValidFrames(frames) && IsPacket(frames, id, i)
    requires PendingMatches(frames, idrPeriod, heard, rx.pending) && HeardIsSettled(frames, heard, rx)
    requires rx.streamStarted || heard == {}
    requires Accepted(rx, PacketAt(frames, idrPeriod, id, i).header)
    ensures var p := PacketAt(frames, idrPeriod, id, i);
            !OpensNothing(rx, p.header) && PendingMatches(frames, idrPeriod, heard + {Tag(id, i)}, Filed(rx, p).pending)
  {
    var p := PacketAt(frames, idrPeriod, id, i);
    var stamp, body := StampAt(frames, id, idrPeriod), Body(frames[id]);
    EntryBefore(frames, idrPeriod, rx, heard, id);
    EntryMet(stamp, body, i, rx, heard);
    AssembledEntry(stamp, body, i, rx, heard);
    OthersUnaffected(frames, idrPeriod, heard, Tag(id, i), rx.pending, Filed(rx, p).pending);
  }

  lemma {:induction false} RemovedMatch(frames: seq<Frame>, idrPeriod: uint32, heard: set<Tag>,
                     m: map<uint32, FrameAssembly>, before: seq<Removed>, now: seq<Removed>)
    requires idrPeriod > 0 && ValidFrames(frames) && PendingMatches(frames, idrPeriod, heard, m)
    requires CameFrom(m, before, now) && AllMatch(frames, idrPeriod, before)
    ensures AllMatch(frames, idrPeriod, now)
  {
    forall k | 0 <= k < |now| ensures Matches(frames, idrPeriod, now[k].id, now[k].frame) {
      if k < |before| {
        assert now[k] == before[k];
      } else {
        assert MatchesHeard(frames, idrPeriod, heard, now[k].id, m[now[k].id]);
      }
    }
  }

  lemma {:induction false} HandleSettles(rx: State, p: Packet)
    requires Settled(rx) && p.header.frameId != LAST_ID && Accepted(rx, p.header) && !OpensNothing(rx, p.header)
    ensures Settled(Handle(rx, p)) && Handle(rx, p) == Drain(Filed(Resync(rx, p.header), p))
  {
    ResyncKeepsEntries(rx, p);
    HandleKeepsLedger(rx, p);
    DrainedUnlessEmpty(rx, p);
  }

  lemma {:induction false} HandleMoves(rx: State, p: Packet)
    requires Good(rx) && p.header.frameId != LAST_ID && Accepted(rx, p.header) && !OpensNothing(rx, p.header)
    ensures var t := Filed(rx, p);
            && (forall k :: k in Handle(rx, p).pending ==> k in t.pending && Handle(rx, p).pending[k] == t.pending[k])
            && CameFrom(t.pending, rx.delivered, Handle(rx, p).delivered)
            && CameFrom(t.pending, rx.abandoned, Handle(rx, p).abandoned)
            && (forall k :: k in t.pending ==> k in Handle(rx, p).pending || k < Handle(rx, p).nextDeliver)
            && rx.nextDeliver <= Handle(rx, p).nextDeliver
  {
    var t := Filed(Resync(rx, p.header), p);
    ResyncKeepsEntries(rx, p);
    FilingBalances(rx, p);
    HandleKeepsLedger(rx, p);
    DrainBalances(t);
    DrainKeepsGood(t);
    RemovedOrPending(t, Drain(t));
  }

  lemma {:induction false} FiledKeys(rx: State, p: Packet)
    ensures Filed(rx, p).pending.Keys == rx.pending.Keys + {p.header.frameId}
  {
  }

  /** What leaves `pending` is passed by the watermark. */
  lemma {:induction false} RemovedOrPending(t: State, u: State)
    requires Good(t) && Good(u) && u == Drain(t)
    ensures forall id :: id in t.pending ==> id in u.pending || id < u.nextDeliver
  {
    DrainAbandonsExcess(t);
    LeftIds(u.delivered, u.nextDeliver);
    LeftIds(u.abandoned, u.nextDeliver);
  }

  lemma {:induction false} HandleStarts(s: State, p: Packet)
    requires Accepted(s, p.header)
    ensures Handle(s, p).streamStarted
    ensures Handle(s, p).start == if s.streamStarted then s.start else p.header.frameId
  {
    DrainAbandonsExcess(Filed(Resync(s, p.header), p));
  }

  lemma {:induction false} HistoryKept(frames: seq<Frame>, idrPeriod: uint32, heard: set<Tag>, m: map<uint32,
                                       FrameAssembly>, s: State, u: State)
    requires idrPeriod > 0 && ValidFrames(frames) && PendingMatches(frames, idrPeriod, heard, m)
    requires HistoryMatches(frames, idrPeriod, s)
    requires CameFrom(m, s.delivered, u.delivered) && CameFrom(m, s.abandoned, u.abandoned)
    ensures HistoryMatches(frames, idrPeriod, u)
  {
    RemovedMatch(frames, idrPeriod, heard, m, s.delivered, u.delivered);
    RemovedMatch(frames, idrPeriod, heard, m, s.abandoned, u.abandoned);
  }

  lemma {:induction false} HeardKept(frames: seq<Frame>, heard: set<Tag>, t: Tag, m: map<uint32, FrameAssembly>,
                                     s: State, u: State)
    requires HeardIsSettled(frames, heard, s) && IsPacket(frames, t.id, t.idx)
    requires s.pending.Keys + {t.id} == m.Keys && s.nextDeliver <= u.nextDeliver
    requires forall k :: k in m ==> k in u.pending || k < u.nextDeliver
    ensures HeardIsSettled(frames, heard + {t}, u)
  {
  }

  /** How any state `u` that moved out of the entries `m` keeps the invariant. */
  lemma {:induction false} InvCarriesOver(frames: seq<Frame>, idrPeriod: uint32, s: State, heard: set<Tag>, t: Tag,
                       m: map<uint32, FrameAssembly>, u: State)
    requires idrPeriod > 0 && ValidFrames(frames) && ReceiverInv(frames, idrPeriod, s, heard)
    requires IsPacket(frames, t.id, t.idx) && PendingMatches(frames, idrPeriod, heard + {t}, m)
    requires Settled(u) && StartInv(idrPeriod, u, heard + {t})
    requires forall k :: k in u.pending ==> k in m && u.pending[k] == m[k]
    requires CameFrom(m, s.delivered, u.delivered) && CameFrom(m, s.abandoned, u.abandoned)
    requires s.pending.Keys + {t.id} == m.Keys && s.nextDeliver <= u.nextDeliver
    requires forall k :: k in m ==> k in u.pending || k < u.nextDeliver
    ensures ReceiverInv(frames, idrPeriod, u, heard + {t})
  {
    HistoryKept(frames, idrPeriod, heard + {t}, m, s, u);
    PendingShrinks(frames, idrPeriod, heard + {t}, m, u.pending);
    HeardKept(frames, heard, t, m, s, u);
  }

  lemma {:induction false} AcceptedKeepsInv(frames: seq<Frame>, idrPeriod: uint32, rx: State, heard: set<Tag>,
                                            id: uint32, i: uint16)
    requires idrPeriod > 0 && ValidFrames(frames) && ReceiverInv(frames, idrPeriod, rx, heard)
    requires IsPacket(frames, id, i) && Accepted(rx, PacketAt(frames, idrPeriod, id, i).header)
    ensures ReceiverInv(frames, idrPeriod, Handle(rx, PacketAt(frames, idrPeriod, id, i)), heard + {Tag(id, i)})
  {
    var p := PacketAt(frames, idrPeriod, id, i);
    FiledMatches(frames, idrPeriod, rx, heard, id, i);
    HandleSettles(rx, p);
    HandleMoves(rx, p);
    FiledKeys(rx, p);
    StartsAtKeyframe(frames, idrPeriod, rx, heard, id, i);
    InvCarriesOver(frames, idrPeriod, rx, heard, Tag(id, i), Filed(rx, p).pending, Handle(rx, p));
  }

  lemma {:induction false} StartsAtKeyframe(frames: seq<Frame>, idrPeriod: uint32, rx: State, heard: set<Tag>,
                                            id: uint32, i: uint16)
    requires idrPeriod > 0 && ValidFrames(frames) && StartInv(idrPeriod, rx, heard)
    requires IsPacket(frames, id, i) && Accepted(rx, PacketAt(frames, idrPeriod, id, i).header)
    ensures StartInv(idrPeriod, Handle(rx, PacketAt(frames, idrPeriod, id, i)), heard + {Tag(id, i)})
  {
    HandleStarts(rx, PacketAt(frames, idrPeriod, id, i));
  }

  lemma {:induction false} IgnoredKeepsInv(frames: seq<Frame>, idrPeriod: uint32, rx: State, heard: set<Tag>,
                                           id: uint32, i: uint16)
    requires idrPeriod > 0 && ValidFrames(frames) && ReceiverInv(frames, idrPeriod, rx, heard)
    requires IsPacket(frames, id, i) && rx.streamStarted && id < rx.nextDeliver
    ensures ReceiverInv(frames, idrPeriod, rx, heard + {Tag(id, i)})
  {
    forall k | k in rx.pending ensures MatchesHeard(frames, idrPeriod, heard + {Tag(id, i)}, k, rx.pending[k]) {
      OtherUnaffected(frames, idrPeriod, heard, Tag(id, i), k, rx.pending[k]);
    }
  }

  lemma {:induction false} PendingShrinks(frames: seq<Frame>, idrPeriod: uint32, heard: set<Tag>,
                       m: map<uint32, FrameAssembly>, n: map<uint32, FrameAssembly>)
    requires idrPeriod > 0 && ValidFrames(frames) && PendingMatches(frames, idrPeriod, heard, m)
    requires forall k :: k in n ==> k in m && n[k] == m[k]
    ensures PendingMatches(frames, idrPeriod, heard, n)
  {
  }

  lemma {:induction false} FindPacket(frames: seq<Frame>, idrPeriod: uint32, d: seq<byte>) returns (id: nat, i: nat)
    requires idrPeriod > 0 && ValidFrames(frames) && IsSent(frames, idrPeriod, d)
    ensures IsPacket(frames, id, i) && Parse(d) == Some(PacketAt(frames, idrPeriod, id, i))
  {
    id, i :| IsPacket(frames, id, i) && d == DatagramAt(frames, idrPeriod, id, i);
    DatagramIsReadBack(frames, idrPeriod, id, i);
  }

  lemma {:induction false} DeliverKeepsInv(a: System, b: System, idrPeriod: uint32, d: seq<byte>)
    requires idrPeriod > 0 && Inv(a, idrPeriod) && DeliverStep(a, b, d)
    ensures Inv(b, idrPeriod)
  {
    var id, i := FindPacket(a.frames, idrPeriod, d);
    var p := PacketAt(a.frames, idrPeriod, id, i);
    assert TagOf(d) == {Tag(id, i)} && b.rx == Handle(a.rx, p);
    if Accepted(a.rx, p.header) {
      HandleStarts(a.rx, p);
      AcceptedKeepsInv(a.frames, idrPeriod, a.rx, a.heard, id, i);
    } else if a.rx.streamStarted {
      IgnoredKeepsInv(a.frames, idrPeriod, a.rx, a.heard, id, i);
    }
  }

  // ---- every run ---------------------------------------------------------

  lemma {:induction false} InitHoldsInv(s: System, idrPeriod: uint32)
    requires idrPeriod > 0 && Init(s)
    ensures Inv(s, idrPeriod)
  {
  }

  lemma {:induction false} RunKeepsInv(run: seq<System>, idrPeriod: uint32, n: nat)
    requires idrPeriod > 0 && IsRun(run, idrPeriod) && n < |run|
    ensures Inv(run[n], idrPeriod)
  {
    if n == 0 {
      InitHoldsInv(run[0], idrPeriod);
    } else {
      RunKeepsInv(run, idrPeriod, n - 1);
      assert NextAt(run, idrPeriod, n - 1);
      if SenderStep(run[n - 1], run[n], idrPeriod) {
        SenderKeepsInv(run[n - 1], run[n], idrPeriod);
      } else {
        var d :| DeliverStep(run[n - 1], run[n], d);
        DeliverKeepsInv(run[n - 1], run[n], idrPeriod, d);
      }
    }
  }

  /** The frame given to the decoder is the sender's frame of that id, byte for byte. */
  ghost predicate SameAsSent(frames: seq<Frame>, idrPeriod: uint32, r: Removed)
    requires idrPeriod > 0
  {
    && r.id < |frames|
    && r.frame.bits == Body(frames[r.id])
    && r.frame.frameSize == |Body(frames[r.id])|
    && r.frame.width == frames[r.id].width && r.frame.height == frames[r.id].height
    && HasKeyframeFlag(r.frame.flags) == ForceIdr(r.id, idrPeriod)
  }

  lemma {:induction false} CompleteIsSent(frames: seq<Frame>, idrPeriod: uint32, r: Removed)
    requires idrPeriod > 0 && ValidFrames(frames) && Matches(frames, idrPeriod, r.id, r.frame) && r.frame.Complete()
    ensures SameAsSent(frames, idrPeriod, r)
  {
    CompleteIffAllHeld(StampAt(frames, r.id, idrPeriod), Body(frames[r.id]), r.frame.have);
  }

  /**
   * End-to-end safety. Whatever the channel loses, duplicates, delays or reorders, the decoder is given a
   * subsequence of the sender's frames in strictly increasing id order, each one unaltered.
   */
  lemma {:induction false} DecoderSeesSentFrames(run: seq<System>, idrPeriod: uint32, n: nat)
    requires idrPeriod > 0 && IsRun(run, idrPeriod) && n < |run|
    ensures var s := run[n];
            && (forall k :: 0 <= k < |s.rx.delivered| ==> SameAsSent(s.frames, idrPeriod, s.rx.delivered[k]))
            && (forall k :: 0 <= k < |s.rx.delivered| ==>
                  var r := s.rx.delivered[k]; r.frame.flags % 2 == 1 <==> r.id > 0 && r.id % idrPeriod == 0)
            && (forall j, k :: 0 <= j < k < |s.rx.delivered| ==> s.rx.delivered[j].id < s.rx.delivered[k].id)
  {
    var s := run[n];
    RunKeepsInv(run, idrPeriod, n);
    forall k | 0 <= k < |s.rx.delivered| ensures SameAsSent(s.frames, idrPeriod, s.rx.delivered[k]) {
      CompleteIsSent(s.frames, idrPeriod, s.rx.delivered[k]);
    }
  }

  /**
   * Conservation, bounded buffering and resynchronisation in every reachable state: each id ever filed is in exactly
   * one place, at most BACKLOG frames wait, and the stream starts at a forced keyframe, which leaves first.
   */
  lemma {:induction false} EveryStateIsSettled(run: seq<System>, idrPeriod: uint32, n: nat)
    requires idrPeriod > 0 && IsRun(run, idrPeriod) && n < |run|
    ensures var rx := run[n].rx;
            && Partition(rx.filed, Ids(rx.delivered), Ids(rx.abandoned), rx.pending.Keys)
            && Waiting(rx.pending, rx.nextDeliver)
            && Left(rx.delivered, rx.nextDeliver) && Left(rx.abandoned, rx.nextDeliver)
            && |rx.pending| <= 12
            && (rx.streamStarted ==> rx.start > 0 && rx.start % idrPeriod == 0)
            && (rx.delivered != [] ==> rx.delivered[0].id == rx.start || rx.start in Ids(rx.abandoned))
            && (rx.delivered + rx.abandoned != [] ==> rx.start in Ids(rx.delivered) + Ids(rx.abandoned))
  {
    RunKeepsInv(run, idrPeriod, n);
    StartLeavesFirst(run[n].rx);
  }

  /** Every entry is exactly what the packets handled so far determine, whatever their order and multiplicity. */
  lemma {:induction false} EntriesAreWhatWasHeard(run: seq<System>, idrPeriod: uint32, n: nat, id: uint32)
    requires idrPeriod > 0 && IsRun(run, idrPeriod) && n < |run| && id in run[n].rx.pending
    ensures var s := run[n];
            && id < |s.frames| && Sendable(s.frames[id])
            && s.rx.pending[id] == HoldingHeard(StampOf(id, s.frames[id], idrPeriod), Body(s.frames[id]), s.heard)
  {
    RunKeepsInv(run, idrPeriod, n);
    assert MatchesHeard(run[n].frames, idrPeriod, run[n].heard, id, run[n].rx.pending[id]);
  }

  lemma {:induction false} NextIsLater(a: System, b: System, idrPeriod: uint32)
    requires idrPeriod > 0 && Inv(a, idrPeriod) && Next(a, b, idrPeriod)
    ensures Later(a.rx, b.rx) && a.frames <= b.frames
  {
    if !SenderStep(a, b, idrPeriod) {
      var d :| DeliverStep(a, b, d);
      var id, i := FindPacket(a.frames, idrPeriod, d);
      HandleKeepsLedger(a.rx, PacketAt(a.frames, idrPeriod, id, i));
    }
  }

  lemma {:induction false} PrefixTransitive<T>(a: seq<T>, b: seq<T>, c: seq<T>)
    requires a <= b && b <= c
    ensures a <= c
  {
  }

  lemma {:induction false} RunStepIsLater(run: seq<System>, idrPeriod: uint32, k: nat)
    requires idrPeriod > 0 && IsRun(run, idrPeriod) && k + 1 < |run|
    ensures Later(run[k].rx, run[k + 1].rx) && run[k].frames <= run[k + 1].frames
  {
    RunKeepsInv(run, idrPeriod, k);
    assert NextAt(run, idrPeriod, k);
    NextIsLater(run[k], run[k + 1], idrPeriod);
  }

  /** The watermark never falls; what was delivered, given up or filed stays so. */
  lemma {:induction false} RunOnlyGrows(run: seq<System>, idrPeriod: uint32, m: nat, n: nat)
    requires idrPeriod > 0 && IsRun(run, idrPeriod) && m <= n < |run|
    ensures Later(run[m].rx, run[n].rx) && run[m].frames <= run[n].frames
    decreases n
  {
    if m < n {
      RunOnlyGrows(run, idrPeriod, m, n - 1);
      RunStepIsLater(run, idrPeriod, n - 1);
      LaterTransitive(run[m].rx, run[n - 1].rx, run[n].rx);
      PrefixTransitive(run[m].frames, run[n - 1].frames, run[n].frames);
    }
  }

  lemma {:induction false} IncompleteLacksAPacket(frames: seq<Frame>, idrPeriod: uint32, heard: set<Tag>, r: Removed)
    requires idrPeriod > 0 && ValidFrames(frames)
    requires MatchesHeard(frames, idrPeriod, heard, r.id, r.frame) && !r.frame.Complete()
    ensures r.id < |frames| && exists i :: IsPacket(frames, r.id, i) && Tag(r.id, i) !in heard
  {
    var have := HeardMarks(heard, r.id, PacketCount(|Body(frames[r.id])|));
    CompleteIffAllHeld(StampAt(frames, r.id, idrPeriod), Body(frames[r.id]), have);
    var j :| 0 <= j < |have| && !have[j];
    assert IsPacket(frames, r.id, j);
  }

  lemma {:induction false} NewlyAbandoned(frames: seq<Frame>, idrPeriod: uint32, rx: State, heard: set<Tag>,
                                          id: uint32, i: uint16, k: nat)
    requires idrPeriod > 0 && ValidFrames(frames) && ReceiverInv(frames, idrPeriod, rx, heard)
    requires IsPacket(frames, id, i)
    requires Accepted(rx, PacketAt(frames, idrPeriod, id, i).header)
    requires |rx.abandoned| <= k < |Handle(rx, PacketAt(frames, idrPeriod, id, i)).abandoned|
    ensures var r := Handle(rx, PacketAt(frames, idrPeriod, id, i)).abandoned[k];
            MatchesHeard(frames, idrPeriod, heard + {Tag(id, i)}, r.id, r.frame) && !r.frame.Complete()
  {
    var p := PacketAt(frames, idrPeriod, id, i);
    FiledMatches(frames, idrPeriod, rx, heard, id, i);
    HandleMoves(rx, p);
    HandleKeepsLedger(rx, p);
  }

  /**
   * When a frame is given up, some packet of it has not been heard: a frame with all its packets is never abandoned.
   */
  lemma {:induction false} AbandonedLacksAPacket(a: System, b: System, idrPeriod: uint32, k: nat)
    requires idrPeriod > 0 && Inv(a, idrPeriod) && Next(a, b, idrPeriod)
    requires |a.rx.abandoned| <= k < |b.rx.abandoned|
    ensures b.rx.abandoned[k].id < |b.frames|
    ensures exists i :: IsPacket(b.frames, b.rx.abandoned[k].id, i) && Tag(b.rx.abandoned[k].id, i) !in b.heard
  {
    var d :| DeliverStep(a, b, d);
    var id, i := FindPacket(a.frames, idrPeriod, d);
    NewlyAbandoned(a.frames, idrPeriod, a.rx, a.heard, id, i, k);
    HandleStarts(a.rx, PacketAt(a.frames, idrPeriod, id, i));
    IncompleteLacksAPacket(b.frames, idrPeriod, b.heard, b.rx.abandoned[k]);
  }

  /** The sender loop's effect is a sender step, whatever sends fail. */
  lemma {:induction false} EncodedFrameIsASenderStep(a: System, f: Frame, accepts: seq<nat>, idrPeriod: uint32)
    requires idrPeriod > 0 && ValidFrames(a.frames + [f]) && |accepts| == |f.chunks|
    ensures var stamp := StampOf(|a.frames|, f, idrPeriod);
            SenderStep(a, a.(frames := a.frames + [f],
                             wire := a.wire + set d | d in SentDatagrams(stamp, f.chunks, accepts)), idrPeriod)
  {
    SentAreAmongAll(StampOf(|a.frames|, f, idrPeriod), f.chunks, accepts);
  }
}
