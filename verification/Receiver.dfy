/** The reassembly loop of streamreceiver: its state, one step as a function, and the loop itself. */
module Receiver {
  import opened Words
  import opened Wire

  const BACKLOG := 12

  datatype AssemblyRecord = FrameAssembly(
    frameSize: uint32,
    totalPackets: uint16,
    recvCount: uint16,
    width: uint32,
    height: uint32,
    flags: uint32,
    bits: seq<byte>,
    have: seq<bool>)
  {
    predicate Complete() { recvCount == totalPackets }
  }

  /** `bits` and `have` are only ever resized together with the two counts. */
  type FrameAssembly = a: AssemblyRecord | |a.bits| == a.frameSize && |a.have| == a.totalPackets
    witness FrameAssembly(0, 0, 0, 0, 0, 0, [], [])

  const NO_FRAME: FrameAssembly := FrameAssembly(0, 0, 0, 0, 0, 0, [], [])

  // `bits.resize`, `have.assign`: all zero.
  function Fresh(h: PacketHeader): FrameAssembly {
    FrameAssembly(h.frameSize, h.totalPackets, 0, h.width, h.height, h.flags,
                  seq(h.frameSize, _ => 0), seq(h.totalPackets, _ => false))
  }

  // memcpy(bits.data() + off, data, |data|)
  function Overwrite(bits: seq<byte>, off: nat, data: seq<byte>): (r: seq<byte>)
    requires off + |data| <= |bits|
    ensures |r| == |bits|
    ensures forall b :: 0 <= b < |r| ==> r[b] == if off <= b < off + |data| then data[b - off] else bits[b]
  {
    bits[..off] + data + bits[off + |data|..]
  }

  /** One packet laid into an open assembly; duplicates and packets that do not fit change nothing. */
  function Absorb(fa: FrameAssembly, p: Packet): FrameAssembly {
    var idx := p.header.packetIdx;
    var off := idx * MAX_PAYLOAD;
    if idx < fa.totalPackets && !fa.have[idx] && off + |p.payload| <= |fa.bits| then
      fa.(bits := Overwrite(fa.bits, off, p.payload), have := fa.have[idx := true],
          recvCount := (fa.recvCount + 1) % U16_LIMIT)
    else fa
  }

  /** A frame that left `pending`, with the id it was filed under. */
  datatype Removed = Removed(id: uint32, frame: FrameAssembly)

  /**
   * The receiver's variables and what it has done so far: the frames given to the decoder, the frames
   * given up, every id ever filed, and the id the stream was started at.
   */
  datatype State = State(
    pending: map<uint32, FrameAssembly>,
    nextDeliver: uint32,
    streamStarted: bool,
    delivered: seq<Removed>,
    abandoned: seq<Removed>,
    filed: set<uint32>,
    start: uint32)

  const INIT_STATE := State(map[], 0, false, [], [], {}, 0)

  ghost predicate IsHead(m: map<uint32, FrameAssembly>, k: uint32) {
    k in m && forall j :: j in m ==> k <= j
  }

  lemma {:induction false} LeastKey(keys: set<uint32>) returns (m: uint32)
    requires keys != {}
    ensures m in keys && forall j :: j in keys ==> m <= j
    decreases keys
  {
    m :| m in keys;
    var rest := keys - {m};
    if rest == {} {
      assert keys == {m};
    } else {
      var l := LeastKey(rest);
      assert forall j :: j in keys ==> j == m || j in rest;
      if l < m { m := l; }
    }
  }

  lemma {:induction false} HeadExists(m: map<uint32, FrameAssembly>)
    requires m != map[]
    ensures exists k :: IsHead(m, k)
  {
    var k := LeastKey(m.Keys);
    assert IsHead(m, k);
  }

  // `pending.begin()->first`: std::map keeps its keys sorted.
  ghost function Head(m: map<uint32, FrameAssembly>): (k: uint32)
    requires m != map[]
    ensures IsHead(m, k)
  {
    HeadExists(m);
    var k :| IsHead(m, k);
    k
  }

  // `it->first + 1` in uint32_t
  function Succ(id: uint32): (next: uint32)
    ensures next == if id == U32_LIMIT - 1 then 0 else id + 1
  {
    (id + 1) % U32_LIMIT
  }

  ghost function Deliver(s: State): State
    requires s.pending != map[]
  {
    var k := Head(s.pending);
    s.(pending := s.pending - {k}, nextDeliver := Succ(k), delivered := s.delivered + [Removed(k, s.pending[k])])
  }

  ghost function Abandon(s: State): State
    requires s.pending != map[]
  {
    var k := Head(s.pending);
    s.(pending := s.pending - {k}, nextDeliver := Succ(k), abandoned := s.abandoned + [Removed(k, s.pending[k])])
  }

  /** The drain loop. */
  ghost function Drain(s: State): State
    decreases s.pending.Keys
  {
    if s.pending == map[] then s
    else
      var k := Head(s.pending);
      if s.pending[k].Complete() then Drain(Deliver(s))
      else if |s.pending| > BACKLOG then Drain(Abandon(s))
      else s.(nextDeliver := k)
  }

  /** The keyframe resynchronisation. */
  function Resync(s: State, h: PacketHeader): State {
    if !s.streamStarted && HasKeyframeFlag(h.flags)
    then s.(nextDeliver := h.frameId, streamStarted := true, start := h.frameId)
    else s
  }

  function Entry(s: State, id: uint32): FrameAssembly {
    if id in s.pending then s.pending[id] else NO_FRAME
  }

  /** A packet that is filed but describes no frame: it leaves its entry behind and skips the drain loop. */
  predicate OpensNothing(s: State, h: PacketHeader) {
    Entry(s, h.frameId).totalPackets == 0 && (h.totalPackets == 0 || h.frameSize == 0)
  }

  /** The map entry is created before the packet's counts are looked at. */
  function File(s: State, id: uint32): State {
    s.(pending := s.pending[id := Entry(s, id)], filed := s.filed + {id})
  }

  function Assemble(s: State, p: Packet): FrameAssembly {
    var entry := Entry(s, p.header.frameId);
    Absorb(if entry.totalPackets == 0 then Fresh(p.header) else entry, p)
  }

  /** The packet passes the resynchronisation and stale tests. */
  predicate Accepted(s: State, h: PacketHeader) {
    && (s.streamStarted || HasKeyframeFlag(h.flags))
    && h.frameId >= Resync(s, h).nextDeliver
  }

  /** The state in which the drain loop is entered. */
  function Filed(s: State, p: Packet): State {
    var s2 := File(s, p.header.frameId);
    s2.(pending := s2.pending[p.header.frameId := Assemble(s, p)])
  }

  ghost function Handle(s: State, p: Packet): State {
    var h := p.header;
    if !Accepted(s, h) then s
    else if OpensNothing(Resync(s, h), h) then File(Resync(s, h), h.frameId)
    else Drain(Filed(Resync(s, h), p))
  }

  /** The effect of one datagram taken from the socket. */
  ghost function Step(s: State, data: seq<byte>): State {
    match Parse(data)
    case None => s
    case Some(p) => Handle(s, p)
  }

  class StreamReceiver {
    var pending: map<uint32, FrameAssembly>
    var nextDeliver: uint32
    var streamStarted: bool
    // What the decoder was given, in order.
    var delivered: seq<Removed>
    ghost var abandoned: seq<Removed>
    ghost var filed: set<uint32>
    ghost var start: uint32

    ghost function Abs(): State
      reads this
    {
      State(pending, nextDeliver, streamStarted, delivered, abandoned, filed, start)
    }

    constructor ()
      ensures Abs() == INIT_STATE
    {
      pending, nextDeliver, streamStarted := map[], 0, false;
      delivered, abandoned, filed, start := [], [], {}, 0;
    }

    method Begin() returns (k: uint32)
      requires pending != map[]
      ensures IsHead(pending, k) && k == Head(pending)
    {
      HeadExists(pending);
      k :| k in pending && forall j :: j in pending ==> k <= j by { assert exists k :: IsHead(pending, k); }
    }

    /** `deliverFrame(it->second)`, then past it. */
    method DeliverHead(k: uint32)
      requires pending != map[] && k == Head(pending)
      modifies this
      ensures Abs() == Deliver(old(Abs()))
    {
      delivered := delivered + [Removed(k, pending[k])];
      nextDeliver := (k + 1) % U32_LIMIT;
      pending := pending - {k};
    }

    /** Incomplete and piling up. */
    method GiveUpHead(k: uint32)
      requires pending != map[] && k == Head(pending)
      modifies this
      ensures Abs() == Abandon(old(Abs()))
    {
      abandoned := abandoned + [Removed(k, pending[k])];
      nextDeliver := (k + 1) % U32_LIMIT;
      pending := pending - {k};
    }

    /** Delivers what is complete at the front; gives up the front when more than BACKLOG frames pile up behind it. */
    method DrainPending()
      modifies this
      ensures Abs() == Drain(old(Abs()))
    {
      while pending != map[]
        invariant Drain(Abs()) == Drain(old(Abs()))
        decreases pending.Keys
      {
        var k: uint32 := Begin();
        ghost var before := Abs();
        if k != nextDeliver {
          nextDeliver := k;
        }
        assert Deliver(Abs()) == Deliver(before) && Abandon(Abs()) == Abandon(before);
        if pending[k].recvCount == pending[k].totalPackets {
          DeliverHead(k);
        } else if |pending| > BACKLOG {
          GiveUpHead(k);
        } else {
          return;
        }
      }
    }

    /** The copy of one packet into the entry it belongs to. */
    method LayIn(h: PacketHeader, payload: seq<byte>)
      requires h.frameId in pending
      modifies this`pending
      ensures pending == old(pending)[h.frameId := Absorb(old(pending)[h.frameId], Packet(h, payload))]
    {
      var fa := pending[h.frameId];
      if h.packetIdx < fa.totalPackets && !fa.have[h.packetIdx] {
        var off := h.packetIdx * MAX_PAYLOAD;
        if off + |payload| <= |fa.bits| {
          pending := pending[h.frameId :=
            fa.(bits := Overwrite(fa.bits, off, payload),
                have := fa.have[h.packetIdx := true],
                recvCount := (fa.recvCount + 1) % U16_LIMIT)];
        }
      }
    }

    /** Filing, opening and filling the entry of an accepted packet, then draining. */
    method FilePacket(h: PacketHeader, payload: seq<byte>)
      modifies this
      ensures var s, p := old(Abs()), Packet(h, payload);
              Abs() == if OpensNothing(s, h) then File(s, h.frameId) else Drain(Filed(s, p))
    {
      ghost var s := Abs();
      if h.frameId !in pending {
        pending := pending[h.frameId := NO_FRAME];
      }
      filed := filed + {h.frameId};
      assert Abs() == File(s, h.frameId);
      if pending[h.frameId].totalPackets == 0 {
        if h.totalPackets == 0 || h.frameSize == 0 { return; }
        pending := pending[h.frameId := Fresh(h)];
      }
      LayIn(h, payload);
      assert Abs() == Filed(s, Packet(h, payload));
      DrainPending();
    }

    /** The loop body behind the header checks. */
    method OnPacket(h: PacketHeader, payload: seq<byte>)
      modifies this
      ensures Abs() == Handle(old(Abs()), Packet(h, payload))
    {
      if !streamStarted {
        if !HasKeyframeFlag(h.flags) { return; }
        nextDeliver := h.frameId;
        streamStarted := true;
        start := h.frameId;
      }
      assert Abs() == Resync(old(Abs()), h);
      if h.frameId < nextDeliver { return; }
      FilePacket(h, payload);
    }

    /** One turn of the receive loop. */
    method OnDatagram(data: seq<byte>)
      modifies this
      ensures Abs() == Step(old(Abs()), data)
    {
      if |data| > MAX_PACKET_BYTES { return; }
      if |data| < HEADER_BYTES { return; }
      var h := ReadHeader(data);
      if h.magic != MAGIC { return; }
      OnPacket(h, data[HEADER_BYTES..]);
    }
  }
}
