/** What an entry of `pending` holds after any packets of its frame, in any order and any number of times. */
module Reassembly {
  import opened Words
  import opened Bits
  import opened Wire
  import opened Packetizer
  import opened Receiver

  function Flags(stamp: Stamp): uint32 { if stamp.keyframe then FLAG_KEYFRAME else 0 }

  function HeldBits(body: seq<byte>, have: seq<bool>): (bits: seq<byte>)
    requires |body| <= MAX_CHUNK && |have| == PacketCount(|body|)
    ensures |bits| == |body|
  {
    PacketCountIsCeiling(|body|);
    seq(|body|, b requires 0 <= b < |body| => if have[b / MAX_PAYLOAD] then body[b] else 0)
  }

  /** The entry that holds exactly the packets marked in `have`: their bytes in place, zeros elsewhere. */
  function Holding(stamp: Stamp, body: seq<byte>, have: seq<bool>): FrameAssembly
    requires |body| <= MAX_CHUNK && |have| == PacketCount(|body|)
  {
    FrameAssembly(|body|, |have|, Ones(have), stamp.width, stamp.height, Flags(stamp), HeldBits(body, have), have)
  }

  lemma {:induction false} FreshHoldsNothing(stamp: Stamp, body: seq<byte>, i: uint16)
    requires |body| <= MAX_CHUNK && i < PacketCount(|body|)
    ensures Fresh(PacketOf(stamp, body, i).header) == Holding(stamp, body, seq(PacketCount(|body|), _ => false))
  {
    NoOnes(PacketCount(|body|));
    PacketCountIsCeiling(|body|);
  }

  lemma {:induction false} PayloadFillsItsSlice(body: seq<byte>, have: seq<bool>, i: uint16)
    requires |body| <= MAX_CHUNK && |have| == PacketCount(|body|) && i < |have|
    requires i * MAX_PAYLOAD + |PayloadOf(body, i)| <= |body|
    ensures Overwrite(HeldBits(body, have), i * MAX_PAYLOAD, PayloadOf(body, i)) == HeldBits(body, have[i := true])
  {
    var got := Overwrite(HeldBits(body, have), i * MAX_PAYLOAD, PayloadOf(body, i));
    var want := HeldBits(body, have[i := true]);
    forall b | 0 <= b < |body| ensures got[b] == want[b] {
      ByteTravelsOnce(body, b, i);
    }
  }

  lemma {:induction false} AbsorbMarksOne(stamp: Stamp, body: seq<byte>, have: seq<bool>, i: uint16)
    requires |body| <= MAX_CHUNK && |have| == PacketCount(|body|) && i < |have|
    ensures Absorb(Holding(stamp, body, have), PacketOf(stamp, body, i)) == Holding(stamp, body, have[i := true])
  {
    if have[i] {
      assert have[i := true] == have;
    } else {
      AbsorbsNew(stamp, body, have, i);
    }
  }

  lemma {:induction false} AbsorbsNew(stamp: Stamp, body: seq<byte>, have: seq<bool>, i: uint16)
    requires |body| <= MAX_CHUNK && |have| == PacketCount(|body|) && i < |have| && !have[i]
    ensures Absorb(Holding(stamp, body, have), PacketOf(stamp, body, i)) == Holding(stamp, body, have[i := true])
  {
    OnesCountUp(have, i);
    PayloadFits(body, i);
    PayloadFillsItsSlice(body, have, i);
    assert Ones(have) + 1 < U16_LIMIT;
  }

  lemma {:induction false} PayloadFits(body: seq<byte>, i: uint16)
    requires |body| <= MAX_CHUNK && i < PacketCount(|body|)
    ensures i * MAX_PAYLOAD + |PayloadOf(body, i)| <= |body|
  {
    PacketsStartInside(|body|, i);
  }

  /** `recvCount` reaches `totalPackets` exactly when every packet is there, and then the bytes are the sender's. */
  lemma {:induction false} CompleteIffAllHeld(stamp: Stamp, body: seq<byte>, have: seq<bool>)
    requires |body| <= MAX_CHUNK && |have| == PacketCount(|body|)
    ensures Holding(stamp, body, have).Complete() <==> forall i :: 0 <= i < |have| ==> have[i]
    ensures Holding(stamp, body, have).Complete() ==> Holding(stamp, body, have).bits == body
  {
    AllOnes(have);
    PacketCountIsCeiling(|body|);
  }

  function AbsorbAll(fa: FrameAssembly, ps: seq<Packet>): FrameAssembly {
    if ps == [] then fa else Absorb(AbsorbAll(fa, ps[..|ps| - 1]), ps[|ps| - 1])
  }

  /** The packets of one chunk laid in with these indices, in this order. */
  function AbsorbOrder(fa: FrameAssembly, stamp: Stamp, body: seq<byte>, order: seq<uint16>): FrameAssembly
    requires forall k :: 0 <= k < |order| ==> order[k] < PacketCount(Size32(body))
  {
    if order == [] then fa
    else
      var m := |order| - 1;
      Absorb(AbsorbOrder(fa, stamp, body, order[..m]), PacketOf(stamp, body, order[m]))
  }

  function Marks(n: nat, order: seq<uint16>): seq<bool> { seq(n, i => i in order) }

  lemma {:induction false} MarksGrow(n: nat, order: seq<uint16>)
    requires order != [] && order[|order| - 1] < n
    ensures var m := |order| - 1;
            Marks(n, order[..m])[order[m] := true] == Marks(n, order)
  {
    var m := |order| - 1;
    assert order == order[..m] + [order[m]];
  }

  lemma {:induction false} AbsorbOrderMarks(stamp: Stamp, body: seq<byte>, order: seq<uint16>)
    requires |body| <= MAX_CHUNK
    requires forall k :: 0 <= k < |order| ==> order[k] < PacketCount(|body|)
    ensures var n := PacketCount(|body|);
            AbsorbOrder(Holding(stamp, body, Marks(n, [])), stamp, body, order) == Holding(stamp, body, Marks(n, order))
  {
    var n := PacketCount(|body|);
    if order == [] {
    } else {
      var m := |order| - 1;
      AbsorbOrderMarks(stamp, body, order[..m]);
      AbsorbMarksOne(stamp, body, Marks(n, order[..m]), order[m]);
      MarksGrow(n, order);
    }
  }

  lemma {:induction false} FreshHasNoMarks(stamp: Stamp, body: seq<byte>, first: uint16)
    requires |body| <= MAX_CHUNK && first < PacketCount(|body|)
    ensures Fresh(PacketOf(stamp, body, first).header) == Holding(stamp, body, Marks(PacketCount(|body|), []))
  {
    var n := PacketCount(|body|);
    FreshHoldsNothing(stamp, body, first);
    assert seq(n, _ => false) == Marks(n, []);
  }

  lemma {:induction false} MarksEqualIff(n: nat, order1: seq<uint16>, order2: seq<uint16>)
    requires forall k :: 0 <= k < |order1| ==> order1[k] < n
    requires forall k :: 0 <= k < |order2| ==> order2[k] < n
    ensures Marks(n, order1) == Marks(n, order2) <==> forall i :: i in order1 <==> i in order2
  {
    if Marks(n, order1) == Marks(n, order2) {
      forall i | i in order1 || i in order2 ensures i in order1 && i in order2 {
        assert Marks(n, order1)[i] == Marks(n, order2)[i];
      }
    }
  }

  /** An entry depends exactly on the set of packets that went into it, not on their order or multiplicity. */
  lemma {:induction false} Confluence(stamp: Stamp, body: seq<byte>, first: uint16, order1: seq<uint16>,
                                      order2: seq<uint16>)
    requires |body| <= MAX_CHUNK && first < PacketCount(|body|)
    requires forall k :: 0 <= k < |order1| ==> order1[k] < PacketCount(|body|)
    requires forall k :: 0 <= k < |order2| ==> order2[k] < PacketCount(|body|)
    ensures var entry := Fresh(PacketOf(stamp, body, first).header);
            AbsorbOrder(entry, stamp, body, order1) == AbsorbOrder(entry, stamp, body, order2)
            <==> (forall i :: i in order1 <==> i in order2)
  {
    FreshHasNoMarks(stamp, body, first);
    AbsorbOrderMarks(stamp, body, order1);
    AbsorbOrderMarks(stamp, body, order2);
    MarksEqualIff(PacketCount(|body|), order1, order2);
  }

  function ChunkPackets(stamp: Stamp, chunk: seq<byte>): (ps: seq<Packet>)
    ensures |ps| == PacketCount(Size32(chunk))
  {
    seq(PacketCount(Size32(chunk)), i requires 0 <= i < PacketCount(Size32(chunk)) => PacketOf(stamp, chunk, i))
  }

  function FramePackets(stamp: Stamp, chunks: seq<seq<byte>>): seq<Packet> {
    if chunks == [] then []
    else FramePackets(stamp, chunks[..|chunks| - 1]) + ChunkPackets(stamp, chunks[|chunks| - 1])
  }

  /** What a receiver that gets every packet of a frame, in sending order, has assembled at the end. */
  function Reassembled(stamp: Stamp, chunks: seq<seq<byte>>): FrameAssembly {
    var ps := FramePackets(stamp, chunks);
    if ps == [] then NO_FRAME else AbsorbAll(Fresh(ps[0].header), ps)
  }

  lemma {:induction false} AbsorbAllKeepsSize(fa: FrameAssembly, ps: seq<Packet>)
    ensures AbsorbAll(fa, ps).frameSize == fa.frameSize
  {
    if ps == [] {
    } else {
      AbsorbAllKeepsSize(fa, ps[..|ps| - 1]);
    }
  }

  function InOrder(n: uint16): seq<uint16> { seq(n, i requires 0 <= i < n => i) }

  lemma {:induction false} InOrderMarksAll(n: uint16)
    ensures forall i :: 0 <= i < n ==> Marks(n, InOrder(n))[i]
  {
    forall i | 0 <= i < n ensures Marks(n, InOrder(n))[i] {
      assert InOrder(n)[i] == i;
    }
  }

  lemma {:induction false} AbsorbAllInOrder(fa: FrameAssembly, stamp: Stamp, body: seq<byte>, n: uint16)
    requires n <= PacketCount(Size32(body))
    ensures AbsorbAll(fa, ChunkPackets(stamp, body)[..n]) == AbsorbOrder(fa, stamp, body, InOrder(n))
  {
    if n == 0 {
    } else {
      AbsorbAllInOrder(fa, stamp, body, n - 1);
      var ps := ChunkPackets(stamp, body)[..n];
      assert ps[..n - 1] == ChunkPackets(stamp, body)[..n - 1] && ps[n - 1] == PacketOf(stamp, body, n - 1);
      assert InOrder(n)[..n - 1] == InOrder(n - 1);
    }
  }

  lemma {:induction false} ChunkReassembles(stamp: Stamp, body: seq<byte>)
    requires 0 < |body| <= MAX_CHUNK
    ensures var ps := ChunkPackets(stamp, body);
            |ps| > 0 && AbsorbAll(Fresh(ps[0].header), ps).Complete() && AbsorbAll(Fresh(ps[0].header), ps).bits == body
  {
    var ps := ChunkPackets(stamp, body);
    var n := |ps|;
    ChunkHasPackets(stamp, body);
    InOrderMarksAll(n);
    FreshHasNoMarks(stamp, body, 0);
    AbsorbAllInOrder(Fresh(ps[0].header), stamp, body, n);
    AbsorbOrderMarks(stamp, body, InOrder(n));
    CompleteIffAllHeld(stamp, body, Marks(n, InOrder(n)));
    assert ps[..n] == ps;
  }

  lemma {:induction false} ChunkHasPackets(stamp: Stamp, chunk: seq<byte>)
    requires |chunk| <= MAX_CHUNK
    ensures ChunkPackets(stamp, chunk) == [] <==> chunk == []
    ensures chunk != [] ==> ChunkPackets(stamp, chunk)[0].header.frameSize == |chunk|
  {
    PacketCountIsCeiling(|chunk|);
  }

  /** The chunk that opens the frame's entry: the first one with bytes. */
  function FirstChunk(chunks: seq<seq<byte>>): seq<byte> {
    if chunks == [] then []
    else if FirstChunk(chunks[..|chunks| - 1]) != [] then FirstChunk(chunks[..|chunks| - 1])
    else chunks[|chunks| - 1]
  }

  lemma {:induction false} NoFirstChunk(chunks: seq<seq<byte>>)
    ensures FirstChunk(chunks) == [] <==> forall i :: 0 <= i < |chunks| ==> chunks[i] == []
  {
    if chunks == [] {
    } else {
      NoFirstChunk(chunks[..|chunks| - 1]);
    }
  }

  lemma {:induction false} FirstChunkIsAllIffOne(chunks: seq<seq<byte>>)
    ensures |FirstChunk(chunks)| <= |Flatten(chunks)|
    ensures Flatten(chunks) == FirstChunk(chunks) <==> |Flatten(chunks)| == |FirstChunk(chunks)|
    ensures Flatten(chunks) == FirstChunk(chunks) <==> AtMostOneChunk(chunks)
  {
    if chunks == [] {
    } else {
      var n := |chunks| - 1;
      var rest, last := chunks[..n], chunks[n];
      FirstChunkIsAllIffOne(rest);
      NoFirstChunk(rest);
      assert Flatten(chunks) == Flatten(rest) + last;
      if last != [] && FirstChunk(rest) != [] {
        var i :| 0 <= i < n && rest[i] != [];
        assert chunks[i] != [] && chunks[n] != [];
      }
    }
  }

  lemma {:induction false} FirstChunkOpens(stamp: Stamp, chunks: seq<seq<byte>>)
    requires forall c :: c in chunks ==> |c| <= MAX_CHUNK
    ensures FirstChunk(chunks) == [] <==> FramePackets(stamp, chunks) == []
    ensures FirstChunk(chunks) != [] ==>
              FramePackets(stamp, chunks)[0].header.frameSize == |FirstChunk(chunks)| <= MAX_CHUNK
  {
    if chunks == [] {
    } else {
      var n := |chunks| - 1;
      assert chunks[n] in chunks;
      FirstChunkOpens(stamp, chunks[..n]);
      ChunkHasPackets(stamp, chunks[n]);
    }
  }

  lemma {:induction false} OneChunkPackets(stamp: Stamp, chunks: seq<seq<byte>>)
    requires AtMostOneChunk(chunks)
    ensures FramePackets(stamp, chunks) == ChunkPackets(stamp, FirstChunk(chunks))
  {
    if chunks == [] {
    } else {
      var n := |chunks| - 1;
      OneChunkPackets(stamp, chunks[..n]);
      NoFirstChunk(chunks[..n]);
      NoPackets(stamp);
    }
  }

  lemma {:induction false} NoPackets(stamp: Stamp)
    ensures ChunkPackets(stamp, []) == []
  {
    assert PacketCount(0) == 0;
  }

  /**
   * All chunks of one EncodeFrame call share an id, so a second chunk with bytes collides with the first:
   * a loss-free, in-order receiver gets the frame's bytes exactly when there is one such chunk at most.
   */
  lemma {:induction false} WholeFrameIffOneChunk(stamp: Stamp, chunks: seq<seq<byte>>)
    requires forall c :: c in chunks ==> |c| <= MAX_CHUNK
    ensures Reassembled(stamp, chunks).bits == Flatten(chunks) <==> AtMostOneChunk(chunks)
  {
    FirstChunkOpens(stamp, chunks);
    FirstChunkIsAllIffOne(chunks);
    var ps := FramePackets(stamp, chunks);
    if ps != [] {
      AbsorbAllKeepsSize(Fresh(ps[0].header), ps);
      if AtMostOneChunk(chunks) {
        OneChunkPackets(stamp, chunks);
        ChunkReassembles(stamp, FirstChunk(chunks));
      }
    }
  }
}
