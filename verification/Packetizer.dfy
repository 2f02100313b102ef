/** How streamsender cuts the encoder's output into datagrams. */
module Packetizer {
  import opened Words
  import opened Wire

  // The largest chunk whose packet count survives the cast to uint16_t.
  const MAX_CHUNK := 65535 * MAX_PAYLOAD

  /** The header fields that all packets of one encoded frame share. */
  datatype Stamp = Stamp(frameId: uint32, width: uint32, height: uint32, keyframe: bool)

  /** Frame 0 is not marked: the decoder's first forced keyframe is frame `idrPeriod`. */
  predicate ForceIdr(frameId: uint32, idrPeriod: uint32)
    requires idrPeriod > 0
  {
    frameId > 0 && frameId % idrPeriod == 0
  }

  // `(uint32_t)pkt.size()`
  function Size32(chunk: seq<byte>): uint32 { |chunk| % U32_LIMIT }

  // `(uint16_t)((size + kMaxPayload - 1) / kMaxPayload)`, the sum being a uint32_t
  function PacketCount(size: uint32): uint16
  {
    (size + MAX_PAYLOAD - 1) % U32_LIMIT / MAX_PAYLOAD % U16_LIMIT
  }

  lemma {:induction false} PacketsStartInside(size: uint32, i: nat)
    requires i < PacketCount(size)
    ensures i * MAX_PAYLOAD < size
  {
    var rounded := (size + MAX_PAYLOAD - 1) % U32_LIMIT;
    assert i + 1 <= rounded / MAX_PAYLOAD;
    assert (i + 1) * MAX_PAYLOAD <= rounded;
  }

  function PayloadOf(chunk: seq<byte>, i: nat): (payload: seq<byte>)
    requires i < PacketCount(Size32(chunk))
    ensures 0 < |payload| <= MAX_PAYLOAD
  {
    var size := Size32(chunk);
    PacketsStartInside(size, i);
    chunk[i * MAX_PAYLOAD..Min((i + 1) * MAX_PAYLOAD, size)]
  }

  function PacketOf(stamp: Stamp, chunk: seq<byte>, i: uint16): Packet
    requires i < PacketCount(Size32(chunk))
  {
    var size := Size32(chunk);
    Packet(PacketHeader(MAGIC, stamp.frameId, size, i, PacketCount(size), stamp.width, stamp.height,
                        if stamp.keyframe then FLAG_KEYFRAME else 0, 0),
           PayloadOf(chunk, i))
  }

  /** All datagrams of one chunk, in sending order. */
  function Datagrams(stamp: Stamp, chunk: seq<byte>): (out: seq<seq<byte>>)
    ensures |out| == PacketCount(Size32(chunk))
  {
    seq(PacketCount(Size32(chunk)), i requires 0 <= i < PacketCount(Size32(chunk)) =>
      Serialize(PacketOf(stamp, chunk, i)))
  }

  function Payloads(chunk: seq<byte>): (out: seq<seq<byte>>)
    ensures |out| == PacketCount(Size32(chunk))
  {
    seq(PacketCount(Size32(chunk)), i requires 0 <= i < PacketCount(Size32(chunk)) => PayloadOf(chunk, i))
  }

  function Flatten(parts: seq<seq<byte>>): seq<byte> {
    if parts == [] then [] else Flatten(parts[..|parts| - 1]) + parts[|parts| - 1]
  }

  lemma {:induction false} PayloadsAreConsecutive(chunk: seq<byte>, n: nat)
    requires n <= |Payloads(chunk)|
    ensures n * MAX_PAYLOAD < Size32(chunk) + MAX_PAYLOAD
    ensures Flatten(Payloads(chunk)[..n]) == chunk[..Min(n * MAX_PAYLOAD, Size32(chunk))]
  {
    if n == 0 {
    } else {
      PayloadsAreConsecutive(chunk, n - 1);
      PacketsStartInside(Size32(chunk), n - 1);
      assert Payloads(chunk)[..n][..n - 1] == Payloads(chunk)[..n - 1];
      assert Payloads(chunk)[..n][n - 1] == PayloadOf(chunk, n - 1);
    }
  }

  lemma {:induction false} AllPayloads(chunk: seq<byte>)
    ensures Flatten(Payloads(chunk)) == chunk[..Min(PacketCount(Size32(chunk)) * MAX_PAYLOAD, Size32(chunk))]
  {
    var n := |Payloads(chunk)|;
    PayloadsAreConsecutive(chunk, n);
    assert Payloads(chunk)[..n] == Payloads(chunk);
  }

  /** The cast to uint16_t loses nothing exactly up to 65535 payloads; past that the tail is never sent. */
  lemma {:induction false} PayloadsCoverChunkIff(chunk: seq<byte>)
    ensures Flatten(Payloads(chunk)) == chunk <==> |chunk| <= 65535 * 1400
  {
    AllPayloads(chunk);
    var n: uint16 := PacketCount(Size32(chunk));
    if |chunk| <= MAX_CHUNK {
      PacketCountIsCeiling(|chunk|);
    } else {
      PrefixIsShort(chunk, n * MAX_PAYLOAD, Size32(chunk));
    }
  }

  lemma {:induction false} PrefixIsShort(chunk: seq<byte>, a: nat, b: nat)
    requires a < |chunk| && b <= |chunk|
    ensures chunk[..Min(a, b)] != chunk
  {
    assert |chunk[..Min(a, b)]| <= a;
  }

  lemma {:induction false} PacketCountIsCeiling(size: uint32)
    requires size <= MAX_CHUNK
    ensures (PacketCount(size) - 1) * MAX_PAYLOAD < size <= PacketCount(size) * MAX_PAYLOAD || size ==
              PacketCount(size) == 0
  {
    var n := (size + MAX_PAYLOAD - 1) / MAX_PAYLOAD;
    assert n < U16_LIMIT;
    assert PacketCount(size) == n;
  }

  /** Where a byte of an unclipped chunk travels: exactly one packet carries it, at this place. */
  lemma {:induction false} ByteTravelsOnce(chunk: seq<byte>, b: nat, i: nat)
    requires |chunk| <= MAX_CHUNK && b < |chunk| && i < PacketCount(Size32(chunk))
    ensures b / MAX_PAYLOAD < PacketCount(Size32(chunk))
    ensures i * MAX_PAYLOAD <= b < i * MAX_PAYLOAD + |PayloadOf(chunk, i)| <==> i == b / MAX_PAYLOAD
    ensures i == b / MAX_PAYLOAD ==> PayloadOf(chunk, i)[b - i * MAX_PAYLOAD] == chunk[b]
  {
    PacketCountIsCeiling(|chunk|);
    PacketsStartInside(Size32(chunk), i);
  }

  lemma {:induction false} PacketStaysInside(stamp: Stamp, chunk: seq<byte>, i: uint16)
    requires i < PacketCount(Size32(chunk)) && i * MAX_PAYLOAD < Size32(chunk)
    ensures i * MAX_PAYLOAD + |PacketOf(stamp, chunk, i).payload| <= PacketOf(stamp, chunk, i).header.frameSize
  {
    assert PacketOf(stamp, chunk, i).payload == PayloadOf(chunk, i);
  }

  /** Every emitted datagram fits the receive buffer, carries the magic and is read back unchanged. */
  lemma {:induction false} EmittedPacketIsReadBack(stamp: Stamp, chunk: seq<byte>, i: uint16)
    requires i < PacketCount(Size32(chunk))
    ensures Parse(Serialize(PacketOf(stamp, chunk, i))) == Some(PacketOf(stamp, chunk, i))
    ensures PacketOf(stamp, chunk, i).header.totalPackets > 0 && PacketOf(stamp, chunk, i).header.frameSize > 0
    ensures i * MAX_PAYLOAD + |PacketOf(stamp, chunk, i).payload| <= PacketOf(stamp, chunk, i).header.frameSize
  {
    PacketsStartInside(Size32(chunk), i);
    PacketStaysInside(stamp, chunk, i);
    ParseInvertsSerialize(Serialize(PacketOf(stamp, chunk, i)), PacketOf(stamp, chunk, i));
  }

  lemma {:induction false} PacketFields(stamp: Stamp, chunk: seq<byte>, i: uint16)
    requires i < PacketCount(Size32(chunk))
    ensures var p, size := PacketOf(stamp, chunk, i), |chunk| % 0x1_0000_0000;
            && i * 1400 < size <= |chunk| && 0 < |p.payload| <= 1400
            && p.header == PacketHeader(MAGIC, stamp.frameId, size, i,
                 (size + 1399) % 0x1_0000_0000 / 1400 % 0x1_0000, stamp.width, stamp.height,
                 if stamp.keyframe then 1 else 0, 0)
            && p.payload == chunk[i * 1400..if (i + 1) * 1400 < size then (i + 1) * 1400 else size]
  {
    PacketsStartInside(Size32(chunk), i);
  }

  /** The bytes on the wire of packet i of a chunk, by offset. */
  lemma {:induction false} EmittedBytes(stamp: Stamp, chunk: seq<byte>, i: uint16)
    requires i < |Datagrams(stamp, chunk)|
    ensures var b: seq<int>, size := Datagrams(stamp, chunk)[i], |chunk| % 0x1_0000_0000;
            && i * 1400 < size <= |chunk| && 32 < |b| <= 1432
            && b[0] == 0x43 && b[1] == 0x4D && b[2] == 0x54 && b[3] == 0x53
            && b[4] + 0x100 * b[5] + 0x1_0000 * b[6] + 0x100_0000 * b[7] == stamp.frameId
            && b[8] + 0x100 * b[9] + 0x1_0000 * b[10] + 0x100_0000 * b[11] == size
            && b[12] + 0x100 * b[13] == i
            && b[14] + 0x100 * b[15] == (size + 1399) % 0x1_0000_0000 / 1400 % 0x1_0000
            && b[16] + 0x100 * b[17] + 0x1_0000 * b[18] + 0x100_0000 * b[19] == stamp.width
            && b[20] + 0x100 * b[21] + 0x1_0000 * b[22] + 0x100_0000 * b[23] == stamp.height
            && b[24] + 0x100 * b[25] + 0x1_0000 * b[26] + 0x100_0000 * b[27] == (if stamp.keyframe then 1 else 0)
            && b[28] + 0x100 * b[29] + 0x1_0000 * b[30] + 0x100_0000 * b[31] == 0
            && b[32..] == chunk[i * 1400..if (i + 1) * 1400 < size then (i + 1) * 1400 else size]
  {
    var p := PacketOf(stamp, chunk, i);
    PacketFields(stamp, chunk, i);
    DatagramLayout(p);
    var b := Serialize(p);
    MagicBytes(b[0], b[1], b[2], b[3]);
    assert Datagrams(stamp, chunk)[i] == b;
  }

  /** What one EncodeFrame call contributes: its chunks and the content size valid at that time. */
  datatype Frame = Frame(chunks: seq<seq<byte>>, width: uint32, height: uint32)

  function StampOf(frameId: uint32, f: Frame, idrPeriod: uint32): Stamp
    requires idrPeriod > 0
  {
    Stamp(frameId, f.width, f.height, ForceIdr(frameId, idrPeriod))
  }

  function Body(f: Frame): seq<byte> { Flatten(f.chunks) }

  /** All datagrams of the chunks of one frame; an empty chunk has none. */
  function ChunksDatagrams(stamp: Stamp, chunks: seq<seq<byte>>): seq<seq<byte>> {
    if chunks == [] then []
    else ChunksDatagrams(stamp, chunks[..|chunks| - 1]) + Datagrams(stamp, chunks[|chunks| - 1])
  }

  function FrameDatagrams(frameId: uint32, f: Frame, idrPeriod: uint32): seq<seq<byte>>
    requires idrPeriod > 0
  {
    ChunksDatagrams(StampOf(frameId, f, idrPeriod), f.chunks)
  }

  /** The datagrams that leave when chunk `c` has `accepts[c]` successful sends before the first failing one. */
  function SentDatagrams(stamp: Stamp, chunks: seq<seq<byte>>, accepts: seq<nat>): seq<seq<byte>>
    requires |accepts| == |chunks|
  {
    if chunks == [] then []
    else
      var n := |chunks| - 1;
      var all := Datagrams(stamp, chunks[n]);
      SentDatagrams(stamp, chunks[..n], accepts[..n]) + all[..Min(accepts[n], |all|)]
  }

  lemma {:induction false} SentGrows(before: seq<seq<byte>>, stamp: Stamp, chunks: seq<seq<byte>>, accepts: seq<nat>,
                                     c: nat)
    requires |accepts| == |chunks| && c < |chunks|
    ensures var all := Datagrams(stamp, chunks[c]);
            before + SentDatagrams(stamp, chunks[..c], accepts[..c]) + all[..Min(accepts[c], |all|)]
              == before + SentDatagrams(stamp, chunks[..c + 1], accepts[..c + 1])
  {
    assert chunks[..c + 1][..c] == chunks[..c] && accepts[..c + 1][..c] == accepts[..c];
  }

  lemma {:induction false} SentAreAmongAll(stamp: Stamp, chunks: seq<seq<byte>>, accepts: seq<nat>)
    requires |accepts| == |chunks|
    ensures forall d :: d in SentDatagrams(stamp, chunks, accepts) ==> d in ChunksDatagrams(stamp, chunks)
  {
    if chunks == [] {
    } else {
      var n := |chunks| - 1;
      SentAreAmongAll(stamp, chunks[..n], accepts[..n]);
    }
  }

  /** Every chunk is tried, also after one whose send failed, and of each exactly the accepted datagrams leave. */
  lemma {:induction false} SentIff(stamp: Stamp, chunks: seq<seq<byte>>, accepts: seq<nat>, d: seq<byte>)
    requires |accepts| == |chunks|
    ensures d in SentDatagrams(stamp, chunks, accepts) <==>
            exists c, i :: 0 <= c < |chunks| && 0 <= i < |Datagrams(stamp, chunks[c])| && i < accepts[c] &&
              d == Datagrams(stamp, chunks[c])[i]
  {
    if chunks != [] {
      var n := |chunks| - 1;
      SentIff(stamp, chunks[..n], accepts[..n], d);
      assert forall c :: 0 <= c < n ==> chunks[..n][c] == chunks[c] && accepts[..n][c] == accepts[c];
    }
  }

  lemma {:induction false} SentLast(stamp: Stamp, chunks: seq<seq<byte>>, accepts: seq<nat>, chunk: seq<byte>, n: nat)
    requires |chunks| == |accepts|
    ensures var all := Datagrams(stamp, chunk);
            SentDatagrams(stamp, chunks + [chunk], accepts + [n]) ==
            SentDatagrams(stamp, chunks, accepts) + all[..Min(n, |all|)]
  {
    assert (chunks + [chunk])[..|chunks|] == chunks && (accepts + [n])[..|chunks|] == accepts;
  }

  lemma {:induction false} SentConcat(stamp: Stamp, a: seq<seq<byte>>, x: seq<nat>, b: seq<seq<byte>>, y: seq<nat>)
    requires |a| == |x| && |b| == |y|
    ensures SentDatagrams(stamp, a + b, x + y) == SentDatagrams(stamp, a, x) + SentDatagrams(stamp, b, y)
  {
    if b == [] {
      assert a + b == a && x + y == x;
    } else {
      var n := |b| - 1;
      var all := Datagrams(stamp, b[n]);
      SentConcat(stamp, a, x, b[..n], y[..n]);
      SentLast(stamp, a + b[..n], x + y[..n], b[n], y[n]);
      EndsWith(a, b);
      EndsWith(x, y);
      SentLast(stamp, b[..n], y[..n], b[n], y[n]);
      Associate(SentDatagrams(stamp, a, x), SentDatagrams(stamp, b[..n], y[..n]), all[..Min(y[n], |all|)]);
    }
  }

  lemma {:induction false} EndsWith<T>(a: seq<T>, b: seq<T>)
    requires b != []
    ensures var n := |b| - 1; b == b[..n] + [b[n]] && a + b == a + b[..n] + [b[n]]
  {
  }

  /**
   * Where a chunk's datagrams stand among those that leave: behind those of the chunks before it and ahead of those of
   * the chunks after it, all of them or those before its first failing send.
   */
  lemma {:induction false} SentAround(stamp: Stamp, before: seq<seq<byte>>, x: seq<nat>, chunk: seq<byte>,
                                      accepts: nat, after: seq<seq<byte>>, y: seq<nat>)
    requires |before| == |x| && |after| == |y|
    ensures var all := Datagrams(stamp, chunk);
            SentDatagrams(stamp, before + [chunk] + after, x + [accepts] + y) ==
            SentDatagrams(stamp, before, x) + (if accepts < |all| then all[..accepts] else all) +
            SentDatagrams(stamp, after, y)
  {
    SentConcat(stamp, before + [chunk], x + [accepts], after, y);
    SentLast(stamp, before, x, chunk, accepts);
  }

  /** The receiver's view of anything that leaves: the frame's id and size, and the flag. */
  lemma {:induction false} SentHeaders(stamp: Stamp, chunks: seq<seq<byte>>, accepts: seq<nat>, d: seq<byte>)
    requires |accepts| == |chunks| && d in SentDatagrams(stamp, chunks, accepts)
    ensures Parse(d).Some?
    ensures var h := Parse(d).value.header;
            && h.frameId == stamp.frameId && h.width == stamp.width && h.height == stamp.height
            && (h.flags % 2 == 1 <==> stamp.keyframe)
  {
    SentIff(stamp, chunks, accepts, d);
    var c, i :| 0 <= c < |chunks| && 0 <= i < |Datagrams(stamp, chunks[c])| && d == Datagrams(stamp, chunks[c])[i];
    EmittedPacketIsReadBack(stamp, chunks[c], i);
  }

  /** The encoder behaviour the protocol relies on: at most one chunk per frame has bytes, and it is not clipped. */
  predicate AtMostOneChunk(chunks: seq<seq<byte>>) {
    forall i, j :: 0 <= i < j < |chunks| ==> chunks[i] == [] || chunks[j] == []
  }

  predicate Sendable(f: Frame) { AtMostOneChunk(f.chunks) && |Body(f)| <= MAX_CHUNK }

  lemma {:induction false} AllEmpty(stamp: Stamp, chunks: seq<seq<byte>>)
    requires forall i :: 0 <= i < |chunks| ==> chunks[i] == []
    ensures Flatten(chunks) == [] && ChunksDatagrams(stamp, chunks) == []
  {
    if chunks == [] {
    } else {
      AllEmpty(stamp, chunks[..|chunks| - 1]);
    }
  }

  lemma {:induction false} EmptyChunkSendsNothing(stamp: Stamp)
    ensures Datagrams(stamp, []) == []
  {
    assert PacketCount(0) == 0;
  }

  /** With one chunk at most, the frame travels as the datagrams of its body. */
  lemma {:induction false} OneChunkTravelsAsBody(stamp: Stamp, chunks: seq<seq<byte>>)
    requires AtMostOneChunk(chunks)
    ensures ChunksDatagrams(stamp, chunks) == Datagrams(stamp, Flatten(chunks))
  {
    if chunks == [] {
    } else {
      var n := |chunks| - 1;
      var last, rest := chunks[n], chunks[..n];
      assert Flatten(chunks) == Flatten(rest) + last;
      assert ChunksDatagrams(stamp, chunks) == ChunksDatagrams(stamp, rest) + Datagrams(stamp, last);
      if last == [] {
        OneChunkTravelsAsBody(stamp, rest);
        assert Flatten(rest) + last == Flatten(rest);
        EmptyChunkSendsNothing(stamp);
      } else {
        AllEmpty(stamp, rest);
        assert Flatten(rest) + last == last;
      }
    }
  }
}
