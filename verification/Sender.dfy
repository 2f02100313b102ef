/** The encode-and-send loop of streamsender. */
module Sender {
  import opened Words
  import opened Wire
  import opened Packetizer
  import Fence

  // `info->width ? info->width : encW`
  function ValidExtent(published: uint32, encoder: uint32): uint32 {
    if published != 0 then published else encoder
  }

  ghost predicate StrictlyIncreasing(s: seq<uint64>) {
    forall i, j :: 0 <= i < j < |s| ==> s[i] < s[j]
  }

  /** No step of the packetizer's arithmetic leaves 32 bits, and it yields the i-th datagram. */
  lemma {:induction false} PacketBounds(stamp: Stamp, chunk: seq<byte>, i: uint16)
    requires i < PacketCount(Size32(chunk))
    ensures var size := Size32(chunk);
            var off := i * MAX_PAYLOAD;
            var payload := if size - off < MAX_PAYLOAD then size - off else MAX_PAYLOAD;
            var header := PacketHeader(MAGIC, stamp.frameId, size, i, PacketCount(size), stamp.width, stamp.height,
                                       if stamp.keyframe then FLAG_KEYFRAME else 0, 0);
            && 0 <= off < size && off + payload <= |chunk| && 0 < payload <= MAX_PAYLOAD
            && Datagrams(stamp, chunk)[i] == Serialize(Packet(header, chunk[off..off + payload]))
  {
    PacketsStartInside(Size32(chunk), i);
  }

  lemma {:induction false} PrefixGrows<T>(before: seq<T>, s: seq<T>, i: nat)
    requires i < |s|
    ensures before + s[..i] + [s[i]] == before + s[..i + 1]
  {
  }

  class StreamSender {
    const idrPeriod: uint32
    var frameId: uint32
    var lastProducerFence: uint64
    var sendBuf: array<byte>
    // The network: every datagram accepted by sendto, in order.
    var sent: seq<seq<byte>>
    // The values waited for so far, one per encoded frame, and what was handed to the GPU queue and not yet run.
    var waited: seq<uint64>
    var queue: seq<Fence.ConsumerCmd>

    ghost predicate Valid()
      reads this
    {
      && idrPeriod > 0
      && sendBuf.Length == MAX_PACKET_BYTES
      && StrictlyIncreasing(waited)
      && 0 !in waited
      && (if waited == [] then lastProducerFence == 0 else lastProducerFence == waited[|waited| - 1])
    }

    /** This loop is the CPU side of the consumer `c` between two turns. */
    ghost predicate Drives(c: Fence.Consumer)
      reads this
    {
      c.pc.Ready? && c.last == lastProducerFence && c.waits == waited && c.queue == queue
    }

    constructor (idrPeriod: uint32)
      requires idrPeriod > 0
      ensures Valid() && fresh(sendBuf) && Drives(Fence.CONSUMER_INIT)
      ensures this.idrPeriod == idrPeriod && frameId == 0 && lastProducerFence == 0 && sent == [] && waited == []
    {
      this.idrPeriod := idrPeriod;
      frameId, lastProducerFence := 0, 0;
      sendBuf := new byte[MAX_PACKET_BYTES](_ => 0);
      sent, waited, queue := [], [], [];
    }

    /** The two memcpy calls into the send buffer; older bytes behind the payload are not part of the datagram. */
    method FillBuffer(header: PacketHeader, chunk: seq<byte>, off: nat, payload: nat) returns (datagram: seq<byte>)
      requires sendBuf.Length == MAX_PACKET_BYTES
      requires off + payload <= |chunk| && payload <= MAX_PAYLOAD
      modifies sendBuf
      ensures datagram == Serialize(Packet(header, chunk[off..off + payload]))
    {
      var headerBytes := HeaderBytes(header);
      forall k | 0 <= k < HEADER_BYTES { sendBuf[k] := headerBytes[k]; }
      forall k | 0 <= k < payload { sendBuf[HEADER_BYTES + k] := chunk[off + k]; }
      datagram := sendBuf[..HEADER_BYTES + payload];
    }

    /** The body of the packet loop up to the send. */
    method BuildPacket(stamp: Stamp, chunk: seq<byte>, i: uint16) returns (datagram: seq<byte>)
      requires sendBuf.Length == MAX_PACKET_BYTES
      requires stamp.frameId == frameId && i < PacketCount(Size32(chunk))
      modifies sendBuf
      ensures datagram == Datagrams(stamp, chunk)[i]
    {
      var size := Size32(chunk);
      var header := PacketHeader(MAGIC, frameId, size, i, PacketCount(size), stamp.width, stamp.height,
                                 if stamp.keyframe then FLAG_KEYFRAME else 0, 0);
      PacketBounds(stamp, chunk, i);
      var off: uint32 := i * MAX_PAYLOAD;
      var payload: uint32 := if size - off < MAX_PAYLOAD then size - off else MAX_PAYLOAD;
      datagram := FillBuffer(header, chunk, off, payload);
    }

    /** Packetizes one chunk; the send with index `accepts`, if there is one, fails and ends the chunk. */
    method SendChunk(stamp: Stamp, chunk: seq<byte>, accepts: nat)
      requires sendBuf.Length == MAX_PACKET_BYTES && stamp.frameId == frameId
      modifies this`sent, sendBuf
      ensures var all := Datagrams(stamp, chunk);
              sent == old(sent) + all[..Min(accepts, |all|)]
    {
      if |chunk| == 0 { return; }
      ghost var all := Datagrams(stamp, chunk);
      var total := PacketCount(Size32(chunk));
      var i: uint16 := 0;
      while i < total
        invariant i <= total && i <= accepts
        invariant sent == old(sent) + all[..i]
      {
        var datagram := BuildPacket(stamp, chunk, i);
        if i == accepts { return; }
        sent := sent + [datagram];
        PrefixGrows(old(sent), all, i);
        i := i + 1;
      }
    }

    /** The loop over the chunks of one EncodeFrame call. */
    method SendFrame(stamp: Stamp, chunks: seq<seq<byte>>, accepts: seq<nat>)
      requires sendBuf.Length == MAX_PACKET_BYTES
      requires stamp.frameId == frameId && |accepts| == |chunks|
      modifies this`sent, sendBuf
      ensures sent == old(sent) + SentDatagrams(stamp, chunks, accepts)
    {
      var c := 0;
      while c < |chunks|
        invariant 0 <= c <= |chunks|
        invariant sent == old(sent) + SentDatagrams(stamp, chunks[..c], accepts[..c])
      {
        SendChunk(stamp, chunks[c], accepts[c]);
        SentGrows(old(sent), stamp, chunks, accepts, c);
        c := c + 1;
      }
      assert chunks[..c] == chunks && accepts[..c] == accepts;
    }

    /**
     * The poll of the published fence value, and what follows it on the GPU queue: the wait and the copy of the
     * texture.
     */
    method TakeLatest(latest: uint64) returns (taken: bool)
      requires Valid()
      modifies this`lastProducerFence, this`waited, this`queue
      ensures Valid() && taken == (latest > old(lastProducerFence))
      ensures forall c: Fence.Consumer, p: Fence.Producer ::
                old(Drives(c)) && p.infoFence == latest ==> Drives(Fence.Turn(c, p, true))
      ensures taken ==> waited == old(waited) + [latest] && lastProducerFence == latest
      ensures taken ==> queue == old(queue) + [Fence.Wait(latest), Fence.Read(latest)]
      ensures !taken ==> waited == old(waited) && lastProducerFence == old(lastProducerFence) && queue == old(queue)
    {
      taken := latest > lastProducerFence;
      if !taken { return; }
      lastProducerFence := latest;
      waited := waited + [latest];
      queue := queue + [Fence.Wait(latest)];
      queue := queue + [Fence.Read(latest)];
    }

    /**
     * One turn of the loop. `latest`, `infoWidth` and `infoHeight` are what the shared info holds,
     * `chunks` what the encoder returns, `accepts` how many sends succeed for each chunk before one fails.
     */
    method EncodeNext(latest: uint64, infoWidth: uint32, infoHeight: uint32, encWidth: uint32, encHeight: uint32,
                      chunks: seq<seq<byte>>, accepts: seq<nat>)
      requires Valid() && |accepts| == |chunks|
      modifies this, sendBuf
      ensures Valid() && sendBuf == old(sendBuf)
      ensures forall c: Fence.Consumer, p: Fence.Producer :: old(Drives(c)) && p.infoFence == latest ==>
                Drives(Fence.Turn(c, p, true))
      ensures latest <= old(lastProducerFence) ==>
                && frameId == old(frameId) && sent == old(sent)
                && waited == old(waited) && lastProducerFence == old(lastProducerFence)
      ensures latest > old(lastProducerFence) ==>
                && frameId == (old(frameId) + 1) % U32_LIMIT
                && waited == old(waited) + [latest] && lastProducerFence == latest
                && var f := Frame(chunks, ValidExtent(infoWidth, encWidth), ValidExtent(infoHeight, encHeight));
                   sent == old(sent) + SentDatagrams(StampOf(old(frameId), f, idrPeriod), chunks, accepts)
      ensures forall d :: d in sent[|old(sent)|..] ==>
                && Parse(d).Some?
                && var h := Parse(d).value.header;
                   && h.frameId == old(frameId)
                   && (h.flags % 2 == 1 <==> old(frameId) > 0 && old(frameId) % idrPeriod == 0)
                   && h.width == (if infoWidth != 0 then infoWidth else encWidth)
                   && h.height == (if infoHeight != 0 then infoHeight else encHeight)
    {
      var taken := TakeLatest(latest);
      if !taken { return; }

      var forceIdr := frameId > 0 && frameId % idrPeriod == 0;
      var width, height := ValidExtent(infoWidth, encWidth), ValidExtent(infoHeight, encHeight);
      var stamp := Stamp(frameId, width, height, forceIdr);
      SendFrame(stamp, chunks, accepts);
      forall d | d in sent[|old(sent)|..]
        ensures Parse(d).Some?
        ensures var h := Parse(d).value.header;
                && h.frameId == frameId && h.width == width && h.height == height
                && (h.flags % 2 == 1 <==> frameId > 0 && frameId % idrPeriod == 0)
      {
        assert sent[|old(sent)|..] == SentDatagrams(stamp, chunks, accepts);
        SentHeaders(stamp, chunks, accepts, d);
      }
      frameId := (frameId + 1) % U32_LIMIT;
    }
  }
}
