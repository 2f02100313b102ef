/**
 * The SDK's encoder as streamsender drives it: a ring of output buffers that holds each picture's bitstream back for a
 * fixed number of calls. It returns one chunk a call at most, none at first, and never the picture just submitted.
 */
module Encoder {
  import opened Words
  import opened Packetizer
  import opened Transport
  import opened Progress

  /** What the call that submits the last of these pictures returns. */
  function Returned(bits: seq<seq<byte>>, delay: nat): seq<seq<byte>> {
    if |bits| > delay then [bits[|bits| - 1 - delay]] else []
  }

  /** Positions less than n apart use different slots of a ring of n. */
  lemma {:induction false} SlotsDiffer(i: nat, j: nat, n: nat)
    requires i < j < i + n
    ensures i % n != j % n
  {
    if i % n == j % n {
      assert j - i == (j / n - i / n) * n;
      ProductsAreApart(j / n - i / n, n);
    }
  }

  class NvEncoder {
    const delay: nat
    var toSend: nat
    var got: nat
    // One bitstream per output buffer; the picture with number i uses buffer i % m_nEncoderBuffer.
    var outputs: array<seq<byte>>
    ghost var submitted: seq<seq<byte>>

    ghost predicate Valid()
      reads this, outputs
    {
      && outputs.Length == delay + 1
      && toSend == |submitted|
      && got == (if toSend <= delay then 0 else toSend - delay)
      && forall i :: got <= i < toSend ==> outputs[i % outputs.Length] == submitted[i]
    }

    constructor (frameIntervalP: nat, lookaheadDepth: nat, extraOutputDelay: nat)
      requires frameIntervalP + lookaheadDepth + extraOutputDelay > 0
      ensures Valid() && fresh(outputs) && submitted == []
      ensures delay == frameIntervalP + lookaheadDepth + extraOutputDelay - 1
    {
      var buffers := frameIntervalP + lookaheadDepth + extraOutputDelay;
      delay := buffers - 1;
      toSend, got, submitted := 0, 0, [];
      outputs := new seq<byte>[buffers](_ => []);
    }

    /** `bits` is the bitstream the hardware makes of the submitted picture. */
    method EncodeFrame(bits: seq<byte>) returns (packets: seq<seq<byte>>)
      requires Valid()
      modifies this, outputs
      ensures Valid() && outputs == old(outputs) && submitted == old(submitted) + [bits]
      ensures packets == Returned(submitted, delay)
    {
      forall i | got <= i < toSend ensures i % outputs.Length != toSend % outputs.Length {
        SlotsDiffer(i, toSend, outputs.Length);
      }
      outputs[toSend % outputs.Length] := bits;
      submitted := submitted + [bits];
      toSend := toSend + 1;
      packets := GetEncodedPacket();
    }

    method GetEncodedPacket() returns (packets: seq<seq<byte>>)
      requires outputs.Length == delay + 1 && toSend == |submitted| > 0
      requires got == if toSend <= delay + 1 then 0 else toSend - 1 - delay
      requires forall i :: got <= i < toSend ==> outputs[i % outputs.Length] == submitted[i]
      modifies this`got
      ensures Valid() && packets == Returned(submitted, delay)
    {
      packets := [];
      var end := toSend - delay;
      while got < end
        invariant old(got) <= got && (end <= old(got) ==> got == old(got)) && (old(got) <= end ==> got <= end)
        invariant packets == submitted[old(got)..got]
      {
        packets := packets + [outputs[got % outputs.Length]];
        got := got + 1;
      }
    }
  }

  // ---- the frames that come of it ----------------------------------------------

  /** Frame n holds what call n returned: the bitstream of picture n - delay. */
  ghost predicate EncodedFrom(frames: seq<Frame>, bits: seq<seq<byte>>, delay: nat) {
    |frames| <= |bits| && forall n :: 0 <= n < |frames| ==> frames[n].chunks == Returned(bits[..n + 1], delay)
  }

  lemma {:induction false} FlattenOne(chunk: seq<byte>)
    ensures Flatten([chunk]) == chunk
  {
    assert [chunk][..0] == [];
  }

  /** One chunk at most, and none in the first `delay` frames. */
  lemma {:induction false} EncodedFrameIs(frames: seq<Frame>, bits: seq<seq<byte>>, delay: nat, n: nat)
    requires EncodedFrom(frames, bits, delay) && n < |frames|
    ensures AtMostOneChunk(frames[n].chunks)
    ensures Body(frames[n]) == if n < delay then [] else bits[n - delay]
  {
    if n >= delay {
      FlattenOne(bits[n - delay]);
    }
  }

  /** So the transport's demand on the encoder is only that no bitstream is too long. */
  lemma {:induction false} EncodedFramesAreSendableIff(frames: seq<Frame>, bits: seq<seq<byte>>, delay: nat)
    requires EncodedFrom(frames, bits, delay)
    ensures (forall n :: 0 <= n < |frames| ==> Sendable(frames[n])) <==>
            forall i :: 0 <= i < |frames| - delay ==> |bits[i]| <= MAX_CHUNK
  {
    forall n | 0 <= n < |frames| ensures Sendable(frames[n]) <==> n < delay || |bits[n - delay]| <= MAX_CHUNK {
      EncodedFrameIs(frames, bits, delay, n);
    }
    if forall n :: 0 <= n < |frames| ==> Sendable(frames[n]) {
      forall i | 0 <= i < |frames| - delay ensures |bits[i]| <= MAX_CHUNK {
        assert Sendable(frames[i + delay]);
      }
    }
  }

  // ---- which picture the stream starts with --------------------------------------

  lemma {:induction false} MultipleMinus(k: nat, d: nat, p: nat)
    requires p > 0 && d <= k && k % p == 0
    ensures (k - d) % p == 0 <==> d % p == 0
  {
    var q := k / p;
    if (k - d) % p == 0 {
      assert d == (q - (k - d) / p) * p;
      DivisionIsUnique(d, q - (k - d) / p, 0, p);
    }
    if d % p == 0 {
      assert k - d == (q - d / p) * p;
      DivisionIsUnique(k - d, q - d / p, 0, p);
    }
  }

  lemma {:induction false} DelayedIsForcedIff(k: uint32, delay: nat, idrPeriod: uint32)
    requires idrPeriod > 0 && delay <= k && ForceIdr(k, idrPeriod)
    ensures ForceIdr(k - delay, idrPeriod) <==> delay < k && delay % idrPeriod == 0
  {
    MultipleMinus(k, delay, idrPeriod);
  }

  /**
   * The frame the receiver starts with is the one flagged in its header; its bytes are those of a picture for which an
   * IDR was forced if and only if the keyframe period divides the encoder's delay and the picture is not the first.
   */
  lemma {:induction false} StartIsForcedPictureIff(run: seq<System>, idrPeriod: uint32, n: nat, bits: seq<seq<byte>>,
                                                   delay: nat)
    requires idrPeriod > 0 && IsRun(run, idrPeriod) && n < |run| && run[n].rx.streamStarted
    requires EncodedFrom(run[n].frames, bits, delay)
    ensures var k := run[n].rx.start;
            && delay <= k < |run[n].frames| && Body(run[n].frames[k]) == bits[k - delay]
            && (ForceIdr(k - delay, idrPeriod) <==> delay < k && delay % idrPeriod == 0)
  {
    var s := run[n];
    StartIsSent(run, idrPeriod, n);
    EncodedFrameIs(s.frames, bits, delay, s.rx.start);
    DelayedIsForcedIff(s.rx.start, delay, idrPeriod);
  }

  /** With the encoder's three calls of delay and the default period of 120 it never is. */
  lemma {:induction false} DefaultStartIsNotForced(run: seq<System>, n: nat, bits: seq<seq<byte>>)
    requires IsRun(run, 120) && n < |run| && run[n].rx.streamStarted && EncodedFrom(run[n].frames, bits, 3)
    ensures var k := run[n].rx.start;
            3 <= k < |run[n].frames| && Body(run[n].frames[k]) == bits[k - 3] && !ForceIdr(k - 3, 120)
  {
    StartIsForcedPictureIff(run, 120, n, bits, 3);
  }
}
