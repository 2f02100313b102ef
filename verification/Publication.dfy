/** The loops that produce for the fence protocol: screencapture's, and the decode output of streamreceiver. */
module Publication {
  import opened Words
  import opened Fence

  function Cycle(p: Producer): Producer
    requires p.pc.Idle? && p.fenceValue < U64_LIMIT - 1
  {
    Do(Do(Do(Do(p, IssueCopy), IssueSignal), Count), Publish)
  }

  /** n turns of a producer's loop while its GPU does nothing. */
  function Cycles(p: Producer, n: nat): (q: Producer)
    requires p.pc.Idle? && p.fenceValue + n < U64_LIMIT
    ensures q.pc.Idle? && q.fenceValue == p.fenceValue + n
  {
    if n == 0 then p else Cycle(Cycles(p, n - 1))
  }

  datatype Acquired = Timeout | AccessLost | NewFrame

  /** screencapture's loop, with the CPU-visible half of the producer as its fields. */
  class ScreenCapture {
    var fenceValue: uint64
    var queue: seq<ProducerCmd>
    var infoFrames: uint32
    var infoFence: uint64

    ghost function Abs(started: nat, written: nat, fence: nat): Producer
      reads this
    {
      Producer(Idle, fenceValue, queue, started, written, fence, infoFrames, infoFence)
    }

    constructor ()
      ensures Abs(0, 0, 0) == PRODUCER_INIT
    {
      fenceValue, queue, infoFrames, infoFence := 0, [], 0, 0;
    }

    method OnAcquire(hr: Acquired)
      requires fenceValue < U64_LIMIT - 1
      modifies this
      ensures forall s, w, f :: Abs(s, w, f) == Cycles(old(Abs(s, w, f)), if hr.NewFrame? then 1 else 0)
    {
      if hr.Timeout? { return; }
      if hr.AccessLost? { return; }
      queue := queue + [Copy(fenceValue + 1)];
      fenceValue := fenceValue + 1;
      queue := queue + [Signal(fenceValue)];
      infoFrames := (infoFrames + 1) % U32_LIMIT;
      infoFence := fenceValue;
    }
  }

  /** One image the decoder returns for a frame, and whether the conversion kernel could be launched for it. */
  datatype Image = Image(present: bool, width: int, height: int, launched: bool)

  // The content extent to advertise: what the packet says, within what was copied.
  function Advertised(fromPacket: uint32, decoded: nat, texture: uint32): (w: uint32)
    requires decoded > 0 && texture > 0
    ensures 0 < w <= texture && w <= decoded
    ensures 0 < fromPacket <= decoded && fromPacket <= texture ==> w == fromPacket
    ensures fromPacket == 0 || fromPacket > decoded || fromPacket > texture ==> w == decoded || w == texture
  {
    var copied := Min(decoded, texture);
    if Min(fromPacket, copied) != 0 then Min(fromPacket, copied) else copied
  }

  class DecodeOutput {
    const texW: uint32
    const texH: uint32
    var fenceValue: uint64
    var queue: seq<ProducerCmd>
    var infoWidth: uint32
    var infoHeight: uint32
    var infoFrames: uint32
    var infoFence: uint64

    ghost function Abs(started: nat, written: nat, fence: nat): Producer
      reads this
    {
      Producer(Idle, fenceValue, queue, started, written, fence, infoFrames, infoFence)
    }

    ghost predicate Valid()
      reads this
    {
      texW > 0 && texH > 0 && infoWidth <= texW && infoHeight <= texH
    }

    constructor (texW: uint32, texH: uint32)
      requires texW > 0 && texH > 0
      ensures Valid() && Abs(0, 0, 0) == PRODUCER_INIT && this.texW == texW && this.texH == texH
    {
      this.texW, this.texH := texW, texH;
      fenceValue, queue, infoFrames, infoFence, infoWidth, infoHeight := 0, [], 0, 0, 0, 0;
    }

    /** Signal and advertise one converted image. */
    method Publish(width: uint32, height: uint32, img: Image)
      requires Valid() && img.width > 0 && img.height > 0 && fenceValue < U64_LIMIT - 1
      modifies this
      ensures Valid() && fenceValue == old(fenceValue) + 1
      ensures forall s, w, f :: Abs(s, w, f) == Cycle(old(Abs(s, w, f)))
      ensures infoWidth == Advertised(width, img.width, texW) && infoHeight == Advertised(height, img.height, texH)
    {
      var copyW, copyH := Min(img.width, texW), Min(img.height, texH);
      queue := queue + [Copy(fenceValue + 1)];
      fenceValue := fenceValue + 1;
      queue := queue + [Signal(fenceValue)];
      var validW, validH := Min(width, copyW), Min(height, copyH);
      infoWidth := if validW != 0 then validW else copyW;
      infoHeight := if validH != 0 then validH else copyH;
      infoFrames := (infoFrames + 1) % U32_LIMIT;
      infoFence := fenceValue;
    }

    /** The loop's body: an image that is missing, has no size or was not converted leaves no trace. */
    method DeliverImage(width: uint32, height: uint32, img: Image) returns (done: bool)
      requires Valid() && fenceValue < U64_LIMIT - 1
      modifies this
      ensures Valid() && (done <==> img.present && img.width > 0 && img.height > 0 && img.launched)
      ensures fenceValue == old(fenceValue) + if done then 1 else 0
      ensures forall s, w, f :: Abs(s, w, f) == if done then Cycle(old(Abs(s, w, f))) else old(Abs(s, w, f))
      ensures !done ==> infoWidth == old(infoWidth) && infoHeight == old(infoHeight)
      ensures done ==>
                infoWidth == Advertised(width, img.width, texW) && infoHeight == Advertised(height, img.height, texH)
    {
      done := false;
      if !img.present || img.width <= 0 || img.height <= 0 { return; }
      if !img.launched { return; }
      Publish(width, height, img);
      done := true;
    }

    /**
     * Exactly the images that are there, have a size and were converted are published, each as one turn of the
     * protocol's producer; the last of them decides the advertised size.
     */
    method DeliverFrame(width: uint32, height: uint32, images: seq<Image>) returns (ghost published: set<int>)
      requires Valid() && fenceValue + |images| < U64_LIMIT
      modifies this
      ensures Valid()
      ensures forall i :: i in published <==> 0 <= i < |images| && images[i].present && images[i].width > 0 &&
                                               images[i].height > 0 && images[i].launched
      ensures fenceValue == old(fenceValue) + |published|
      ensures forall s, w, f :: Abs(s, w, f) == Cycles(old(Abs(s, w, f)), |published|)
      ensures published == {} ==> infoWidth == old(infoWidth) && infoHeight == old(infoHeight)
      ensures forall i :: i in published && (forall j :: j in published ==> j <= i) ==>
                && infoWidth == Advertised(width, images[i].width, texW)
                && infoHeight == Advertised(height, images[i].height, texH)
    {
      var i := 0;
      published := {};
      while i < |images|
        invariant 0 <= i <= |images| && |published| <= i
        invariant Valid() && fenceValue == old(fenceValue) + |published|
        invariant forall j :: j in published <==> 0 <= j < i && images[j].present && images[j].width > 0 &&
                                                   images[j].height > 0 && images[j].launched
        invariant forall s, w, f :: Abs(s, w, f) == Cycles(old(Abs(s, w, f)), |published|)
        invariant published == {} ==> infoWidth == old(infoWidth) && infoHeight == old(infoHeight)
        invariant forall j :: j in published && (forall k :: k in published ==> k <= j) ==>
                    && infoWidth == Advertised(width, images[j].width, texW)
                    && infoHeight == Advertised(height, images[j].height, texH)
      {
        ghost var n := |published|;
        var done := DeliverImage(width, height, images[i]);
        if done {
          published := published + {i};
        }
        assert |published| == n + if done then 1 else 0;
        i := i + 1;
      }
    }
  }

  lemma {:induction false} CycleKeepsInv(p: Producer)
    requires ProducerInv(p) && p.pc.Idle? && p.fenceValue < U64_LIMIT - 1
    ensures ProducerInv(Cycle(p)) && Advances(p, Cycle(p)) && Cycle(p).infoFence == p.infoFence + 1
  {
    var copied := Do(p, IssueCopy);
    var signaled := Do(copied, IssueSignal);
    ProducerStepKeepsInv(p, IssueCopy);
    ProducerStepKeepsInv(copied, IssueSignal);
    ProducerStepKeepsInv(signaled, Count);
    ProducerStepKeepsInv(Do(signaled, Count), Publish);
  }

  /** Turns of the loop are protocol steps: the invariant behind every fence theorem survives them. */
  lemma {:induction false} CyclesKeepInv(p: Producer, n: nat)
    requires ProducerInv(p) && p.pc.Idle? && p.fenceValue + n < U64_LIMIT
    ensures ProducerInv(Cycles(p, n)) && Advances(p, Cycles(p, n))
    ensures Cycles(p, n).infoFence == p.infoFence + n
  {
    if n > 0 {
      CyclesKeepInv(p, n - 1);
      CycleKeepsInv(Cycles(p, n - 1));
    }
  }
}
