/** chromecapture: which part of a captured window is published, over all layout, resize and frame events. */
module Crop {
  import opened Words
  import opened Wire
  import Fence
  import Publication

  // LONG, and the sizes a frame pool can have
  type long = x: int | -0x8000_0000 <= x < 0x8000_0000
  type extent = x: int | 0 < x < 0x8000_0000 witness 1

  datatype Bounds = Bounds(left: long, top: long, right: long, bottom: long)

  /** What the window system answers: the frame's bounds, the renderer child's if found, the caption style, the DPI. */
  datatype Layout = Layout(window: Bounds, render: Option<Bounds>, caption: bool, dpi: uint32)

  datatype Area = Area(x: uint32, y: uint32, w: uint32, h: uint32)

  predicate IsLong(x: int) { -0x8000_0000 <= x < 0x8000_0000 }

  /** The coordinate differences are LONGs, without which the source's subtractions are undefined. */
  predicate Measurable(l: Layout) {
    match l.render
    case None => true
    case Some(r) =>
      && IsLong(r.left - l.window.left) && IsLong(r.top - l.window.top)
      && IsLong(r.right - l.window.left) && IsLong(r.bottom - l.window.top)
      && IsLong(r.right - r.left) && IsLong(r.bottom - r.top)
  }

  // ---- the pixels meant ----------------------------------------------------

  predicate InArea(a: Area, px: int, py: int) { a.x <= px < a.x + a.w && a.y <= py < a.y + a.h }

  predicate InPool(poolW: extent, poolH: extent, px: int, py: int) { 0 <= px < poolW && 0 <= py < poolH }

  predicate InChild(l: Layout, px: int, py: int) {
    && l.render.Some?
    && l.render.value.left <= l.window.left + px < l.render.value.right
    && l.render.value.top <= l.window.top + py < l.render.value.bottom
  }

  predicate Meet(l: Layout, poolW: extent, poolH: extent) {
    && l.render.Some?
    && Max(l.render.value.left - l.window.left, 0) < Min(l.render.value.right - l.window.left, poolW)
    && Max(l.render.value.top - l.window.top, 0) < Min(l.render.value.bottom - l.window.top, poolH)
  }

  // 88u * dpi / 96u
  function TopCrop(dpi: uint32): uint32 { 88 * dpi % U32_LIMIT / 96 }

  function Viewport(l: Layout, poolW: extent, poolH: extent): (a: Area)
    ensures 0 < a.w <= poolW - a.x && 0 < a.h <= poolH - a.y
    ensures forall px, py :: InArea(a, px, py) <==>
              && InPool(poolW, poolH, px, py)
              && if Meet(l, poolW, poolH) then InChild(l, px, py)
                 else var top := 88 * l.dpi % 0x1_0000_0000 / 96; !l.caption || top >= poolH || py >= top
  {
    if Meet(l, poolW, poolH) then
      var x, y := Max(l.render.value.left - l.window.left, 0), Max(l.render.value.top - l.window.top, 0);
      Area(x, y, Min(l.render.value.right - l.window.left, poolW) - x,
                 Min(l.render.value.bottom - l.window.top, poolH) - y)
    else if l.caption && TopCrop(l.dpi) < poolH then
      Area(0, TopCrop(l.dpi), poolW, poolH - TopCrop(l.dpi))
    else
      Area(0, 0, poolW, poolH)
  }

  /** The pixels chosen are those of the child inside the pool whenever there are any, and always pixels of the pool. */
  lemma {:induction false} ViewportIsIntersection(l: Layout, poolW: extent, poolH: extent)
    ensures Meet(l, poolW, poolH) <==> exists px, py :: InPool(poolW, poolH, px, py) && InChild(l, px, py)
    ensures Meet(l, poolW, poolH) ==> forall px, py ::
              InArea(Viewport(l, poolW, poolH), px, py) <==> InPool(poolW, poolH, px, py) && InChild(l, px, py)
    ensures forall px, py :: InArea(Viewport(l, poolW, poolH), px, py) ==> InPool(poolW, poolH, px, py)
  {
    if Meet(l, poolW, poolH) {
      var a := Viewport(l, poolW, poolH);
      assert InPool(poolW, poolH, a.x, a.y) && InChild(l, a.x, a.y);
    }
  }

  /**
   * Without such a child the pool is kept, except that a window with a caption loses its top 88 rows, scaled to the
   * DPI in 32 bits, when the pool is higher than that.
   */
  lemma {:induction false} FallbackCutsTheTop(l: Layout, poolW: extent, poolH: extent, px: int, py: int)
    requires forall qx, qy :: InPool(poolW, poolH, qx, qy) ==> !InChild(l, qx, qy)
    ensures InArea(Viewport(l, poolW, poolH), px, py) <==>
            && 0 <= px < poolW && 0 <= py < poolH
            && var top := 88 * l.dpi % 0x1_0000_0000 / 96;
               !l.caption || top >= poolH || py >= top
  {
    ViewportIsIntersection(l, poolW, poolH);
  }

  /** At 96 DPI a captioned window of 1000 by 800 without a renderer child loses 88 rows, a bare one none. */
  lemma {:induction false} FallbackAt96()
    ensures Viewport(Layout(Bounds(0, 0, 1000, 800), None, true, 96), 1000, 800) == Area(0, 88, 1000, 712)
    ensures Viewport(Layout(Bounds(0, 0, 1000, 800), None, false, 96), 1000, 800) == Area(0, 0, 1000, 800)
    ensures Viewport(Layout(Bounds(0, 0, 1000, 88), None, true, 96), 1000, 88) == Area(0, 0, 1000, 88)
  {
    assert TopCrop(96) == 88;
  }

  /** The pixels fix a non-empty area. */
  lemma {:induction false} SamePixelsSameArea(a: Area, b: Area)
    requires a.w > 0 && a.h > 0 && forall px, py :: InArea(a, px, py) <==> InArea(b, px, py)
    ensures a == b
  {
    assert InArea(a, a.x, a.y) && InArea(a, a.x + a.w - 1, a.y + a.h - 1);
    assert InArea(b, b.x, b.y) && InArea(b, b.x + b.w - 1, b.y + b.h - 1);
    assert !InArea(b, a.x + a.w, a.y) && !InArea(b, a.x, a.y + a.h);
  }

  /** Two intersections and a fall-back, by assignment to the coordinates; no LONG overflows on the way. */
  method ComputeCrop(l: Layout, poolW: extent, poolH: extent) returns (crop: Area)
    requires Measurable(l)
    ensures crop == Viewport(l, poolW, poolH)
    ensures (exists qx, qy :: InPool(poolW, poolH, qx, qy) && InChild(l, qx, qy)) ==>
              forall px, py :: InArea(crop, px, py) <==> InPool(poolW, poolH, px, py) && InChild(l, px, py)
    ensures !(exists qx, qy :: InPool(poolW, poolH, qx, qy) && InChild(l, qx, qy)) ==>
              forall px, py :: InArea(crop, px, py) <==>
                && InPool(poolW, poolH, px, py)
                && var top := 88 * l.dpi % 0x1_0000_0000 / 96;
                   !l.caption || top >= poolH || py >= top
  {
    ViewportIsIntersection(l, poolW, poolH);
    crop := Area(0, 0, poolW, poolH);
    if l.render.Some? {
      var wr, rr := l.window, l.render.value;
      var dx: long, dy: long := rr.left - wr.left, rr.top - wr.top;
      var dw: long, dh: long := rr.right - rr.left, rr.bottom - rr.top;
      if dx < 0 { dw := dw + dx; dx := 0; }
      if dy < 0 { dh := dh + dy; dy := 0; }
      if dx + dw > poolW { dw := poolW - dx; }
      if dy + dh > poolH { dh := poolH - dy; }
      if dw > 0 && dh > 0 {
        return Area(dx, dy, dw, dh);
      }
    }
    if !l.caption { return; }
    var topCrop: uint32 := 88 * l.dpi % U32_LIMIT / 96;
    if topCrop < poolH {
      crop := Area(0, topCrop, poolW, poolH - topCrop);
    }
  }

  // ---- what an event does -----------------------------------------------------

  datatype Surface = Surface(w: uint32, h: uint32)

  /** One copy: the box taken from a surface, and the size consumers are told at that moment. */
  datatype CopiedBox = CopiedBox(left: uint32, top: uint32, right: uint32, bottom: uint32, surface: Surface,
                                 width: uint32, height: uint32)

  datatype Event = NoFrame | Frame(width: long, height: long, layout: Layout, surface: Option<Surface>)

  datatype View = View(poolW: extent, poolH: extent, crop: Area, infoWidth: uint32, infoHeight: uint32, overlay: Area,
                       copies: seq<CopiedBox>)

  // static_cast<UINT>
  function AsUint(x: long): uint32 { if x < 0 then x + U32_LIMIT else x }

  function Clip(at: uint32, length: uint32, limit: uint32): (r: uint32)
    ensures r <= length && r <= limit && (r > 0 ==> at + r <= limit)
    ensures at + length <= limit ==> r == length
    ensures at < limit < at + length ==> at + r == limit
    ensures at >= limit ==> r == 0
  {
    if at >= limit then 0 else if at + length > limit then limit - at else length
  }

  function Clipped(a: Area, tex: Surface): Area { a.(w := Clip(a.x, a.w, tex.w), h := Clip(a.y, a.h, tex.h)) }

  function Shown(v: View, a: Area): View {
    if a == v.crop then v else v.(crop := a, infoWidth := a.w, infoHeight := a.h, overlay := a)
  }

  function Taken(v: View, s: Surface): seq<CopiedBox> {
    var x2, y2 := Min(v.crop.x + v.crop.w, s.w), Min(v.crop.y + v.crop.h, s.h);
    if v.crop.x >= x2 || v.crop.y >= y2 then []
    else [CopiedBox(v.crop.x, v.crop.y, x2, y2, s, v.infoWidth, v.infoHeight)]
  }

  predicate Resizes(v: View, e: Event)
    requires e.Frame?
  {
    AsUint(e.width) != v.poolW || AsUint(e.height) != v.poolH
  }

  function Step(v: View, e: Event, tex: Surface): View {
    if e.NoFrame? then v
    else if Resizes(v, e) then
      var w: extent, h: extent := Max(e.width, 1), Max(e.height, 1);
      Shown(v.(poolW := w, poolH := h), Clipped(Viewport(e.layout, w, h), tex))
    else
      var u := Shown(v, Clipped(Viewport(e.layout, v.poolW, v.poolH), tex));
      if e.surface.None? then u else u.(copies := u.copies + Taken(u, e.surface.value))
  }

  // ---- the invariant ------------------------------------------------------------

  predicate BoxFits(c: CopiedBox, tex: Surface) {
    && c.left < c.right <= c.surface.w && c.top < c.bottom <= c.surface.h
    && c.right - c.left <= c.width <= tex.w && c.bottom - c.top <= c.height <= tex.h
  }

  ghost predicate Inv(v: View, tex: Surface) {
    && v.crop.x + v.crop.w <= v.poolW && v.crop.y + v.crop.h <= v.poolH
    && v.infoWidth == v.crop.w <= tex.w && v.infoHeight == v.crop.h <= tex.h
    && v.overlay == v.crop
    && forall i :: 0 <= i < |v.copies| ==> BoxFits(v.copies[i], tex)
  }

  lemma {:induction false} StepKeepsInv(v: View, e: Event, tex: Surface)
    requires Inv(v, tex)
    ensures Inv(Step(v, e, tex), tex) && v.copies <= Step(v, e, tex).copies
  {
  }

  function Run(v: View, events: seq<Event>, tex: Surface): View {
    if events == [] then v else Step(Run(v, events[..|events| - 1], tex), events[|events| - 1], tex)
  }

  lemma {:induction false} RunKeepsInv(v: View, events: seq<Event>, tex: Surface)
    requires Inv(v, tex)
    ensures Inv(Run(v, events, tex), tex)
  {
    if events != [] {
      RunKeepsInv(v, events[..|events| - 1], tex);
      StepKeepsInv(Run(v, events[..|events| - 1], tex), events[|events| - 1], tex);
    }
  }

  function Started(l: Layout, poolW: extent, poolH: extent): View {
    var a := Viewport(l, poolW, poolH);
    View(poolW, poolH, a, a.w, a.h, a, [])
  }

  // The texture is as large as the monitor, and larger if the first crop is.
  function Texture(l: Layout, poolW: extent, poolH: extent, monitor: Surface): (t: Surface)
    ensures Viewport(l, poolW, poolH).w <= t.w && Viewport(l, poolW, poolH).h <= t.h
    ensures monitor.w <= t.w && monitor.h <= t.h
    ensures t.w == monitor.w || t.w == Viewport(l, poolW, poolH).w
    ensures t.h == monitor.h || t.h == Viewport(l, poolW, poolH).h
  {
    var a := Viewport(l, poolW, poolH);
    Surface(Max(a.w, monitor.w), Max(a.h, monitor.h))
  }

  /** Whatever happens after start-up, the published size is the crop's and fits the texture, and every copy fits. */
  lemma {:induction false} AnyRunPublishesSafely(l: Layout, poolW: extent, poolH: extent, monitor: Surface,
                                                 events: seq<Event>)
    ensures var tex := Texture(l, poolW, poolH, monitor); Inv(Run(Started(l, poolW, poolH), events, tex), tex)
  {
    RunKeepsInv(Started(l, poolW, poolH), events, Texture(l, poolW, poolH, monitor));
  }

  // ---- one event, by pixels -----------------------------------------------------

  /** After a frame event the crop is the part of the viewport within the texture's extent, seen from the window. */
  lemma {:induction false} CropIsViewportInTexture(v: View, e: Event, tex: Surface, px: int, py: int)
    requires e.Frame?
    ensures var u := Step(v, e, tex);
            InArea(u.crop, px, py) <==>
            InArea(Viewport(e.layout, u.poolW, u.poolH), px, py) && px < tex.w && py < tex.h
  {
    var u := Step(v, e, tex);
    assert u.crop == Clipped(Viewport(e.layout, u.poolW, u.poolH), tex);
  }

  /** A frame whose size differs from the pool's only resizes the pool, to one pixel each way at least. */
  lemma {:induction false} ResizeIs(v: View, e: Event, tex: Surface)
    requires e.Frame?
    ensures var u := Step(v, e, tex);
            if e.width % 0x1_0000_0000 == v.poolW && e.height % 0x1_0000_0000 == v.poolH
            then u.poolW == v.poolW && u.poolH == v.poolH
            else && u.poolW == (if e.width > 0 then e.width else 1)
                 && u.poolH == (if e.height > 0 then e.height else 1)
                 && u.copies == v.copies
    ensures e.surface.None? ==> Step(v, e, tex).copies == v.copies
  {
    assert AsUint(e.width) == e.width % 0x1_0000_0000 && AsUint(e.height) == e.height % 0x1_0000_0000;
  }

  /** What a steady frame copies: the pixels of the crop that the surface has, if there are any. */
  lemma {:induction false} CopyIsCropInSurface(v: View, e: Event, tex: Surface)
    requires e.Frame? && e.surface.Some?
    requires e.width % 0x1_0000_0000 == v.poolW && e.height % 0x1_0000_0000 == v.poolH
    ensures var u, s := Step(v, e, tex), e.surface.value;
            if forall px, py :: InArea(u.crop, px, py) ==> px >= s.w || py >= s.h
            then u.copies == v.copies
            else && |u.copies| == |v.copies| + 1 && v.copies <= u.copies
                 && var c := u.copies[|v.copies|];
                    && c.surface == s && c.width == u.infoWidth && c.height == u.infoHeight
                    && forall px, py :: c.left <= px < c.right && c.top <= py < c.bottom <==>
                                        InArea(u.crop, px, py) && px < s.w && py < s.h
  {
    assert AsUint(e.width) == e.width % 0x1_0000_0000 && AsUint(e.height) == e.height % 0x1_0000_0000;
    var u := Step(v, e, tex);
    if u.crop.w > 0 && u.crop.h > 0 {
      assert InArea(u.crop, u.crop.x, u.crop.y);
    }
  }

  // ---- what is lost ---------------------------------------------------------------

  /**
   * The published width is as much of the viewport as the texture could hold exactly when the viewport starts at the
   * window's edge or ends within the texture's width: the copy goes to the texture's corner, but the clipping counts
   * from the viewport's place in the window.
   */
  lemma {:induction false} WidthIsKeptIff(v: View, e: Event, tex: Surface)
    requires Inv(v, tex) && e.Frame? && tex.w > 0
    ensures var u := Step(v, e, tex);
            var a := Viewport(e.layout, u.poolW, u.poolH);
            u.infoWidth == Min(a.w, tex.w) <==> a.x == 0 || a.x + a.w <= tex.w
  {
    var u := Step(v, e, tex);
    var a := Viewport(e.layout, u.poolW, u.poolH);
    assert u.crop == Clipped(a, tex);
  }

  /** A frame right after start-up leaves the advertised size alone exactly when the crop ends within the texture. */
  lemma {:induction false} FirstFrameKeepsSizeIff(l: Layout, poolW: extent, poolH: extent, monitor: Surface,
                                                  s: Option<Surface>)
    ensures var v, tex := Started(l, poolW, poolH), Texture(l, poolW, poolH, monitor);
            var u := Step(v, Frame(poolW, poolH, l, s), tex);
            u.infoWidth == v.infoWidth && u.infoHeight == v.infoHeight
            <==> v.crop.x + v.crop.w <= tex.w && v.crop.y + v.crop.h <= tex.h
  {
  }

  /**
   * A window 2000 pixels wide with a strip of 100 on its left, on a monitor of 1900: the viewport of 1900 fits the
   * texture and is published whole at start-up, and the first frame, with nothing changed, cuts it to 1800.
   */
  lemma {:induction false} FirstFrameCutsTheCrop()
    ensures var l := Layout(Bounds(0, 0, 2000, 1000), Some(Bounds(100, 80, 2000, 1000)), true, 96);
            var tex := Texture(l, 2000, 1000, Surface(1900, 1080));
            var v := Started(l, 2000, 1000);
            var u := Step(v, Frame(2000, 1000, l, Some(Surface(2000, 1000))), tex);
            && tex == Surface(1900, 1080) && v.infoWidth == 1900 && u.infoWidth == 1800
            && u.copies == [CopiedBox(100, 80, 1900, 1000, Surface(2000, 1000), 1800, 920)]
            && u.infoWidth != Min(Viewport(l, 2000, 1000).w, tex.w)
  {
  }

  /** A steady frame is copied exactly when the crop starts inside its surface and kept some size. */
  lemma {:induction false} SteadyFrameIsCopiedIff(v: View, e: Event, tex: Surface)
    requires Inv(v, tex) && e.Frame? && !Resizes(v, e) && e.surface.Some?
    ensures var u, s := Step(v, e, tex), e.surface.value;
            |u.copies| == |v.copies| +
              if u.crop.w > 0 && u.crop.h > 0 && u.crop.x < s.w && u.crop.y < s.h then 1 else 0
  {
  }

  /** The copied box has the advertised size exactly when the surface reaches to the end of the crop. */
  lemma {:induction false} CopyIsWholeIff(v: View, s: Surface, tex: Surface)
    requires Inv(v, tex) && Taken(v, s) != []
    ensures var c := Taken(v, s)[0];
            c.right - c.left == v.infoWidth && c.bottom - c.top == v.infoHeight
            <==> v.crop.x + v.crop.w <= s.w && v.crop.y + v.crop.h <= s.h
  {
  }

  // ---- the program's variables ------------------------------------------------------

  class ChromeCapture {
    const tex: Surface
    var poolW: extent
    var poolH: extent
    var crop: Area
    var infoWidth: uint32
    var infoHeight: uint32
    var overlay: Area
    var copies: seq<CopiedBox>
    var fenceValue: uint64
    var queue: seq<Fence.ProducerCmd>
    var infoFrames: uint32
    var infoFence: uint64

    ghost function Abs(): View
      reads this
    {
      View(poolW, poolH, crop, infoWidth, infoHeight, overlay, copies)
    }

    ghost function AsProducer(started: nat, written: nat, fence: nat): Fence.Producer
      reads this
    {
      Fence.Producer(Fence.Idle, fenceValue, queue, started, written, fence, infoFrames, infoFence)
    }

    ghost predicate Valid()
      reads this
    {
      Inv(Abs(), tex)
    }

    constructor (l: Layout, itemW: extent, itemH: extent, monitor: Surface)
      requires Measurable(l)
      ensures Valid() && tex == Texture(l, itemW, itemH, monitor)
      ensures Abs() == Started(l, itemW, itemH) && AsProducer(0, 0, 0) == Fence.PRODUCER_INIT
    {
      var a := ComputeCrop(l, itemW, itemH);
      poolW, poolH, crop, overlay := itemW, itemH, a, a;
      tex := Surface(Max(a.w, monitor.w), Max(a.h, monitor.h));
      infoWidth, infoHeight := a.w, a.h;
      copies, fenceValue, queue, infoFrames, infoFence := [], 0, [], 0, 0;
    }

    method ApplyCrop(a: Area)
      requires a.x + a.w < U32_LIMIT && a.y + a.h < U32_LIMIT
      modifies `crop, `infoWidth, `infoHeight, `overlay
      ensures Abs() == Shown(old(Abs()), Clipped(a, tex))
    {
      var nw, nh := a.w, a.h;
      if a.x >= tex.w { nw := 0; } else if a.x + nw > tex.w { nw := tex.w - a.x; }
      if a.y >= tex.h { nh := 0; } else if a.y + nh > tex.h { nh := tex.h - a.y; }
      if a.x == crop.x && a.y == crop.y && nw == crop.w && nh == crop.h { return; }
      crop := Area(a.x, a.y, nw, nh);
      infoWidth, infoHeight := crop.w, crop.h;
      overlay := crop;
    }

    method RecomputeCrop(l: Layout)
      requires Measurable(l)
      modifies `crop, `infoWidth, `infoHeight, `overlay
      ensures Abs() == Shown(old(Abs()), Clipped(Viewport(l, poolW, poolH), tex))
    {
      var a := ComputeCrop(l, poolW, poolH);
      ApplyCrop(a);
    }

    method Resize(width: long, height: long, l: Layout)
      requires Measurable(l)
      modifies `poolW, `poolH, `crop, `infoWidth, `infoHeight, `overlay
      ensures var w: extent, h: extent := Max(width, 1), Max(height, 1);
              Abs() == Shown(old(Abs()).(poolW := w, poolH := h), Clipped(Viewport(l, w, h), tex))
    {
      poolW, poolH := if width <= 0 then 1 else width, if height <= 0 then 1 else height;
      RecomputeCrop(l);
    }

    method OnFrameArrived(e: Event)
      requires Valid() && (e.Frame? ==> Measurable(e.layout)) && fenceValue < U64_LIMIT - 1
      modifies this
      ensures Valid() && Abs() == Step(old(Abs()), e, tex)
      ensures |copies| >= |old(copies)|
      ensures forall s, w, f :: AsProducer(s, w, f) ==
                Publication.Cycles(old(AsProducer(s, w, f)), |copies| - |old(copies)|)
    {
      StepKeepsInv(Abs(), e, tex);
      if e.NoFrame? { return; }
      if AsUint(e.width) != poolW || AsUint(e.height) != poolH {
        Resize(e.width, e.height, e.layout);
        return;
      }
      RecomputeCrop(e.layout);
      if e.surface.None? { return; }
      Publish(e.surface.value);
    }

    /** The copy, then the signal, then the fields consumers read. */
    method Publish(s: Surface)
      requires crop.x + crop.w < U32_LIMIT && crop.y + crop.h < U32_LIMIT && fenceValue < U64_LIMIT - 1
      modifies `copies, `fenceValue, `queue, `infoFrames, `infoFence
      ensures copies == old(copies) + Taken(old(Abs()), s)
      ensures forall s, w, f :: AsProducer(s, w, f) ==
                Publication.Cycles(old(AsProducer(s, w, f)), |copies| - |old(copies)|)
    {
      var x2, y2 := Min(crop.x + crop.w, s.w), Min(crop.y + crop.h, s.h);
      if crop.x >= x2 || crop.y >= y2 { return; }
      copies := copies + [CopiedBox(crop.x, crop.y, x2, y2, s, infoWidth, infoHeight)];
      queue := queue + [Fence.Copy(fenceValue + 1)];
      fenceValue := fenceValue + 1;
      queue := queue + [Fence.Signal(fenceValue)];
      infoFrames := (infoFrames + 1) % U32_LIMIT;
      infoFence := fenceValue;
    }
  }
}
