/** One video frame on the processing canvas and what `applyMaskEffect` and
    `processFrame` do to it.  The canvas calls are modelled by their
    documented effect on the frame's pixels: `getImageData` copies a
    rectangle out (pixels outside the canvas read as transparent black),
    `putImageData` copies a region back in (pixels outside the canvas are
    dropped), and `fillRect` with opaque black overwrites the covered pixels. */
module Canvas {
  import opened Pixels
  import opened Masks
  import BoxBlur
  import Pixelate

  /** A frame of `width` by `height` pixels, RGBA8, row by row. */
  datatype Frame = Frame(width: nat, height: nat, data: seq<byte>)

  predicate ValidFrame(f: Frame) {
    |f.data| == f.width * f.height * 4
  }

  /** Channel `c` of pixel (x, y) of the frame. */
  function FrameAt(f: Frame, x: int, y: int, c: int): (v: byte)
    requires ValidFrame(f) && InRegion(f.width, f.height, x, y, c)
  {
    At(f.data, f.width, f.height, x, y, c)
  }

  /** Two frames of the same size that agree on every sample are equal. */
  lemma SameFrame(f: Frame, g: Frame)
    requires ValidFrame(f) && ValidFrame(g) && f.width == g.width && f.height == g.height
    requires forall x, y, c | InRegion(f.width, f.height, x, y, c) :: FrameAt(f, x, y, c) == FrameAt(g, x, y, c)
    ensures f == g
  {
    SameSamples(f.data, g.data, f.width, f.height);
  }

  /** A rectangle of whole pixels: left, top, width, height. */
  datatype Area = Area(x: int, y: int, w: nat, h: nat)

  predicate InArea(a: Area, x: int, y: int) {
    a.x <= x < a.x + a.w && a.y <= y < a.y + a.h
  }

  /** The area lies entirely on the canvas. */
  predicate AreaInFrame(f: Frame, a: Area) {
    0 <= a.x && a.x + a.w <= f.width && 0 <= a.y && a.y + a.h <= f.height
  }

  /** `Math.ceil`. */
  function Ceil(r: real): (n: int)
    ensures r <= n as real < r + 1.0
  {
    -((-r).Floor)
  }

  /** The whole-pixel area a mask is applied to: corner rounded down, size
      rounded up.  It starts at or before the mask and ends less than one
      pixel before the mask's far edge, so a column (row) the mask only
      partly covers at its far edge may stay outside. */
  function RoundOut(m: Rect): (a: Area)
    requires m.width >= 0.0 && m.height >= 0.0
    ensures a.x as real <= m.x < a.x as real + 1.0 && a.y as real <= m.y < a.y as real + 1.0
    ensures m.width <= a.w as real < m.width + 1.0 && m.height <= a.h as real < m.height + 1.0
    ensures (a.x + a.w) as real > m.x + m.width - 1.0 && (a.y + a.h) as real > m.y + m.height - 1.0
  {
    Area(m.x.Floor, m.y.Floor, Ceil(m.width), Ceil(m.height))
  }

  /** `getImageData`: the samples of the area, row by row; pixels of the
      area outside the canvas read as 0. */
  function GetImageData(f: Frame, a: Area): (s: seq<byte>)
    requires ValidFrame(f)
    ensures |s| == a.w * a.h * 4
  {
    seq(a.w * a.h * 4, k requires 0 <= k < a.w * a.h * 4 =>
      Decode(a.w, a.h, k);
      var x, y := a.x + X(a.w, k), a.y + Y(a.w, k);
      if 0 <= x < f.width && 0 <= y < f.height then FrameAt(f, x, y, Ch(k)) else 0)
  }

  /** Sample form of `GetImageData`. */
  lemma GetImageDataAt(f: Frame, a: Area, x: int, y: int, c: int)
    requires ValidFrame(f) && InRegion(a.w, a.h, x, y, c)
    ensures At(GetImageData(f, a), a.w, a.h, x, y, c) ==
      if InRegion(f.width, f.height, a.x + x, a.y + y, c) then FrameAt(f, a.x + x, a.y + y, c) else 0
  {
    Encode(a.w, a.h, x, y, c);
    IdxInBounds(a.w, a.h, x, y, c);
  }

  /** `putImageData`: the region's samples replace the frame's over the
      area, clipped to the canvas. */
  function PutImageData(f: Frame, region: seq<byte>, a: Area): (g: Frame)
    requires ValidFrame(f) && |region| == a.w * a.h * 4
    ensures ValidFrame(g) && g.width == f.width && g.height == f.height
  {
    Frame(f.width, f.height,
      seq(|f.data|, k requires 0 <= k < |f.data| =>
        Decode(f.width, f.height, k);
        var x, y := X(f.width, k), Y(f.width, k);
        if InArea(a, x, y) then At(region, a.w, a.h, x - a.x, y - a.y, Ch(k)) else f.data[k]))
  }

  /** Sample form of `PutImageData`: inside the area the region's sample,
      elsewhere the old one. */
  lemma PutImageDataAt(f: Frame, region: seq<byte>, a: Area, x: int, y: int, c: int)
    requires ValidFrame(f) && |region| == a.w * a.h * 4 && InRegion(f.width, f.height, x, y, c)
    ensures FrameAt(PutImageData(f, region, a), x, y, c) ==
      if InArea(a, x, y) then At(region, a.w, a.h, x - a.x, y - a.y, c) else FrameAt(f, x, y, c)
  {
    Encode(f.width, f.height, x, y, c);
    IdxInBounds(f.width, f.height, x, y, c);
  }

  /** Opaque black, channel by channel. */
  function Black(c: int): (v: byte) {
    if c == 3 then 255 else 0
  }

  /** `fillRect` in opaque black over the area, clipped to the canvas. */
  function FillBlack(f: Frame, a: Area): (g: Frame)
    requires ValidFrame(f)
    ensures ValidFrame(g) && g.width == f.width && g.height == f.height
  {
    Frame(f.width, f.height,
      seq(|f.data|, k requires 0 <= k < |f.data| =>
        if InArea(a, X(f.width, k), Y(f.width, k)) then Black(Ch(k)) else f.data[k]))
  }

  /** Sample form of `FillBlack`. */
  lemma FillBlackAt(f: Frame, a: Area, x: int, y: int, c: int)
    requires ValidFrame(f) && InRegion(f.width, f.height, x, y, c)
    ensures FrameAt(FillBlack(f, a), x, y, c) == if InArea(a, x, y) then Black(c) else FrameAt(f, x, y, c)
  {
    Encode(f.width, f.height, x, y, c);
    IdxInBounds(f.width, f.height, x, y, c);
  }

  /** Writing back what was read changes nothing. */
  lemma PutGetRoundTrip(f: Frame, a: Area)
    requires ValidFrame(f)
    ensures PutImageData(f, GetImageData(f, a), a) == f
  {
    var g := PutImageData(f, GetImageData(f, a), a);
    forall x, y, c | InRegion(f.width, f.height, x, y, c) ensures FrameAt(g, x, y, c) == FrameAt(f, x, y, c) {
      PutImageDataAt(f, GetImageData(f, a), a, x, y, c);
      if InArea(a, x, y) {
        GetImageDataAt(f, a, x - a.x, y - a.y, c);
      }
    }
    SameFrame(g, f);
  }

  /** Reading back an area that lies on the canvas gives what was written. */
  lemma GetPutRoundTrip(f: Frame, region: seq<byte>, a: Area)
    requires ValidFrame(f) && |region| == a.w * a.h * 4 && AreaInFrame(f, a)
    ensures GetImageData(PutImageData(f, region, a), a) == region
  {
    var g := PutImageData(f, region, a);
    forall x, y, c | InRegion(a.w, a.h, x, y, c) ensures At(GetImageData(g, a), a.w, a.h, x, y, c) == At(region, a.w, a.h, x, y, c) {
      GetImageDataAt(g, a, x, y, c);
      PutImageDataAt(f, region, a, a.x + x, a.y + y, c);
    }
    SameSamples(GetImageData(g, a), region, a.w, a.h);
  }

  /** Filling twice is filling once. */
  lemma FillBlackIdempotent(f: Frame, a: Area)
    requires ValidFrame(f)
    ensures FillBlack(FillBlack(f, a), a) == FillBlack(f, a)
  {
    var g := FillBlack(f, a);
    forall x, y, c | InRegion(f.width, f.height, x, y, c) ensures FrameAt(FillBlack(g, a), x, y, c) == FrameAt(g, x, y, c) {
      FillBlackAt(g, a, x, y, c);
      FillBlackAt(f, a, x, y, c);
    }
    SameFrame(FillBlack(g, a), g);
  }

  /** `applyMaskEffect` for one mask: the frame after the chosen effect is
      applied to the mask's rounded area. */
  function Masked(f: Frame, m: Rect, t: MaskType, intensity: nat): (g: Frame)
    requires ValidFrame(f) && Admitted(m)
    ensures ValidFrame(g) && g.width == f.width && g.height == f.height
  {
    var a := RoundOut(m);
    match t
    case Blur => PutImageData(f, BoxBlur.BlurSeq(GetImageData(f, a), a.w, a.h, intensity), a)
    case Pixelate => PutImageData(f, Pixelate.PixelateSeq(GetImageData(f, a), a.w, a.h, Pixelate.PixelSize(intensity)), a)
    case Solid => FillBlack(f, a)
  }

  /** Whatever the effect, pixels outside the mask's rounded area keep their values. */
  lemma MaskedOutsideUnchanged(f: Frame, m: Rect, t: MaskType, intensity: nat, x: int, y: int, c: int)
    requires ValidFrame(f) && Admitted(m) && InRegion(f.width, f.height, x, y, c) && !InArea(RoundOut(m), x, y)
    ensures FrameAt(Masked(f, m, t, intensity), x, y, c) == FrameAt(f, x, y, c)
  {
    var a := RoundOut(m);
    match t
    case Blur => PutImageDataAt(f, BoxBlur.BlurSeq(GetImageData(f, a), a.w, a.h, intensity), a, x, y, c);
    case Pixelate => PutImageDataAt(f, Pixelate.PixelateSeq(GetImageData(f, a), a.w, a.h, Pixelate.PixelSize(intensity)), a, x, y, c);
    case Solid => FillBlackAt(f, a, x, y, c);
  }

  /** Blurring an on-canvas area of one uniform colour leaves the frame as it was. */
  lemma BlurMaskUniform(f: Frame, m: Rect, intensity: nat, color: seq<byte>)
    requires ValidFrame(f) && Admitted(m) && AreaInFrame(f, RoundOut(m)) && |color| == 4
    requires forall x, y, c | InRegion(f.width, f.height, x, y, c) && InArea(RoundOut(m), x, y) :: FrameAt(f, x, y, c) == color[c]
    ensures Masked(f, m, Blur, intensity) == f
  {
    var a := RoundOut(m);
    var r := GetImageData(f, a);
    forall x, y, c | InRegion(a.w, a.h, x, y, c) ensures At(r, a.w, a.h, x, y, c) == color[c] {
      GetImageDataAt(f, a, x, y, c);
    }
    BoxBlur.BlurUniform(r, a.w, a.h, intensity, color);
    PutGetRoundTrip(f, a);
  }

  /** Pixelating the same on-canvas mask twice gives the same frame as once. */
  lemma PixelateMaskTwice(f: Frame, m: Rect, intensity: nat)
    requires ValidFrame(f) && Admitted(m) && AreaInFrame(f, RoundOut(m))
    ensures Masked(Masked(f, m, Pixelate, intensity), m, Pixelate, intensity) == Masked(f, m, Pixelate, intensity)
  {
    var a := RoundOut(m);
    var p := Pixelate.PixelSize(intensity);
    var once := Pixelate.PixelateSeq(GetImageData(f, a), a.w, a.h, p);
    var g := PutImageData(f, once, a);
    GetPutRoundTrip(f, once, a);
    Pixelate.PixelateIdempotent(GetImageData(f, a), a.w, a.h, p);
    PutGetRoundTrip(g, a);
  }

  /** `processFrame` after the frame is drawn: the masks applied in list
      order, each to the result of the previous one. */
  function MaskedAll(f: Frame, masks: seq<Rect>, t: MaskType, intensity: nat): (g: Frame)
    requires ValidFrame(f) && AllAdmitted(masks)
    ensures ValidFrame(g) && g.width == f.width && g.height == f.height
    decreases |masks|
  {
    if masks == [] then f else MaskedAll(Masked(f, masks[0], t, intensity), masks[1..], t, intensity)
  }

  /** Applying a list of masks is applying its first part, then the rest. */
  lemma {:induction false} MaskedAllAppend(f: Frame, ms: seq<Rect>, ns: seq<Rect>, t: MaskType, intensity: nat)
    requires ValidFrame(f) && AllAdmitted(ms) && AllAdmitted(ns)
    ensures AllAdmitted(ms + ns)
    ensures MaskedAll(f, ms + ns, t, intensity) == MaskedAll(MaskedAll(f, ms, t, intensity), ns, t, intensity)
    decreases |ms|
  {
    assert forall i :: 0 <= i < |ms + ns| ==> (ms + ns)[i] == if i < |ms| then ms[i] else ns[i - |ms|];
    if ms != [] {
      var f' := Masked(f, ms[0], t, intensity);
      assert (ms + ns)[0] == ms[0] && (ms + ns)[1..] == ms[1..] + ns;
      MaskedAllAppend(f', ms[1..], ns, t, intensity);
      assert MaskedAll(f, ms + ns, t, intensity) == MaskedAll(f', ms[1..] + ns, t, intensity);
      assert MaskedAll(f, ms, t, intensity) == MaskedAll(f', ms[1..], t, intensity);
    } else {
      assert ms + ns == ns;
    }
  }

  /** Some mask of the list covers pixel (x, y) once rounded. */
  predicate Covered(masks: seq<Rect>, x: int, y: int)
    requires AllAdmitted(masks)
  {
    exists i :: 0 <= i < |masks| && InArea(RoundOut(masks[i]), x, y)
  }

  /** With solid masks, a pixel of the output is opaque black exactly when
      some mask covers it; every other pixel is the drawn frame's. */
  lemma {:induction false} SolidMasksExact(f: Frame, masks: seq<Rect>, intensity: nat, x: int, y: int, c: int)
    requires ValidFrame(f) && AllAdmitted(masks) && InRegion(f.width, f.height, x, y, c)
    ensures FrameAt(MaskedAll(f, masks, Solid, intensity), x, y, c) == if Covered(masks, x, y) then Black(c) else FrameAt(f, x, y, c)
    decreases |masks|
  {
    if masks != [] {
      var f' := Masked(f, masks[0], Solid, intensity);
      SolidMasksExact(f', masks[1..], intensity, x, y, c);
      FillBlackAt(f, RoundOut(masks[0]), x, y, c);
      if Covered(masks[1..], x, y) {
        var i :| 0 <= i < |masks[1..]| && InArea(RoundOut(masks[1..][i]), x, y);
        assert InArea(RoundOut(masks[i + 1]), x, y);
      }
      if Covered(masks, x, y) && !InArea(RoundOut(masks[0]), x, y) {
        var i :| 0 <= i < |masks| && InArea(RoundOut(masks[i]), x, y);
        assert InArea(RoundOut(masks[1..][i - 1]), x, y);
      }
    }
  }

  /** The mask effect on one frame, on a scratch region buffer as the
      component does it: read the area, run the filter in place, write it back. */
  method ApplyMaskEffect(f: Frame, m: Rect, t: MaskType, intensity: nat) returns (g: Frame)
    requires ValidFrame(f) && Admitted(m)
    ensures g == Masked(f, m, t, intensity)
  {
    var a := RoundOut(m);
    if t == Solid {
      g := FillBlack(f, a);
    } else {
      var region := GetImageData(f, a);
      var data := new byte[|region|](i requires 0 <= i < |region| => region[i]);
      assert data[..] == region;
      if t == Blur {
        BoxBlur.Blur(data, a.w, a.h, intensity);
      } else {
        Pixelate.Pixelate(data, a.w, a.h, intensity);
      }
      g := PutImageData(f, data[..], a);
    }
  }

  /** `processFrame`: every mask of the list, in order, on the drawn frame. */
  method ProcessFrame(f: Frame, masks: seq<Rect>, t: MaskType, intensity: nat) returns (g: Frame)
    requires ValidFrame(f) && AllAdmitted(masks)
    ensures g == MaskedAll(f, masks, t, intensity)
  {
    g := f;
    for i := 0 to |masks|
      invariant ValidFrame(g) && g == MaskedAll(f, masks[..i], t, intensity)
    {
      MaskedAllAppend(f, masks[..i], [masks[i]], t, intensity);
      assert masks[..i + 1] == masks[..i] + [masks[i]];
      g := ApplyMaskEffect(g, masks[i], t, intensity);
    }
    assert masks[..|masks|] == masks;
  }
}
