/** The blur effect of `applyMaskEffect`: a two-pass box blur over an RGBA8
    region buffer.  The horizontal pass reads the region and writes a
    temporary buffer; the vertical pass reads only the temporary buffer and
    writes back into the region.  Each output channel is the mean of the
    samples in a window of radius `radius` clipped at the region's edges,
    stored through a `Uint8ClampedArray`, i.e. rounded half to even. */
module BoxBlur {
  import opened Pixels

  /** The averaging window around position `v` of a line of `n` samples:
      positions v - r .. v + r, clipped to 0 .. n - 1, as [w.0, w.1). */
  function Window(n: int, r: int, v: int): (w: (int, int))
    requires 0 <= v < n && 0 <= r
    ensures 0 <= w.0 <= v < w.1 <= n
    ensures v - r <= w.0 && (w.0 == 0 || w.0 == v - r)
    ensures w.1 <= v + r + 1 && (w.1 == n || w.1 == v + r + 1)
  {
    (Max(0, v - r), Min(n, v + r + 1))
  }

  /** Channel `c` of pixel (x, y) after the horizontal pass over `s`. */
  function HorizontalMean(s: seq<byte>, iw: nat, ih: nat, radius: nat, x: int, y: int, c: int): (v: byte)
    requires |s| == iw * ih * 4 && InRegion(iw, ih, x, y, c)
    ensures var w := Window(iw, radius, x);
      (w.1 - w.0) * (2 * v - 1) <= 2 * RowSum(s, iw, ih, y, c, w.0, w.1) <= (w.1 - w.0) * (2 * v + 1)
  {
    var w := Window(iw, radius, x);
    var sum := RowSum(s, iw, ih, y, c, w.0, w.1);
    RowSumBounds(s, iw, ih, y, c, w.0, w.1, 0, 255);
    RoundedMeanBetween(sum, w.1 - w.0, 0, 255);
    RoundHalfEven(sum, w.1 - w.0)
  }

  /** Channel `c` of pixel (x, y) after the vertical pass over `t`. */
  function VerticalMean(t: seq<byte>, iw: nat, ih: nat, radius: nat, x: int, y: int, c: int): (v: byte)
    requires |t| == iw * ih * 4 && InRegion(iw, ih, x, y, c)
    ensures var w := Window(ih, radius, y);
      (w.1 - w.0) * (2 * v - 1) <= 2 * ColSum(t, iw, ih, x, c, w.0, w.1) <= (w.1 - w.0) * (2 * v + 1)
  {
    var w := Window(ih, radius, y);
    var sum := ColSum(t, iw, ih, x, c, w.0, w.1);
    ColSumBounds(t, iw, ih, x, c, w.0, w.1, 0, 255);
    RoundedMeanBetween(sum, w.1 - w.0, 0, 255);
    RoundHalfEven(sum, w.1 - w.0)
  }

  /** The temporary buffer the horizontal pass fills. */
  function HorizontalPassSeq(s: seq<byte>, iw: nat, ih: nat, radius: nat): (t: seq<byte>)
    requires |s| == iw * ih * 4
    ensures |t| == |s|
  {
    seq(|s|, k requires 0 <= k < |s| =>
      Decode(iw, ih, k);
      HorizontalMean(s, iw, ih, radius, X(iw, k), Y(iw, k), Ch(k)))
  }

  /** The region the vertical pass writes, computed from the temporary buffer alone. */
  function VerticalPassSeq(t: seq<byte>, iw: nat, ih: nat, radius: nat): (u: seq<byte>)
    requires |t| == iw * ih * 4
    ensures |u| == |t|
  {
    seq(|t|, k requires 0 <= k < |t| =>
      Decode(iw, ih, k);
      VerticalMean(t, iw, ih, radius, X(iw, k), Y(iw, k), Ch(k)))
  }

  /** The whole blur: the vertical pass applied to the horizontal pass's output. */
  function BlurSeq(s: seq<byte>, iw: nat, ih: nat, radius: nat): (u: seq<byte>)
    requires |s| == iw * ih * 4
    ensures |u| == |s|
  {
    VerticalPassSeq(HorizontalPassSeq(s, iw, ih, radius), iw, ih, radius)
  }

  lemma HorizontalPassAt(s: seq<byte>, iw: nat, ih: nat, radius: nat)
    requires |s| == iw * ih * 4
    ensures forall x, y, c | InRegion(iw, ih, x, y, c) ::
      At(HorizontalPassSeq(s, iw, ih, radius), iw, ih, x, y, c) == HorizontalMean(s, iw, ih, radius, x, y, c)
  {
    forall x, y, c | InRegion(iw, ih, x, y, c)
      ensures At(HorizontalPassSeq(s, iw, ih, radius), iw, ih, x, y, c) == HorizontalMean(s, iw, ih, radius, x, y, c)
    {
      Encode(iw, ih, x, y, c);
      IdxInBounds(iw, ih, x, y, c);
      var k := Idx(iw, x, y, c);
      assert HorizontalPassSeq(s, iw, ih, radius)[k] == HorizontalMean(s, iw, ih, radius, X(iw, k), Y(iw, k), Ch(k));
    }
  }

  lemma VerticalPassAt(t: seq<byte>, iw: nat, ih: nat, radius: nat)
    requires |t| == iw * ih * 4
    ensures forall x, y, c | InRegion(iw, ih, x, y, c) ::
      At(VerticalPassSeq(t, iw, ih, radius), iw, ih, x, y, c) == VerticalMean(t, iw, ih, radius, x, y, c)
  {
    forall x, y, c | InRegion(iw, ih, x, y, c)
      ensures At(VerticalPassSeq(t, iw, ih, radius), iw, ih, x, y, c) == VerticalMean(t, iw, ih, radius, x, y, c)
    {
      Encode(iw, ih, x, y, c);
      IdxInBounds(iw, ih, x, y, c);
      var k := Idx(iw, x, y, c);
      assert VerticalPassSeq(t, iw, ih, radius)[k] == VerticalMean(t, iw, ih, radius, X(iw, k), Y(iw, k), Ch(k));
    }
  }

  /** Offset form of `HorizontalPassAt` for one sample. */
  lemma HorizontalPassIdx(s: seq<byte>, iw: nat, ih: nat, radius: nat, x: int, y: int, c: int)
    requires |s| == iw * ih * 4 && InRegion(iw, ih, x, y, c)
    ensures 0 <= Idx(iw, x, y, 0) + c < |s|
    ensures HorizontalPassSeq(s, iw, ih, radius)[Idx(iw, x, y, 0) + c] == HorizontalMean(s, iw, ih, radius, x, y, c)
  {
    Encode(iw, ih, x, y, c);
    IdxInBounds(iw, ih, x, y, c);
  }

  /** Offset form of `VerticalPassAt` for one sample. */
  lemma VerticalPassIdx(t: seq<byte>, iw: nat, ih: nat, radius: nat, x: int, y: int, c: int)
    requires |t| == iw * ih * 4 && InRegion(iw, ih, x, y, c)
    ensures 0 <= Idx(iw, x, y, 0) + c < |t|
    ensures VerticalPassSeq(t, iw, ih, radius)[Idx(iw, x, y, 0) + c] == VerticalMean(t, iw, ih, radius, x, y, c)
  {
    Encode(iw, ih, x, y, c);
    IdxInBounds(iw, ih, x, y, c);
  }

  /** Horizontal pass: when every sample of the clipped row window lies in
      [m, M], so does the pixel's output. */
  lemma HorizontalMeanWithin(s: seq<byte>, iw: nat, ih: nat, radius: nat, x: int, y: int, c: int, m: int, M: int)
    requires |s| == iw * ih * 4 && InRegion(iw, ih, x, y, c)
    requires forall i :: 0 <= i < iw && x - radius <= i <= x + radius ==> m <= At(s, iw, ih, i, y, c) <= M
    ensures m <= HorizontalMean(s, iw, ih, radius, x, y, c) <= M
  {
    var w := Window(iw, radius, x);
    assert forall i :: w.0 <= i < w.1 ==> m <= At(s, iw, ih, i, y, c) <= M;
    RowSumBounds(s, iw, ih, y, c, w.0, w.1, m, M);
    RowSumBounds(s, iw, ih, y, c, w.0, w.1, 0, 255);
    var sum, n := RowSum(s, iw, ih, y, c, w.0, w.1), w.1 - w.0;
    assert n * m <= sum <= n * M;
    assert m * n <= sum <= M * n;
    RoundedMeanBetween(sum, n, m, M);
    assert HorizontalMean(s, iw, ih, radius, x, y, c) == RoundHalfEven(sum, n);
  }

  /** Vertical pass: each output lies between the minimum and the maximum of
      its clipped column window in the temporary buffer. */
  lemma VerticalMeanWithin(t: seq<byte>, iw: nat, ih: nat, radius: nat, x: int, y: int, c: int, m: int, M: int)
    requires |t| == iw * ih * 4 && InRegion(iw, ih, x, y, c)
    requires forall i :: 0 <= i < ih && y - radius <= i <= y + radius ==> m <= At(t, iw, ih, x, i, c) <= M
    ensures m <= VerticalMean(t, iw, ih, radius, x, y, c) <= M
  {
    var w := Window(ih, radius, y);
    assert forall i :: w.0 <= i < w.1 ==> m <= At(t, iw, ih, x, i, c) <= M;
    ColSumBounds(t, iw, ih, x, c, w.0, w.1, m, M);
    ColSumBounds(t, iw, ih, x, c, w.0, w.1, 0, 255);
    var sum, n := ColSum(t, iw, ih, x, c, w.0, w.1), w.1 - w.0;
    assert n * m <= sum <= n * M;
    assert m * n <= sum <= M * n;
    RoundedMeanBetween(sum, n, m, M);
    assert VerticalMean(t, iw, ih, radius, x, y, c) == RoundHalfEven(sum, n);
  }

  /** If every sample of channel `c` lies in [m, M], so does every channel-`c`
      sample of the blurred region. */
  lemma BlurWithinRange(s: seq<byte>, iw: nat, ih: nat, radius: nat, c: int, m: int, M: int)
    requires |s| == iw * ih * 4 && 0 <= c < 4
    requires forall x, y | InRegion(iw, ih, x, y, c) :: m <= At(s, iw, ih, x, y, c) <= M
    ensures forall x, y | InRegion(iw, ih, x, y, c) :: m <= At(BlurSeq(s, iw, ih, radius), iw, ih, x, y, c) <= M
  {
    var h := HorizontalPassSeq(s, iw, ih, radius);
    HorizontalPassAt(s, iw, ih, radius);
    VerticalPassAt(h, iw, ih, radius);
    forall x, y | InRegion(iw, ih, x, y, c) ensures m <= At(h, iw, ih, x, y, c) <= M {
      HorizontalMeanWithin(s, iw, ih, radius, x, y, c, m, M);
    }
    forall x, y | InRegion(iw, ih, x, y, c) ensures m <= At(BlurSeq(s, iw, ih, radius), iw, ih, x, y, c) <= M {
      VerticalMeanWithin(h, iw, ih, radius, x, y, c, m, M);
    }
  }

  /** A region of one uniform colour comes out of the blur unchanged. */
  lemma BlurUniform(s: seq<byte>, iw: nat, ih: nat, radius: nat, color: seq<byte>)
    requires |s| == iw * ih * 4 && |color| == 4
    requires forall x, y, c | InRegion(iw, ih, x, y, c) :: At(s, iw, ih, x, y, c) == color[c]
    ensures BlurSeq(s, iw, ih, radius) == s
  {
    var u := BlurSeq(s, iw, ih, radius);
    forall c | 0 <= c < 4
      ensures forall x, y | InRegion(iw, ih, x, y, c) :: At(u, iw, ih, x, y, c) == color[c]
    {
      BlurWithinRange(s, iw, ih, radius, c, color[c], color[c]);
    }
    SameSamples(u, s, iw, ih);
  }

  /** The innermost loop of the horizontal pass: the channel sums over
      columns lo .. hi-1 of row `y`, and how many pixels were summed. */
  method SumRowWindow(data: array<byte>, iw: nat, ih: nat, y: nat, lo: nat, hi: nat)
    returns (r: int, g: int, b: int, a: int, count: int)
    requires data.Length == iw * ih * 4 && y < ih && lo <= hi <= iw
    ensures r == RowSum(data[..], iw, ih, y, 0, lo, hi) && g == RowSum(data[..], iw, ih, y, 1, lo, hi)
    ensures b == RowSum(data[..], iw, ih, y, 2, lo, hi) && a == RowSum(data[..], iw, ih, y, 3, lo, hi)
    ensures count == hi - lo
  {
    r, g, b, a, count := 0, 0, 0, 0, 0;
    var i := lo;
    while i < hi
      invariant lo <= i <= hi && count == i - lo
      invariant r == RowSum(data[..], iw, ih, y, 0, lo, i) && g == RowSum(data[..], iw, ih, y, 1, lo, i)
      invariant b == RowSum(data[..], iw, ih, y, 2, lo, i) && a == RowSum(data[..], iw, ih, y, 3, lo, i)
    {
      IdxInBounds(iw, ih, i, y, 3);
      var idx := (y * iw + i) * 4;
      r := r + data[idx];
      g := g + data[idx + 1];
      b := b + data[idx + 2];
      a := a + data[idx + 3];
      count := count + 1;
      i := i + 1;
    }
  }

  /** The innermost loop of the vertical pass: the channel sums over rows
      lo .. hi-1 of column `x`. */
  method SumColumnWindow(temp: array<byte>, iw: nat, ih: nat, x: nat, lo: nat, hi: nat)
    returns (r: int, g: int, b: int, a: int, count: int)
    requires temp.Length == iw * ih * 4 && x < iw && lo <= hi <= ih
    ensures r == ColSum(temp[..], iw, ih, x, 0, lo, hi) && g == ColSum(temp[..], iw, ih, x, 1, lo, hi)
    ensures b == ColSum(temp[..], iw, ih, x, 2, lo, hi) && a == ColSum(temp[..], iw, ih, x, 3, lo, hi)
    ensures count == hi - lo
  {
    r, g, b, a, count := 0, 0, 0, 0, 0;
    var i := lo;
    while i < hi
      invariant lo <= i <= hi && count == i - lo
      invariant r == ColSum(temp[..], iw, ih, x, 0, lo, i) && g == ColSum(temp[..], iw, ih, x, 1, lo, i)
      invariant b == ColSum(temp[..], iw, ih, x, 2, lo, i) && a == ColSum(temp[..], iw, ih, x, 3, lo, i)
    {
      IdxInBounds(iw, ih, x, i, 3);
      var idx := (i * iw + x) * 4;
      r := r + temp[idx];
      g := g + temp[idx + 1];
      b := b + temp[idx + 2];
      a := a + temp[idx + 3];
      count := count + 1;
      i := i + 1;
    }
  }

  /** The output pixel of the horizontal pass at (x, y): its four channel
      means over the clipped row window. */
  method HorizontalPixel(data: array<byte>, iw: nat, ih: nat, radius: nat, x: nat, y: nat)
    returns (px: seq<byte>)
    requires data.Length == iw * ih * 4 && x < iw && y < ih
    ensures |px| == 4 && 0 <= Idx(iw, x, y, 0) && Idx(iw, x, y, 0) + 4 <= data.Length
    ensures forall c :: 0 <= c < 4 ==> px[c] == HorizontalPassSeq(data[..], iw, ih, radius)[Idx(iw, x, y, 0) + c]
  {
    var lo, hi := Max(0, x - radius), Min(iw, x + radius + 1);
    var r, g, b, a, count := SumRowWindow(data, iw, ih, y, lo, hi);
    ghost var sd := data[..];
    assert RoundHalfEven(r, count) == HorizontalMean(sd, iw, ih, radius, x, y, 0);
    assert RoundHalfEven(g, count) == HorizontalMean(sd, iw, ih, radius, x, y, 1);
    assert RoundHalfEven(b, count) == HorizontalMean(sd, iw, ih, radius, x, y, 2);
    assert RoundHalfEven(a, count) == HorizontalMean(sd, iw, ih, radius, x, y, 3);
    HorizontalPassIdx(sd, iw, ih, radius, x, y, 0);
    HorizontalPassIdx(sd, iw, ih, radius, x, y, 1);
    HorizontalPassIdx(sd, iw, ih, radius, x, y, 2);
    HorizontalPassIdx(sd, iw, ih, radius, x, y, 3);
    px := [RoundHalfEven(r, count), RoundHalfEven(g, count), RoundHalfEven(b, count), RoundHalfEven(a, count)];
  }

  /** The output pixel of the vertical pass at (x, y): its four channel
      means over the clipped column window of `temp`. */
  method VerticalPixel(temp: array<byte>, iw: nat, ih: nat, radius: nat, x: nat, y: nat)
    returns (px: seq<byte>)
    requires temp.Length == iw * ih * 4 && x < iw && y < ih
    ensures |px| == 4 && 0 <= Idx(iw, x, y, 0) && Idx(iw, x, y, 0) + 4 <= temp.Length
    ensures forall c :: 0 <= c < 4 ==> px[c] == VerticalPassSeq(temp[..], iw, ih, radius)[Idx(iw, x, y, 0) + c]
  {
    var lo, hi := Max(0, y - radius), Min(ih, y + radius + 1);
    var r, g, b, a, count := SumColumnWindow(temp, iw, ih, x, lo, hi);
    ghost var st := temp[..];
    assert RoundHalfEven(r, count) == VerticalMean(st, iw, ih, radius, x, y, 0);
    assert RoundHalfEven(g, count) == VerticalMean(st, iw, ih, radius, x, y, 1);
    assert RoundHalfEven(b, count) == VerticalMean(st, iw, ih, radius, x, y, 2);
    assert RoundHalfEven(a, count) == VerticalMean(st, iw, ih, radius, x, y, 3);
    VerticalPassIdx(st, iw, ih, radius, x, y, 0);
    VerticalPassIdx(st, iw, ih, radius, x, y, 1);
    VerticalPassIdx(st, iw, ih, radius, x, y, 2);
    VerticalPassIdx(st, iw, ih, radius, x, y, 3);
    px := [RoundHalfEven(r, count), RoundHalfEven(g, count), RoundHalfEven(b, count), RoundHalfEven(a, count)];
  }

  /** The horizontal pass: reads `data`, fills `temp` row by row. */
  method HorizontalPass(data: array<byte>, temp: array<byte>, iw: nat, ih: nat, radius: nat)
    requires data != temp && data.Length == iw * ih * 4 && temp.Length == data.Length
    modifies temp
    ensures temp[..] == HorizontalPassSeq(data[..], iw, ih, radius)
  {
    ghost var spec := HorizontalPassSeq(data[..], iw, ih, radius);
    var y := 0;
    while y < ih
      invariant 0 <= y <= ih
      invariant forall k :: 0 <= k < temp.Length && k < y * iw * 4 ==> temp[k] == spec[k]
    {
      var x := 0;
      while x < iw
        invariant 0 <= x <= iw
        invariant forall k :: 0 <= k < temp.Length && k < (y * iw + x) * 4 ==> temp[k] == spec[k]
      {
        var px := HorizontalPixel(data, iw, ih, radius, x, y);
        WritePixel(temp, iw, ih, x, y, px);
        x := x + 1;
      }
      MulSucc(y, iw);
      y := y + 1;
    }
    assert temp[..] == spec;
  }

  /** The vertical pass: reads only `temp`, writes `data` column by column. */
  method VerticalPass(temp: array<byte>, data: array<byte>, iw: nat, ih: nat, radius: nat)
    requires data != temp && temp.Length == iw * ih * 4 && data.Length == temp.Length
    modifies data
    ensures data[..] == VerticalPassSeq(temp[..], iw, ih, radius)
  {
    ghost var spec := VerticalPassSeq(temp[..], iw, ih, radius);
    var x := 0;
    while x < iw
      invariant 0 <= x <= iw
      invariant forall k :: 0 <= k < data.Length && X(iw, k) < x ==> data[k] == spec[k]
    {
      var y := 0;
      while y < ih
        invariant 0 <= y <= ih
        invariant forall k :: 0 <= k < data.Length && (X(iw, k) < x || (X(iw, k) == x && Y(iw, k) < y)) ==> data[k] == spec[k]
      {
        var px := VerticalPixel(temp, iw, ih, radius, x, y);
        WritePixel(data, iw, ih, x, y, px);
        forall k | 0 <= k < data.Length && (X(iw, k) < x || (X(iw, k) == x && Y(iw, k) <= y))
          ensures data[k] == spec[k]
        {
          SamePixel(iw, ih, k, x, y);
        }
        y := y + 1;
      }
      forall k | 0 <= k < data.Length && X(iw, k) <= x ensures data[k] == spec[k] {
        Decode(iw, ih, k);
      }
      x := x + 1;
    }
    forall k | 0 <= k < data.Length ensures data[k] == spec[k] {
      Decode(iw, ih, k);
    }
    assert data[..] == spec;
  }

  /** The blur effect on one region: `data` afterwards holds the vertical pass
      of the horizontal pass of its old contents. */
  method Blur(data: array<byte>, iw: nat, ih: nat, intensity: nat)
    requires data.Length == iw * ih * 4
    modifies data
    ensures data[..] == BlurSeq(old(data[..]), iw, ih, intensity)
  {
    var temp := new byte[data.Length];
    HorizontalPass(data, temp, iw, ih, intensity);
    VerticalPass(temp, data, iw, ih, intensity);
  }
}
