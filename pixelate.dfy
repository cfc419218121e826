/** The pixelate effect of `applyMaskEffect`: the region is cut into square
    blocks of `PixelSize` pixels, starting at its top-left corner (the last
    row and column of blocks are clipped by the region's edges), and every
    pixel of a block takes the block's mean colour, floored. */
module Pixelate {
  import opened Pixels

  /** Side of a block for a mask intensity: Math.max(2, Math.floor(intensity));
      the intensity slider yields whole numbers. */
  function PixelSize(intensity: int): (p: int)
    ensures p >= 2 && p >= intensity
    ensures p == 2 || p == intensity
  {
    Max(2, intensity)
  }

  /** First column (or row) of the block that holds column (or row) `v`. */
  function BlockStart(v: int, p: int): (b: int)
    requires 0 <= v && 0 < p
    ensures 0 <= b <= v < b + p && b % p == 0
  {
    var q := v / p;
    assert v == q * p + v % p;
    DivModUnique(q * p, p, q, 0);
    q * p
  }

  /** A block start is the only multiple of `p` within `p` of the positions it covers. */
  lemma BlockStartOf(v: int, p: int, b: int)
    requires 0 <= b <= v < b + p && 0 < p && b % p == 0
    ensures BlockStart(v, p) == b
  {
    assert b == (b / p) * p + b % p;
    DivModUnique(v, p, b / p, v - b);
  }

  lemma NextMultiple(v: int, p: int)
    requires 0 < p && v % p == 0
    ensures (v + p) % p == 0
  {
    assert v == (v / p) * p;
    DivModUnique(v + p, p, v / p + 1, 0);
  }

  /** Sum of channel `c` over the pixels x0 <= x < x1, y0 <= y < y1. */
  function BlockSum(s: seq<byte>, iw: int, ih: int, c: int, x0: int, x1: int, y0: int, y1: int): (sum: int)
    requires |s| == iw * ih * 4 && 0 <= c < 4 && 0 <= x0 <= x1 <= iw && 0 <= y0 <= y1 <= ih
    ensures 0 <= sum
    decreases y1 - y0
  {
    if y0 == y1 then 0
    else BlockSum(s, iw, ih, c, x0, x1, y0, y1 - 1) + RowSum(s, iw, ih, y1 - 1, c, x0, x1)
  }

  /** If every summed sample lies in [m, M], the sum lies between `count * m`
      and `count * M`. */
  lemma {:induction false} BlockSumBounds(s: seq<byte>, iw: int, ih: int, c: int, x0: int, x1: int, y0: int, y1: int, m: int, M: int)
    requires |s| == iw * ih * 4 && 0 <= c < 4 && 0 <= x0 <= x1 <= iw && 0 <= y0 <= y1 <= ih
    requires forall i, j :: x0 <= i < x1 && y0 <= j < y1 ==> m <= At(s, iw, ih, i, j, c) <= M
    ensures m * ((y1 - y0) * (x1 - x0)) <= BlockSum(s, iw, ih, c, x0, x1, y0, y1) <= M * ((y1 - y0) * (x1 - x0))
    decreases y1 - y0
  {
    if y0 < y1 {
      var w, h := x1 - x0, y1 - 1 - y0;
      BlockSumBounds(s, iw, ih, c, x0, x1, y0, y1 - 1, m, M);
      RowSumBounds(s, iw, ih, y1 - 1, c, x0, x1, m, M);
      var area := h * w;
      MulSucc(h, w);
      assert (y1 - y0) * (x1 - x0) == area + w;
      assert (y1 - 1 - y0) * (x1 - x0) == area;
      MulAdd(m, area, w);
      MulAdd(M, area, w);
      assert BlockSum(s, iw, ih, c, x0, x1, y0, y1) == BlockSum(s, iw, ih, c, x0, x1, y0, y1 - 1) + RowSum(s, iw, ih, y1 - 1, c, x0, x1);
    }
  }

  /** A block sum depends only on the samples it covers. */
  lemma {:induction false} BlockSumFrame(s: seq<byte>, t: seq<byte>, iw: int, ih: int, c: int, x0: int, x1: int, y0: int, y1: int)
    requires |s| == iw * ih * 4 && |t| == |s| && 0 <= c < 4 && 0 <= x0 <= x1 <= iw && 0 <= y0 <= y1 <= ih
    requires forall i, j :: x0 <= i < x1 && y0 <= j < y1 ==> At(s, iw, ih, i, j, c) == At(t, iw, ih, i, j, c)
    ensures BlockSum(s, iw, ih, c, x0, x1, y0, y1) == BlockSum(t, iw, ih, c, x0, x1, y0, y1)
    decreases y1 - y0
  {
    if y0 < y1 {
      BlockSumFrame(s, t, iw, ih, c, x0, x1, y0, y1 - 1);
      RowSumFrame(s, t, iw, ih, y1 - 1, c, x0, x1);
    }
  }

  /** Channel `c` of every pixel of the block whose top-left pixel is
      (x0, y0): the floored mean over the block, clipped to the region. */
  function BlockMean(s: seq<byte>, iw: nat, ih: nat, p: nat, x0: int, y0: int, c: int): (v: byte)
    requires |s| == iw * ih * 4 && 0 < p && InRegion(iw, ih, x0, y0, c)
    ensures var x1, y1 := Min(iw, x0 + p), Min(ih, y0 + p);
      var count, sum := (y1 - y0) * (x1 - x0), BlockSum(s, iw, ih, c, x0, x1, y0, y1);
      count * v <= sum < count * (v + 1)
  {
    var x1, y1 := Min(iw, x0 + p), Min(ih, y0 + p);
    var sum := BlockSum(s, iw, ih, c, x0, x1, y0, y1);
    var count := (y1 - y0) * (x1 - x0);
    BlockSumBounds(s, iw, ih, c, x0, x1, y0, y1, 0, 255);
    MulMono(1, y1 - y0, x1 - x0);
    FlooredMeanBetween(sum, count, 0, 255);
    FloorBracket(sum, count);
    sum / count
  }

  /** `BlockMean` divides the block's sum by the number of pixels it covers. */
  lemma BlockMeanIs(s: seq<byte>, iw: nat, ih: nat, p: nat, x0: int, y0: int, c: int, sum: int, count: int)
    requires |s| == iw * ih * 4 && 0 < p && InRegion(iw, ih, x0, y0, c)
    requires sum == BlockSum(s, iw, ih, c, x0, Min(iw, x0 + p), y0, Min(ih, y0 + p))
    requires count == (Min(ih, y0 + p) - y0) * (Min(iw, x0 + p) - x0)
    ensures count > 0 && BlockMean(s, iw, ih, p, x0, y0, c) == sum / count
  {
    MulMono(1, Min(ih, y0 + p) - y0, Min(iw, x0 + p) - x0);
  }

  /** The region after pixelation with blocks of side `p`. */
  function PixelateSeq(s: seq<byte>, iw: nat, ih: nat, p: nat): (u: seq<byte>)
    requires |s| == iw * ih * 4 && 0 < p
    ensures |u| == |s|
  {
    seq(|s|, k requires 0 <= k < |s| =>
      Decode(iw, ih, k);
      BlockMean(s, iw, ih, p, BlockStart(X(iw, k), p), BlockStart(Y(iw, k), p), Ch(k)))
  }

  /** Sample form of `PixelateSeq`. */
  lemma PixelateAt(s: seq<byte>, iw: nat, ih: nat, p: nat, x: int, y: int, c: int)
    requires |s| == iw * ih * 4 && 0 < p && InRegion(iw, ih, x, y, c)
    ensures At(PixelateSeq(s, iw, ih, p), iw, ih, x, y, c) == BlockMean(s, iw, ih, p, BlockStart(x, p), BlockStart(y, p), c)
  {
    Encode(iw, ih, x, y, c);
    IdxInBounds(iw, ih, x, y, c);
  }

  /** If every sample of channel `c` in a block lies in [m, M], so does the
      block's mean. */
  lemma BlockMeanWithin(s: seq<byte>, iw: nat, ih: nat, p: nat, x0: int, y0: int, c: int, m: int, M: int)
    requires |s| == iw * ih * 4 && 0 < p && InRegion(iw, ih, x0, y0, c)
    requires forall i, j :: x0 <= i < Min(iw, x0 + p) && y0 <= j < Min(ih, y0 + p) ==> m <= At(s, iw, ih, i, j, c) <= M
    ensures m <= BlockMean(s, iw, ih, p, x0, y0, c) <= M
  {
    var x1, y1 := Min(iw, x0 + p), Min(ih, y0 + p);
    var sum := BlockSum(s, iw, ih, c, x0, x1, y0, y1);
    var count := (y1 - y0) * (x1 - x0);
    BlockSumBounds(s, iw, ih, c, x0, x1, y0, y1, m, M);
    BlockSumBounds(s, iw, ih, c, x0, x1, y0, y1, 0, 255);
    MulMono(1, y1 - y0, x1 - x0);
    assert m * count <= sum <= M * count;
    FlooredMeanBetween(sum, count, m, M);
    assert BlockMean(s, iw, ih, p, x0, y0, c) == sum / count;
  }

  /** Pixelating an already pixelated region changes nothing: every block is
      uniform, and the mean of a uniform block is its colour. */
  lemma PixelateIdempotent(s: seq<byte>, iw: nat, ih: nat, p: nat)
    requires |s| == iw * ih * 4 && 0 < p
    ensures PixelateSeq(PixelateSeq(s, iw, ih, p), iw, ih, p) == PixelateSeq(s, iw, ih, p)
  {
    var u := PixelateSeq(s, iw, ih, p);
    var v := PixelateSeq(u, iw, ih, p);
    forall x, y, c | InRegion(iw, ih, x, y, c) ensures At(v, iw, ih, x, y, c) == At(u, iw, ih, x, y, c) {
      var x0, y0 := BlockStart(x, p), BlockStart(y, p);
      var colour := BlockMean(s, iw, ih, p, x0, y0, c);
      forall i, j | x0 <= i < Min(iw, x0 + p) && y0 <= j < Min(ih, y0 + p)
        ensures At(u, iw, ih, i, j, c) == colour
      {
        PixelateAt(s, iw, ih, p, i, j, c);
        BlockStartOf(i, p, x0);
        BlockStartOf(j, p, y0);
      }
      BlockMeanWithin(u, iw, ih, p, x0, y0, c, colour, colour);
      PixelateAt(u, iw, ih, p, x, y, c);
      PixelateAt(s, iw, ih, p, x, y, c);
    }
    SameSamples(v, u, iw, ih);
  }

  /** Two pixels of the same block come out with the same colour. */
  lemma PixelateBlockUniform(s: seq<byte>, iw: nat, ih: nat, p: nat, x: int, y: int, x': int, y': int, c: int)
    requires |s| == iw * ih * 4 && 0 < p && InRegion(iw, ih, x, y, c) && InRegion(iw, ih, x', y', c)
    requires BlockStart(x, p) == BlockStart(x', p) && BlockStart(y, p) == BlockStart(y', p)
    ensures At(PixelateSeq(s, iw, ih, p), iw, ih, x, y, c) == At(PixelateSeq(s, iw, ih, p), iw, ih, x', y', c)
  {
    PixelateAt(s, iw, ih, p, x, y, c);
    PixelateAt(s, iw, ih, p, x', y', c);
  }

  /** The block-sampling loops: channel sums over the block whose top-left
      pixel is (x, y), rows and columns stopping at `p` or at the region's edge. */
  method SumBlock(data: array<byte>, iw: nat, ih: nat, p: nat, x: nat, y: nat)
    returns (r: int, g: int, b: int, a: int, count: int)
    requires data.Length == iw * ih * 4 && 0 < p && x < iw && y < ih
    ensures var x1, y1 := Min(iw, x + p), Min(ih, y + p);
      r == BlockSum(data[..], iw, ih, 0, x, x1, y, y1) && g == BlockSum(data[..], iw, ih, 1, x, x1, y, y1) &&
      b == BlockSum(data[..], iw, ih, 2, x, x1, y, y1) && a == BlockSum(data[..], iw, ih, 3, x, x1, y, y1) &&
      count == (y1 - y) * (x1 - x)
  {
    ghost var s := data[..];
    ghost var x1, y1 := Min(iw, x + p), Min(ih, y + p);
    r, g, b, a, count := 0, 0, 0, 0, 0;
    var dy := 0;
    while dy < p && y + dy < ih
      invariant 0 <= dy && y + dy <= y1
      invariant r == BlockSum(s, iw, ih, 0, x, x1, y, y + dy) && g == BlockSum(s, iw, ih, 1, x, x1, y, y + dy)
      invariant b == BlockSum(s, iw, ih, 2, x, x1, y, y + dy) && a == BlockSum(s, iw, ih, 3, x, x1, y, y + dy)
      invariant count == dy * (x1 - x)
    {
      var dx := 0;
      while dx < p && x + dx < iw
        invariant 0 <= dx && x + dx <= x1
        invariant r == BlockSum(s, iw, ih, 0, x, x1, y, y + dy) + RowSum(s, iw, ih, y + dy, 0, x, x + dx)
        invariant g == BlockSum(s, iw, ih, 1, x, x1, y, y + dy) + RowSum(s, iw, ih, y + dy, 1, x, x + dx)
        invariant b == BlockSum(s, iw, ih, 2, x, x1, y, y + dy) + RowSum(s, iw, ih, y + dy, 2, x, x + dx)
        invariant a == BlockSum(s, iw, ih, 3, x, x1, y, y + dy) + RowSum(s, iw, ih, y + dy, 3, x, x + dx)
        invariant count == dy * (x1 - x) + dx
      {
        IdxInBounds(iw, ih, x + dx, y + dy, 3);
        var idx := ((y + dy) * iw + (x + dx)) * 4;
        r := r + data[idx];
        g := g + data[idx + 1];
        b := b + data[idx + 2];
        a := a + data[idx + 3];
        count := count + 1;
        dx := dx + 1;
      }
      MulSucc(dy, x1 - x);
      dy := dy + 1;
    }
  }

  /** The block-filling loops: every pixel of the block whose top-left pixel
      is (x, y) gets colour `px`; every other sample is left as it was. */
  method FillBlock(data: array<byte>, iw: nat, ih: nat, p: nat, x: nat, y: nat, px: seq<byte>)
    requires data.Length == iw * ih * 4 && 0 < p && x < iw && y < ih && |px| == 4
    modifies data
    ensures forall k :: 0 <= k < data.Length ==>
      data[k] == if x <= X(iw, k) < x + p && y <= Y(iw, k) < y + p then px[Ch(k)] else old(data[k])
  {
    var dy := 0;
    while dy < p && y + dy < ih
      invariant 0 <= dy <= p
      invariant forall k :: 0 <= k < data.Length ==>
        data[k] == if x <= X(iw, k) < x + p && y <= Y(iw, k) < y + dy then px[Ch(k)] else old(data[k])
    {
      var dx := 0;
      while dx < p && x + dx < iw
        invariant 0 <= dx <= p
        invariant forall k :: 0 <= k < data.Length ==>
          data[k] == if x <= X(iw, k) < x + p && (y <= Y(iw, k) < y + dy || (Y(iw, k) == y + dy && X(iw, k) < x + dx))
            then px[Ch(k)] else old(data[k])
      {
        WritePixel(data, iw, ih, x + dx, y + dy, px);
        dx := dx + 1;
      }
      forall k | 0 <= k < data.Length
        ensures data[k] == if x <= X(iw, k) < x + p && y <= Y(iw, k) < y + dy + 1 then px[Ch(k)] else old(data[k])
      {
        Decode(iw, ih, k);
      }
      dy := dy + 1;
    }
    forall k | 0 <= k < data.Length
      ensures data[k] == if x <= X(iw, k) < x + p && y <= Y(iw, k) < y + p then px[Ch(k)] else old(data[k])
    {
      Decode(iw, ih, k);
    }
  }

  /** The pixelate effect on one region: `data` afterwards holds the
      pixelation of its old contents with blocks of `PixelSize(intensity)`. */
  method Pixelate(data: array<byte>, iw: nat, ih: nat, intensity: int)
    requires data.Length == iw * ih * 4
    modifies data
    ensures data[..] == PixelateSeq(old(data[..]), iw, ih, PixelSize(intensity))
  {
    var p := Max(2, intensity);
    ghost var s := data[..];
    ghost var spec := PixelateSeq(s, iw, ih, p);
    var y := 0;
    while y < ih
      invariant 0 <= y && y % p == 0
      invariant forall k :: 0 <= k < data.Length ==> data[k] == if Y(iw, k) < y then spec[k] else s[k]
      decreases ih - y
    {
      var x := 0;
      forall k | 0 <= k < data.Length
        ensures data[k] == if Y(iw, k) < y || (Y(iw, k) < y + p && X(iw, k) < x) then spec[k] else s[k]
      {
        Decode(iw, ih, k);
      }
      while x < iw
        invariant 0 <= x && x % p == 0
        invariant forall k :: 0 <= k < data.Length ==>
          data[k] == if Y(iw, k) < y || (Y(iw, k) < y + p && X(iw, k) < x) then spec[k] else s[k]
        decreases iw - x
      {
        BlockUntouched(data[..], s, iw, ih, p, x, y, Min(iw, x + p), Min(ih, y + p));
        var r, g, b, a, count := SumBlock(data, iw, ih, p, x, y);
        BlockMeanIs(s, iw, ih, p, x, y, 0, r, count);
        BlockMeanIs(s, iw, ih, p, x, y, 1, g, count);
        BlockMeanIs(s, iw, ih, p, x, y, 2, b, count);
        BlockMeanIs(s, iw, ih, p, x, y, 3, a, count);
        var colour := [r / count, g / count, b / count, a / count];
        FillBlock(data, iw, ih, p, x, y, colour);
        forall k | 0 <= k < data.Length
          ensures data[k] == if Y(iw, k) < y || (Y(iw, k) < y + p && X(iw, k) < x + p) then spec[k] else s[k]
        {
          Decode(iw, ih, k);
          if x <= X(iw, k) < x + p && y <= Y(iw, k) < y + p {
            BlockStartOf(X(iw, k), p, x);
            BlockStartOf(Y(iw, k), p, y);
          }
        }
        NextMultiple(x, p);
        x := x + p;
      }
      forall k | 0 <= k < data.Length ensures data[k] == if Y(iw, k) < y + p then spec[k] else s[k] {
        Decode(iw, ih, k);
      }
      NextMultiple(y, p);
      y := y + p;
    }
    forall k | 0 <= k < data.Length ensures data[k] == spec[k] {
      Decode(iw, ih, k);
    }
    assert data[..] == spec;
  }

  /** Before block (x, y) is processed, its samples are the original ones, so
      its sums are the sums of the original region. */
  lemma BlockUntouched(d: seq<byte>, s: seq<byte>, iw: nat, ih: nat, p: nat, x: nat, y: nat, x1: int, y1: int)
    requires |s| == iw * ih * 4 && |d| == |s| && 0 < p && x < iw && y < ih
    requires x1 == Min(iw, x + p) && y1 == Min(ih, y + p)
    requires forall k :: 0 <= k < |d| && !(Y(iw, k) < y || (Y(iw, k) < y + p && X(iw, k) < x)) ==> d[k] == s[k]
    ensures forall c :: 0 <= c < 4 ==> BlockSum(d, iw, ih, c, x, x1, y, y1) == BlockSum(s, iw, ih, c, x, x1, y, y1)
  {
    forall c | 0 <= c < 4
      ensures BlockSum(d, iw, ih, c, x, x1, y, y1) == BlockSum(s, iw, ih, c, x, x1, y, y1)
    {
      forall i, j | x <= i < x1 && y <= j < y1
        ensures At(d, iw, ih, i, j, c) == At(s, iw, ih, i, j, c)
      {
        Encode(iw, ih, i, j, c);
        IdxInBounds(iw, ih, i, j, c);
      }
      BlockSumFrame(d, s, iw, ih, c, x, x1, y, y1);
    }
  }
}
