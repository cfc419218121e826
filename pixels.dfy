/** RGBA8 pixel buffers laid out row by row, as `ImageData.data` holds them:
    channel `c` of pixel (x, y) in a buffer `iw` pixels wide sits at offset
    (y * iw + x) * 4 + c.  This module holds the address arithmetic, the
    sums the filters average over, and the rounding a `Uint8ClampedArray`
    store performs. */
module Pixels {

  /** One channel sample, as a `Uint8ClampedArray` element holds it. */
  type byte = v: int | 0 <= v < 256

  function Max(a: int, b: int): (m: int) { if a < b then b else a }
  function Min(a: int, b: int): (m: int) { if a < b then a else b }

  /** Offset of channel `c` of pixel (x, y). */
  function Idx(iw: int, x: int, y: int, c: int): (k: int) {
    (y * iw + x) * 4 + c
  }

  predicate InRegion(iw: int, ih: int, x: int, y: int, c: int) {
    0 <= x < iw && 0 <= y < ih && 0 <= c < 4
  }

  /** Column, row and channel of offset `k`. */
  function X(iw: int, k: int): (x: int) { if iw > 0 then (k / 4) % iw else 0 }
  function Y(iw: int, k: int): (y: int) { if iw > 0 then (k / 4) / iw else 0 }
  function Ch(k: int): (c: int) { k % 4 }

  lemma MulMono(a: int, b: int, n: int)
    requires a <= b && 0 <= n
    ensures a * n <= b * n
  {
    var d := b - a;
    assert b * n == a * n + d * n;
  }

  lemma MulSucc(a: int, n: int)
    ensures (a + 1) * n == a * n + n
  {
  }

  lemma MulAdd(m: int, a: int, b: int)
    ensures m * (a + b) == m * a + m * b
  {
  }

  /** Euclidean division by a positive divisor has one quotient and remainder. */
  lemma DivModUnique(a: int, d: int, q: int, r: int)
    requires d > 0 && 0 <= r < d && a == q * d + r
    ensures a / d == q && a % d == r
  {
    var q', r' := a / d, a % d;
    assert a == q' * d + r';
    MulSucc(q, d);
    MulSucc(q', d);
    if q' > q {
      MulMono(q + 1, q', d);
      assert false;
    } else if q' < q {
      MulMono(q' + 1, q, d);
      assert false;
    }
  }

  /** Every in-region offset lies inside a buffer of iw * ih * 4 samples. */
  lemma IdxInBounds(iw: int, ih: int, x: int, y: int, c: int)
    requires InRegion(iw, ih, x, y, c)
    ensures 0 <= Idx(iw, x, y, c) < iw * ih * 4
    ensures Idx(iw, x, y, c) == Idx(iw, x, y, 0) + c
  {
    MulMono(0, y, iw);
    MulMono(y + 1, ih, iw);
    assert (y + 1) * iw == y * iw + iw;
  }

  /** Encoding coordinates and decoding the offset gives them back. */
  lemma Encode(iw: int, ih: int, x: int, y: int, c: int)
    requires InRegion(iw, ih, x, y, c)
    ensures iw > 0 && X(iw, Idx(iw, x, y, c)) == x && Y(iw, Idx(iw, x, y, c)) == y
    ensures Ch(Idx(iw, x, y, c)) == c
  {
    var p := y * iw + x;
    MulMono(0, y, iw);
    DivModUnique(p * 4 + c, 4, p, c);
    DivModUnique(p, iw, y, x);
  }

  /** Every offset of a buffer of iw * ih * 4 samples decodes to in-region
      coordinates that encode back to it. */
  lemma Decode(iw: int, ih: int, k: int)
    requires 0 <= iw && 0 <= ih && 0 <= k < iw * ih * 4
    ensures iw > 0 && InRegion(iw, ih, X(iw, k), Y(iw, k), Ch(k))
    ensures Idx(iw, X(iw, k), Y(iw, k), Ch(k)) == k
  {
    if iw == 0 {
      assert false;
    }
    var p := k / 4;
    assert k == p * 4 + k % 4;
    assert p == (p / iw) * iw + p % iw;
    assert p < iw * ih;
    if p / iw >= ih {
      MulMono(ih, p / iw, iw);
      assert false;
    }
  }

  /** The offsets of pixel (px, py) are exactly the four starting at its
      channel-0 offset. */
  lemma SamePixel(iw: int, ih: int, k: int, px: int, py: int)
    requires 0 <= iw && 0 <= ih && 0 <= k < iw * ih * 4 && InRegion(iw, ih, px, py, 0)
    ensures (X(iw, k) == px && Y(iw, k) == py) <==> Idx(iw, px, py, 0) <= k < Idx(iw, px, py, 0) + 4
  {
    Decode(iw, ih, k);
    var x, y, c := X(iw, k), Y(iw, k), Ch(k);
    if Idx(iw, px, py, 0) <= k < Idx(iw, px, py, 0) + 4 {
      var c' := k - Idx(iw, px, py, 0);
      Encode(iw, ih, px, py, c');
    }
  }

  /** Channel `c` of pixel (x, y) of buffer `s`. */
  function At(s: seq<byte>, iw: int, ih: int, x: int, y: int, c: int): (v: byte)
    requires |s| == iw * ih * 4 && InRegion(iw, ih, x, y, c)
  {
    IdxInBounds(iw, ih, x, y, c);
    s[Idx(iw, x, y, c)]
  }

  /** Two buffers of the same shape that agree on every sample are equal. */
  lemma SameSamples(a: seq<byte>, b: seq<byte>, iw: int, ih: int)
    requires 0 <= iw && 0 <= ih && |a| == iw * ih * 4 && |b| == |a|
    requires forall x, y, c | InRegion(iw, ih, x, y, c) :: At(a, iw, ih, x, y, c) == At(b, iw, ih, x, y, c)
    ensures a == b
  {
    forall k | 0 <= k < |a| ensures a[k] == b[k] {
      Decode(iw, ih, k);
      assert At(a, iw, ih, X(iw, k), Y(iw, k), Ch(k)) == At(b, iw, ih, X(iw, k), Y(iw, k), Ch(k));
    }
  }

  /** Sum of channel `c` over columns lo .. hi-1 of row `y`. */
  function RowSum(s: seq<byte>, iw: int, ih: int, y: int, c: int, lo: int, hi: int): (sum: int)
    requires |s| == iw * ih * 4 && 0 <= y < ih && 0 <= c < 4 && 0 <= lo <= hi <= iw
    ensures 0 <= sum
    decreases hi - lo
  {
    if lo == hi then 0
    else
      RowSum(s, iw, ih, y, c, lo, hi - 1) + At(s, iw, ih, hi - 1, y, c)
  }

  /** Sum of channel `c` over rows lo .. hi-1 of column `x`. */
  function ColSum(s: seq<byte>, iw: int, ih: int, x: int, c: int, lo: int, hi: int): (sum: int)
    requires |s| == iw * ih * 4 && 0 <= x < iw && 0 <= c < 4 && 0 <= lo <= hi <= ih
    ensures 0 <= sum
    decreases hi - lo
  {
    if lo == hi then 0
    else
      ColSum(s, iw, ih, x, c, lo, hi - 1) + At(s, iw, ih, x, hi - 1, c)
  }

  /** If every summed sample lies in [m, M], so does the sum divided by the count. */
  lemma {:induction false} RowSumBounds(s: seq<byte>, iw: int, ih: int, y: int, c: int, lo: int, hi: int, m: int, M: int)
    requires |s| == iw * ih * 4 && 0 <= y < ih && 0 <= c < 4 && 0 <= lo <= hi <= iw
    requires forall i :: lo <= i < hi ==> m <= At(s, iw, ih, i, y, c) <= M
    ensures (hi - lo) * m <= RowSum(s, iw, ih, y, c, lo, hi) <= (hi - lo) * M
    decreases hi - lo
  {
    if lo < hi {
      RowSumBounds(s, iw, ih, y, c, lo, hi - 1, m, M);
      MulSucc(hi - 1 - lo, m);
      MulSucc(hi - 1 - lo, M);
    }
  }

  lemma {:induction false} ColSumBounds(s: seq<byte>, iw: int, ih: int, x: int, c: int, lo: int, hi: int, m: int, M: int)
    requires |s| == iw * ih * 4 && 0 <= x < iw && 0 <= c < 4 && 0 <= lo <= hi <= ih
    requires forall i :: lo <= i < hi ==> m <= At(s, iw, ih, x, i, c) <= M
    ensures (hi - lo) * m <= ColSum(s, iw, ih, x, c, lo, hi) <= (hi - lo) * M
    decreases hi - lo
  {
    if lo < hi {
      ColSumBounds(s, iw, ih, x, c, lo, hi - 1, m, M);
      MulSucc(hi - 1 - lo, m);
      MulSucc(hi - 1 - lo, M);
    }
  }

  /** A row sum depends only on the samples it covers. */
  lemma {:induction false} RowSumFrame(s: seq<byte>, t: seq<byte>, iw: int, ih: int, y: int, c: int, lo: int, hi: int)
    requires |s| == iw * ih * 4 && |t| == |s| && 0 <= y < ih && 0 <= c < 4 && 0 <= lo <= hi <= iw
    requires forall i :: lo <= i < hi ==> At(s, iw, ih, i, y, c) == At(t, iw, ih, i, y, c)
    ensures RowSum(s, iw, ih, y, c, lo, hi) == RowSum(t, iw, ih, y, c, lo, hi)
    decreases hi - lo
  {
    if lo < hi {
      RowSumFrame(s, t, iw, ih, y, c, lo, hi - 1);
    }
  }

  /** The value a `Uint8ClampedArray` stores for `sum / count`: the nearest
      integer, ties to the even one. */
  function RoundHalfEven(sum: int, count: int): (v: int)
    requires 0 <= sum && 0 < count
    ensures count * (2 * v - 1) <= 2 * sum <= count * (2 * v + 1)
    ensures 2 * sum == count * (2 * v - 1) || 2 * sum == count * (2 * v + 1) ==> v % 2 == 0
  {
    var q, rem := sum / count, sum % count;
    assert sum == q * count + rem;
    assert count * (2 * q - 1) == 2 * (q * count) - count;
    assert count * (2 * q + 1) == 2 * (q * count) + count;
    assert count * (2 * q + 3) == 2 * (q * count) + 3 * count;
    if 2 * rem > count || (2 * rem == count && q % 2 == 1) then q + 1 else q
  }

  /** Rounding a mean never leaves the range its samples lie in. */
  lemma RoundedMeanBetween(sum: int, count: int, m: int, M: int)
    requires 0 <= sum && 0 < count && m * count <= sum <= M * count
    ensures m <= RoundHalfEven(sum, count) <= M
  {
    var v := RoundHalfEven(sum, count);
    assert count * (2 * m - 1) == 2 * (m * count) - count;
    assert count * (2 * M + 1) == 2 * (M * count) + count;
    if v < m {
      MulMono(2 * v + 1, 2 * m - 1, count);
      assert false;
    }
    if v > M {
      MulMono(2 * M + 1, 2 * v - 1, count);
      assert false;
    }
  }

  /** Flooring a mean never leaves the range its samples lie in. */
  lemma FlooredMeanBetween(sum: int, count: int, m: int, M: int)
    requires 0 <= sum && 0 < count && m * count <= sum <= M * count
    ensures m <= sum / count <= M
  {
    var q := sum / count;
    assert sum == q * count + sum % count;
    MulSucc(q, count);
    if q < m {
      MulMono(q + 1, m, count);
      assert false;
    }
    if q > M {
      MulMono(M + 1, q, count);
      MulSucc(M, count);
      assert false;
    }
  }

  /** The floored quotient brackets the dividend. */
  lemma FloorBracket(sum: int, count: int)
    requires 0 < count
    ensures count * (sum / count) <= sum < count * (sum / count + 1)
  {
    var q := sum / count;
    assert sum == q * count + sum % count;
    assert count * (q + 1) == q * count + count;
  }

  /** Stores the four channels of pixel (x, y); every other sample is left
      as it was. */
  method WritePixel(buf: array<byte>, iw: nat, ih: nat, x: nat, y: nat, px: seq<byte>)
    requires buf.Length == iw * ih * 4 && x < iw && y < ih && |px| == 4
    modifies buf
    ensures forall k :: 0 <= k < buf.Length ==>
      buf[k] == if Idx(iw, x, y, 0) <= k < Idx(iw, x, y, 0) + 4 then px[k - Idx(iw, x, y, 0)] else old(buf[k])
    ensures forall k :: 0 <= k < buf.Length ==>
      buf[k] == if X(iw, k) == x && Y(iw, k) == y then px[Ch(k)] else old(buf[k])
  {
    IdxInBounds(iw, ih, x, y, 3);
    var base := (y * iw + x) * 4;
    buf[base] := px[0];
    buf[base + 1] := px[1];
    buf[base + 2] := px[2];
    buf[base + 3] := px[3];
    forall k | 0 <= k < buf.Length
      ensures buf[k] == if X(iw, k) == x && Y(iw, k) == y then px[Ch(k)] else old(buf[k])
    {
      SamePixel(iw, ih, k, x, y);
      Decode(iw, ih, k);
      IdxInBounds(iw, ih, X(iw, k), Y(iw, k), Ch(k));
    }
  }
}
