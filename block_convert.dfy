/**
  BGRA to I420 conversion over 2x2 pixel blocks, as written three times in the
  sources (nvfbc_capture.rs, pipewire_capture.rs and bin/benchmark_bottleneck.rs).
  The copies differ only in the byte their bounds guard tests before reading a
  pixel: `idx + 2` (the red byte) in the NVFBC copy, `idx + 3` (the alpha byte)
  in the other two. That byte offset is the parameter `last`.

  Blocks are visited row by row; block `n` is the block at column `n % (w / 2)`
  of block row `n / (w / 2)`, and it is also the index of its chroma cell.
 */
module BlockConvert {
  import opened Bt601
  import opened PlaneIndex

  /** Offset inside a pixel of the last byte the bounds guard asks for. */
  type GuardOffset = x: nat | 2 <= x <= 3 witness 2

  /** Number of 2x2 blocks, i.e. of chroma cells written. */
  function Blocks(w: nat, h: nat): nat {
    (h / 2) * (w / 2)
  }

  /** Pixel `q` lies in the even-sized part of the image covered by blocks. */
  predicate InGrid(w: nat, h: nat, q: nat) {
    w > 0 && q / w < 2 * (h / 2) && q % w < 2 * (w / 2)
  }

  /** Index of the block holding pixel `q`. */
  function BlockOf(w: nat, q: nat): nat
    requires w > 0
  {
    (q / w / 2) * (w / 2) + q % w / 2
  }

  /** Position of pixel `q` inside its block, in the visiting order (dy, dx). */
  function SubOf(w: nat, q: nat): nat
    requires w > 0
  {
    2 * (q / w % 2) + q % w % 2
  }

  /** The `t`-th pixel visited in block (bc, br), the block at column `bc` of block row `br`: dy = t / 2, dx = t % 2. */
  function PixelAt(w: nat, bc: nat, br: nat, t: nat): nat {
    (2 * br + t / 2) * w + 2 * bc + t % 2
  }

  /** The bounds guard lets pixel `q` through. */
  predicate Present(bgra: seq<byte>, q: nat, last: GuardOffset) {
    q * BytesPerPixel + last < |bgra|
  }

  /** Clamped luma of pixel `q`, from its B, G and R bytes. */
  function LumaAt(bgra: seq<byte>, q: nat): byte
    requires q * BytesPerPixel + BgraR < |bgra|
  {
    var i := q * BytesPerPixel;
    Clamp(Luma(bgra[i + BgraR], bgra[i + BgraG], bgra[i + BgraB]))
  }

  /** Component `c` of pixel `q` as added to a block sum: 0 for a skipped pixel. */
  function Channel(bgra: seq<byte>, q: nat, last: GuardOffset, c: nat): byte
    requires c <= BgraR
  {
    if Present(bgra, q, last) then bgra[q * BytesPerPixel + c] else 0
  }

  /** Sum of component `c` over the first `t` pixels visited in block (bc, br). */
  function PartialSum(bgra: seq<byte>, w: nat, bc: nat, br: nat, last: GuardOffset, c: nat, t: nat): (s: nat)
    requires c <= BgraR && t <= 4
    ensures s <= 255 * t
  {
    if t == 0 then 0
    else PartialSum(bgra, w, bc, br, last, c, t - 1) + Channel(bgra, PixelAt(w, bc, br, t - 1), last, c)
  }

  /** Truncated average `sum / 4` of component `c` over block (bc, br). */
  function BlockAverage(bgra: seq<byte>, w: nat, bc: nat, br: nat, last: GuardOffset, c: nat): byte
    requires c <= BgraR
  {
    PartialSum(bgra, w, bc, br, last, c, 4) / 4
  }

  function BlockU(bgra: seq<byte>, w: nat, bc: nat, br: nat, last: GuardOffset): byte {
    Clamp(ChromaU(BlockAverage(bgra, w, bc, br, last, BgraR),
                  BlockAverage(bgra, w, bc, br, last, BgraG),
                  BlockAverage(bgra, w, bc, br, last, BgraB)))
  }

  function BlockV(bgra: seq<byte>, w: nat, bc: nat, br: nat, last: GuardOffset): byte {
    Clamp(ChromaV(BlockAverage(bgra, w, bc, br, last, BgraR),
                  BlockAverage(bgra, w, bc, br, last, BgraG),
                  BlockAverage(bgra, w, bc, br, last, BgraB)))
  }

  /** Luma cell `q` once the first `n` blocks are done; `prev` is its value before. */
  function YCell(bgra: seq<byte>, w: nat, h: nat, last: GuardOffset, prev: byte, q: nat, n: nat): byte {
    if InGrid(w, h, q) && BlockOf(w, q) < n && Present(bgra, q, last) then LumaAt(bgra, q) else prev
  }

  /** U cell `k` once the first `n` blocks are done. */
  function UCell(bgra: seq<byte>, w: nat, h: nat, last: GuardOffset, prev: byte, k: nat, n: nat): byte {
    if w / 2 > 0 && k < n && k < Blocks(w, h) then BlockU(bgra, w, k % (w / 2), k / (w / 2), last) else prev
  }

  /** V cell `k` once the first `n` blocks are done; it is written together with
      U cell `k`, hence only below the U plane's length `uLen`. */
  function VCell(bgra: seq<byte>, w: nat, h: nat, last: GuardOffset, uLen: nat, prev: byte, k: nat, n: nat): byte {
    if w / 2 > 0 && k < n && k < Blocks(w, h) && k < uLen then BlockV(bgra, w, k % (w / 2), k / (w / 2), last) else prev
  }

  /** The Y plane after conversion, given the plane before. */
  function ConvertY(bgra: seq<byte>, w: nat, h: nat, last: GuardOffset, y: seq<byte>): seq<byte> {
    seq(|y|, q requires 0 <= q < |y| => YCell(bgra, w, h, last, y[q], q, Blocks(w, h)))
  }

  /** The U plane after conversion, given the plane before. */
  function ConvertU(bgra: seq<byte>, w: nat, h: nat, last: GuardOffset, u: seq<byte>): seq<byte> {
    seq(|u|, k requires 0 <= k < |u| => UCell(bgra, w, h, last, u[k], k, Blocks(w, h)))
  }

  /** The V plane after conversion, given the plane before and the U plane's length. */
  function ConvertV(bgra: seq<byte>, w: nat, h: nat, last: GuardOffset, uLen: nat, v: seq<byte>): seq<byte> {
    seq(|v|, k requires 0 <= k < |v| => VCell(bgra, w, h, last, uLen, v[k], k, Blocks(w, h)))
  }

  // ---------------------------------------------------------------------------
  // Index facts

  /** The `t`-th pixel of block (bc, br) is in the grid, in that block, at
      position `t`, and inside a plane of `w * h` cells. */
  lemma PixelAtFacts(w: nat, h: nat, bc: nat, br: nat, t: nat)
    requires bc < w / 2 && br < h / 2 && t < 4
    ensures PixelAt(w, bc, br, t) < w * h
    ensures InGrid(w, h, PixelAt(w, bc, br, t))
    ensures BlockOf(w, PixelAt(w, bc, br, t)) == br * (w / 2) + bc
    ensures SubOf(w, PixelAt(w, bc, br, t)) == t
  {
    var row, col := 2 * br + t / 2, 2 * bc + t % 2;
    DivModOfIndex(row, col, w);
    IndexInPlane(row, col, w, h);
    DivModOfIndex(br, t / 2, 2);
    DivModOfIndex(bc, t % 2, 2);
  }

  /** A pixel of block (bc, br) is the pixel visited at its own position. */
  lemma PixelOfBlock(w: nat, h: nat, bc: nat, br: nat, q: nat)
    requires bc < w / 2 && InGrid(w, h, q) && BlockOf(w, q) == br * (w / 2) + bc
    ensures q == PixelAt(w, bc, br, SubOf(w, q))
  {
    var row, col := q / w, q % w;
    assert col / 2 < w / 2;
    IndexInjective(row / 2, col / 2, br, bc, w / 2);
    var t := SubOf(w, q);
    assert t / 2 == row % 2 && t % 2 == col % 2;
  }

  /** Block `n` below the block count has its coordinates below the block grid. */
  lemma BlockInRange(w: nat, h: nat, bc: nat, br: nat)
    requires bc < w / 2 && br < h / 2
    ensures br * (w / 2) + bc < Blocks(w, h)
    ensures (br * (w / 2) + bc) % (w / 2) == bc && (br * (w / 2) + bc) / (w / 2) == br
  {
    IndexInPlane(br, bc, w / 2, h / 2);
    DivModOfIndex(br, bc, w / 2);
  }

  // ---------------------------------------------------------------------------
  // The conversion, as the sources write it

  /** Pixel `q` is the `t`-th pixel visited in block (bc, br) exactly when it
      lies in the grid, in that block, at position `t`. */
  lemma PixelAtExactly(w: nat, h: nat, bc: nat, br: nat, t: nat, q: nat)
    requires bc < w / 2 && br < h / 2 && t < 4
    ensures (InGrid(w, h, q) && BlockOf(w, q) == br * (w / 2) + bc && SubOf(w, q) == t)
            <==> q == PixelAt(w, bc, br, t)
  {
    PixelAtFacts(w, h, bc, br, t);
    if InGrid(w, h, q) && BlockOf(w, q) == br * (w / 2) + bc && SubOf(w, q) == t {
      PixelOfBlock(w, h, bc, br, q);
    }
  }

  /** The `t`-th pixel of block (bc, br): when the guard lets it through, its
      luma is written and its R, G and B are added to the sums. */
  method ConvertPixel(bgra: seq<byte>, w: nat, h: nat, last: GuardOffset, bc: nat, br: nat, t: nat,
                      y: array<byte>, red0: nat, green0: nat, blue0: nat)
    returns (redSum: nat, greenSum: nat, blueSum: nat)
    requires bc < w / 2 && br < h / 2 && t < 4 && w * h <= y.Length
    modifies y
    ensures redSum == red0 + Channel(bgra, PixelAt(w, bc, br, t), last, BgraR)
    ensures greenSum == green0 + Channel(bgra, PixelAt(w, bc, br, t), last, BgraG)
    ensures blueSum == blue0 + Channel(bgra, PixelAt(w, bc, br, t), last, BgraB)
    ensures forall q :: 0 <= q < y.Length ==>
      y[q] == if q == PixelAt(w, bc, br, t) && Present(bgra, q, last) then LumaAt(bgra, q) else old(y[q])
  {
    var px := bc * 2 + t % 2;
    var py := br * 2 + t / 2;
    assert py * w + px == PixelAt(w, bc, br, t);
    PixelAtFacts(w, h, bc, br, t);
    redSum, greenSum, blueSum := red0, green0, blue0;
    var idx := (py * w + px) * BytesPerPixel;
    if idx + last < |bgra| {
      var blue := bgra[idx + BgraB];
      var green := bgra[idx + BgraG];
      var red := bgra[idx + BgraR];
      y[py * w + px] := Clamp(Luma(red, green, blue));
      redSum := redSum + red;
      greenSum := greenSum + green;
      blueSum := blueSum + blue;
    }
  }

  /** One 2x2 block: writes the luma of each pixel the guard lets through and
      returns the sums of R, G and B over those pixels. */
  method ConvertBlock(bgra: seq<byte>, w: nat, h: nat, last: GuardOffset, bc: nat, br: nat, y: array<byte>)
    returns (redSum: nat, greenSum: nat, blueSum: nat)
    requires bc < w / 2 && br < h / 2 && w * h <= y.Length
    modifies y
    ensures redSum == PartialSum(bgra, w, bc, br, last, BgraR, 4)
    ensures greenSum == PartialSum(bgra, w, bc, br, last, BgraG, 4)
    ensures blueSum == PartialSum(bgra, w, bc, br, last, BgraB, 4)
    ensures forall q :: 0 <= q < y.Length ==>
      y[q] == if InGrid(w, h, q) && BlockOf(w, q) == br * (w / 2) + bc && Present(bgra, q, last)
              then LumaAt(bgra, q) else old(y[q])
  {
    ghost var n := br * (w / 2) + bc;
    redSum, greenSum, blueSum := 0, 0, 0;
    for dy := 0 to 2
      invariant redSum == PartialSum(bgra, w, bc, br, last, BgraR, 2 * dy)
      invariant greenSum == PartialSum(bgra, w, bc, br, last, BgraG, 2 * dy)
      invariant blueSum == PartialSum(bgra, w, bc, br, last, BgraB, 2 * dy)
      invariant forall q :: 0 <= q < y.Length ==>
        y[q] == if InGrid(w, h, q) && BlockOf(w, q) == n && SubOf(w, q) < 2 * dy && Present(bgra, q, last)
                then LumaAt(bgra, q) else old(y[q])
    {
      for dx := 0 to 2
        invariant redSum == PartialSum(bgra, w, bc, br, last, BgraR, 2 * dy + dx)
        invariant greenSum == PartialSum(bgra, w, bc, br, last, BgraG, 2 * dy + dx)
        invariant blueSum == PartialSum(bgra, w, bc, br, last, BgraB, 2 * dy + dx)
        invariant forall q :: 0 <= q < y.Length ==>
          y[q] == if InGrid(w, h, q) && BlockOf(w, q) == n && SubOf(w, q) < 2 * dy + dx && Present(bgra, q, last)
                  then LumaAt(bgra, q) else old(y[q])
      {
        var t := 2 * dy + dx;
        assert t / 2 == dy && t % 2 == dx;
        redSum, greenSum, blueSum := ConvertPixel(bgra, w, h, last, bc, br, t, y, redSum, greenSum, blueSum);
        forall q | 0 <= q < y.Length
          ensures (InGrid(w, h, q) && BlockOf(w, q) == n && SubOf(w, q) == t) <==> q == PixelAt(w, bc, br, t)
        {
          PixelAtExactly(w, h, bc, br, t, q);
        }
      }
    }
  }

  /** The whole conversion: blocks row by row, then the chroma pair of each
      block at index `br * (w / 2) + bc`, only below the U plane's length. */
  method BgraToI420Blocks(bgra: seq<byte>, w: nat, h: nat, last: GuardOffset,
                          y: array<byte>, u: array<byte>, v: array<byte>)
    requires w * h <= y.Length && u.Length <= v.Length
    requires y != u && y != v && u != v
    modifies y, u, v
    ensures y[..] == ConvertY(bgra, w, h, last, old(y[..]))
    ensures u[..] == ConvertU(bgra, w, h, last, old(u[..]))
    ensures v[..] == ConvertV(bgra, w, h, last, u.Length, old(v[..]))
  {
    for blockY := 0 to h / 2
      invariant forall q :: 0 <= q < y.Length ==> y[q] == YCell(bgra, w, h, last, old(y[q]), q, blockY * (w / 2))
      invariant forall k :: 0 <= k < u.Length ==> u[k] == UCell(bgra, w, h, last, old(u[k]), k, blockY * (w / 2))
      invariant forall k :: 0 <= k < v.Length ==> v[k] == VCell(bgra, w, h, last, u.Length, old(v[k]), k, blockY * (w / 2))
    {
      for blockX := 0 to w / 2
        invariant forall q :: 0 <= q < y.Length ==>
          y[q] == YCell(bgra, w, h, last, old(y[q]), q, blockY * (w / 2) + blockX)
        invariant forall k :: 0 <= k < u.Length ==>
          u[k] == UCell(bgra, w, h, last, old(u[k]), k, blockY * (w / 2) + blockX)
        invariant forall k :: 0 <= k < v.Length ==>
          v[k] == VCell(bgra, w, h, last, u.Length, old(v[k]), k, blockY * (w / 2) + blockX)
      {
        var redSum, greenSum, blueSum := ConvertBlock(bgra, w, h, last, blockX, blockY, y);
        var redAvg, greenAvg, blueAvg := redSum / 4, greenSum / 4, blueSum / 4;
        var uValue := ChromaU(redAvg, greenAvg, blueAvg);
        var vValue := ChromaV(redAvg, greenAvg, blueAvg);
        var uvIdx := blockY * (w / 2) + blockX;
        BlockInRange(w, h, blockX, blockY);
        if uvIdx < u.Length {
          u[uvIdx] := Clamp(uValue);
          v[uvIdx] := Clamp(vValue);
        }
      }
      assert blockY * (w / 2) + w / 2 == (blockY + 1) * (w / 2);
    }
    assert y[..] == ConvertY(bgra, w, h, last, old(y[..]));
    assert u[..] == ConvertU(bgra, w, h, last, old(u[..]));
    assert v[..] == ConvertV(bgra, w, h, last, u.Length, old(v[..]));
  }
}

/** Properties of the 2x2 conversion, stated on its specification functions. */
module BlockConvertFacts {
  import opened Bt601
  import opened PlaneIndex
  import opened BlockConvert

  /** `a` and `b` hold the same B, G and R bytes; their alpha bytes may differ. */
  ghost predicate SameColour(a: seq<byte>, b: seq<byte>) {
    |a| == |b| && forall i :: 0 <= i < |a| && i % BytesPerPixel != 3 ==> a[i] == b[i]
  }

  lemma ColourBytesAgree(a: seq<byte>, b: seq<byte>, q: nat, c: nat)
    requires SameColour(a, b) && c <= BgraR && q * BytesPerPixel + c < |a|
    ensures a[q * BytesPerPixel + c] == b[q * BytesPerPixel + c]
  {
    assert (q * BytesPerPixel + c) % BytesPerPixel == c;
  }

  lemma {:induction false} PartialSumIgnoresAlpha(a: seq<byte>, b: seq<byte>, w: nat, bc: nat, br: nat,
                                                 last: GuardOffset, c: nat, t: nat)
    requires SameColour(a, b) && c <= BgraR && t <= 4
    ensures PartialSum(a, w, bc, br, last, c, t) == PartialSum(b, w, bc, br, last, c, t)
  {
    if t > 0 {
      PartialSumIgnoresAlpha(a, b, w, bc, br, last, c, t - 1);
      var q := PixelAt(w, bc, br, t - 1);
      if Present(a, q, last) {
        ColourBytesAgree(a, b, q, c);
      }
    }
  }

  lemma BlockChromaIgnoresAlpha(a: seq<byte>, b: seq<byte>, w: nat, bc: nat, br: nat, last: GuardOffset)
    requires SameColour(a, b)
    ensures BlockU(a, w, bc, br, last) == BlockU(b, w, bc, br, last)
    ensures BlockV(a, w, bc, br, last) == BlockV(b, w, bc, br, last)
  {
    PartialSumIgnoresAlpha(a, b, w, bc, br, last, BgraR, 4);
    PartialSumIgnoresAlpha(a, b, w, bc, br, last, BgraG, 4);
    PartialSumIgnoresAlpha(a, b, w, bc, br, last, BgraB, 4);
  }

  /** The alpha byte is never read: two inputs that differ only in their alpha
      bytes give the same three planes. */
  lemma AlphaIgnored(a: seq<byte>, b: seq<byte>, w: nat, h: nat, last: GuardOffset,
                     y: seq<byte>, u: seq<byte>, v: seq<byte>)
    requires SameColour(a, b)
    ensures ConvertY(a, w, h, last, y) == ConvertY(b, w, h, last, y)
    ensures ConvertU(a, w, h, last, u) == ConvertU(b, w, h, last, u)
    ensures ConvertV(a, w, h, last, |u|, v) == ConvertV(b, w, h, last, |u|, v)
  {
    forall q | 0 <= q < |y|
      ensures ConvertY(a, w, h, last, y)[q] == ConvertY(b, w, h, last, y)[q]
    {
      if Present(a, q, last) {
        ColourBytesAgree(a, b, q, BgraB);
        ColourBytesAgree(a, b, q, BgraG);
        ColourBytesAgree(a, b, q, BgraR);
      }
    }
    forall k | 0 <= k < |u| && w / 2 > 0
      ensures BlockU(a, w, k % (w / 2), k / (w / 2), last) == BlockU(b, w, k % (w / 2), k / (w / 2), last)
    {
      BlockChromaIgnoresAlpha(a, b, w, k % (w / 2), k / (w / 2), last);
    }
    forall k | 0 <= k < |v| && w / 2 > 0
      ensures BlockV(a, w, k % (w / 2), k / (w / 2), last) == BlockV(b, w, k % (w / 2), k / (w / 2), last)
    {
      BlockChromaIgnoresAlpha(a, b, w, k % (w / 2), k / (w / 2), last);
    }
  }

  /** A pixel in the block grid lies inside the first `w * h` cells. */
  lemma InGridInPlane(w: nat, h: nat, q: nat)
    requires InGrid(w, h, q)
    ensures q < w * h
  {
    BelowPlane(q, w, h);
  }

  /** What the conversion never touches: Y cells at or past `w * h`, Y cells of
      a pixel the guard skips, V cells at or past the U plane's length. */
  lemma UntouchedCells(bgra: seq<byte>, w: nat, h: nat, last: GuardOffset,
                       y: seq<byte>, u: seq<byte>, v: seq<byte>)
    ensures forall q :: 0 <= q < |y| && (q >= w * h || !Present(bgra, q, last)) ==>
      ConvertY(bgra, w, h, last, y)[q] == y[q]
    ensures forall k :: |u| <= k < |v| ==> ConvertV(bgra, w, h, last, |u|, v)[k] == v[k]
  {
    forall q | 0 <= q < |y| && q >= w * h
      ensures !InGrid(w, h, q)
    {
      if InGrid(w, h, q) {
        InGridInPlane(w, h, q);
      }
    }
  }

  lemma LastColumnOutsideGrid(w: nat, h: nat, q: nat)
    requires w % 2 == 1 && q % w == w - 1
    ensures !InGrid(w, h, q)
  {
  }

  lemma LastRowOutsideGrid(w: nat, h: nat, q: nat)
    requires h % 2 == 1 && (h - 1) * w <= q < h * w
    ensures !InGrid(w, h, q)
  {
    assert h * w == (h - 1) * w + w;
    DivModOfIndex(h - 1, q - (h - 1) * w, w);
  }

  /** With an odd width the last column of the Y plane keeps its old values;
      with an odd height the last row does. */
  lemma OddEdgesUntouched(bgra: seq<byte>, w: nat, h: nat, last: GuardOffset, y: seq<byte>)
    ensures w % 2 == 1 ==> forall q :: 0 <= q < |y| && q % w == w - 1 ==>
      ConvertY(bgra, w, h, last, y)[q] == y[q]
    ensures h % 2 == 1 ==> forall q :: 0 <= q < |y| && (h - 1) * w <= q < h * w ==>
      ConvertY(bgra, w, h, last, y)[q] == y[q]
  {
    if w % 2 == 1 {
      forall q | 0 <= q < |y| && q % w == w - 1
        ensures !InGrid(w, h, q)
      {
        LastColumnOutsideGrid(w, h, q);
      }
    }
    if h % 2 == 1 {
      forall q | 0 <= q < |y| && (h - 1) * w <= q < h * w
        ensures !InGrid(w, h, q)
      {
        LastRowOutsideGrid(w, h, q);
      }
    }
  }

  ghost predicate AllZero(s: seq<byte>) {
    forall i :: 0 <= i < |s| ==> s[i] == 0
  }

  lemma {:induction false} ZeroPartialSum(bgra: seq<byte>, w: nat, bc: nat, br: nat, last: GuardOffset, c: nat, t: nat)
    requires AllZero(bgra) && c <= BgraR && t <= 4
    ensures PartialSum(bgra, w, bc, br, last, c, t) == 0
  {
    if t > 0 {
      ZeroPartialSum(bgra, w, bc, br, last, c, t - 1);
    }
  }

  lemma ZeroBlockChroma(bgra: seq<byte>, w: nat, bc: nat, br: nat, last: GuardOffset)
    requires AllZero(bgra)
    ensures BlockU(bgra, w, bc, br, last) == 128 && BlockV(bgra, w, bc, br, last) == 128
  {
    ZeroPartialSum(bgra, w, bc, br, last, BgraR, 4);
    ZeroPartialSum(bgra, w, bc, br, last, BgraG, 4);
    ZeroPartialSum(bgra, w, bc, br, last, BgraB, 4);
    BlackIsNeutral();
  }

  lemma BlocksNeedWidth(w: nat, h: nat)
    requires Blocks(w, h) > 0
    ensures w / 2 > 0
  {
  }

  /** An all-zero (black) input gives luma 16 at every Y cell written and
      neutral chroma 128 at every chroma cell written. */
  lemma BlackFrame(bgra: seq<byte>, w: nat, h: nat, last: GuardOffset, y: seq<byte>, u: seq<byte>, v: seq<byte>)
    requires AllZero(bgra)
    ensures forall q :: 0 <= q < |y| ==>
      ConvertY(bgra, w, h, last, y)[q] == if InGrid(w, h, q) && Present(bgra, q, last) then 16 else y[q]
    ensures forall k :: 0 <= k < |u| ==>
      ConvertU(bgra, w, h, last, u)[k] == if k < Blocks(w, h) then 128 else u[k]
    ensures forall k :: 0 <= k < |v| ==>
      ConvertV(bgra, w, h, last, |u|, v)[k] == if k < Blocks(w, h) && k < |u| then 128 else v[k]
  {
    forall q | 0 <= q < |y| && InGrid(w, h, q) && Present(bgra, q, last)
      ensures ConvertY(bgra, w, h, last, y)[q] == 16
    {
      PixelInSomeBlock(w, h, q);
      BlackIsNeutral();
    }
    forall k | 0 <= k < |u| && k < Blocks(w, h)
      ensures ConvertU(bgra, w, h, last, u)[k] == 128
    {
      BlocksNeedWidth(w, h);
      ZeroBlockChroma(bgra, w, k % (w / 2), k / (w / 2), last);
    }
    forall k | 0 <= k < |v| && k < Blocks(w, h) && k < |u|
      ensures ConvertV(bgra, w, h, last, |u|, v)[k] == 128
    {
      BlocksNeedWidth(w, h);
      ZeroBlockChroma(bgra, w, k % (w / 2), k / (w / 2), last);
    }
  }

  /** Every pixel of the grid belongs to one of the `Blocks(w, h)` blocks. */
  lemma PixelInSomeBlock(w: nat, h: nat, q: nat)
    requires InGrid(w, h, q)
    ensures BlockOf(w, q) < Blocks(w, h)
  {
    var row, col := q / w, q % w;
    assert row / 2 < h / 2 && col / 2 < w / 2;
    BlockInRange(w, h, col / 2, row / 2);
  }

  /** For even dimensions the blocks tile the image, so there are `w * h / 4` of them. */
  lemma EvenBlocks(w: nat, h: nat)
    requires w % 2 == 0 && h % 2 == 0
    ensures Blocks(w, h) == w * h / 4
  {
    assert w * h == 4 * ((w / 2) * (h / 2));
  }

  /** With even dimensions every pixel of a `w * h` plane is in the grid. */
  lemma EvenPlaneInGrid(w: nat, h: nat, q: nat)
    requires w % 2 == 0 && h % 2 == 0 && q < w * h
    ensures InGrid(w, h, q)
  {
    RowInPlane(q, w, h);
  }

  /** With even dimensions and a full input (`4 * w * h` bytes or more) every
      cell of a `w * h` luma plane is written with its pixel's luma, and every
      chroma cell below `w * h / 4` that fits the U plane gets its block's value. */
  lemma FullCoverage(bgra: seq<byte>, w: nat, h: nat, last: GuardOffset, y: seq<byte>, u: seq<byte>, v: seq<byte>)
    requires w % 2 == 0 && h % 2 == 0 && |bgra| >= 4 * (w * h) && |y| >= w * h && |v| >= |u|
    ensures forall q :: 0 <= q < w * h ==> ConvertY(bgra, w, h, last, y)[q] == LumaAt(bgra, q)
    ensures forall k :: 0 <= k < w * h / 4 && k < |u| ==>
      ConvertU(bgra, w, h, last, u)[k] == BlockU(bgra, w, k % (w / 2), k / (w / 2), last) &&
      ConvertV(bgra, w, h, last, |u|, v)[k] == BlockV(bgra, w, k % (w / 2), k / (w / 2), last)
  {
    EvenBlocks(w, h);
    forall q | 0 <= q < w * h
      ensures ConvertY(bgra, w, h, last, y)[q] == LumaAt(bgra, q)
    {
      EvenPlaneInGrid(w, h, q);
      PixelInSomeBlock(w, h, q);
      assert Present(bgra, q, last);
    }
    if Blocks(w, h) > 0 {
      BlocksNeedWidth(w, h);
    }
  }

  lemma {:induction false} GuardsAgreeOnSums(bgra: seq<byte>, w: nat, bc: nat, br: nat, c: nat, t: nat)
    requires |bgra| % BytesPerPixel == 0 && c <= BgraR && t <= 4
    ensures PartialSum(bgra, w, bc, br, 2, c, t) == PartialSum(bgra, w, bc, br, 3, c, t)
  {
    if t > 0 {
      GuardsAgreeOnSums(bgra, w, bc, br, c, t - 1);
      GuardsAgree(bgra, PixelAt(w, bc, br, t - 1));
    }
  }

  /** On whole pixels the `idx + 2` guard lets through exactly what the `idx + 3` guard does. */
  lemma GuardsAgree(bgra: seq<byte>, q: nat)
    requires |bgra| % BytesPerPixel == 0
    ensures Present(bgra, q, 2) == Present(bgra, q, 3)
  {
    assert (q * 4 + 3) % 4 == 3;
  }

  /** On whole pixels both guards give the same Y plane. */
  lemma GuardsAgreeOnY(bgra: seq<byte>, w: nat, h: nat, y: seq<byte>)
    requires |bgra| % BytesPerPixel == 0
    ensures ConvertY(bgra, w, h, 2, y) == ConvertY(bgra, w, h, 3, y)
  {
    forall q | 0 <= q < |y|
      ensures ConvertY(bgra, w, h, 2, y)[q] == ConvertY(bgra, w, h, 3, y)[q]
    {
      GuardsAgree(bgra, q);
    }
  }

  /** On whole pixels both guards give every block the same U and V. */
  lemma GuardsAgreeOnBlock(bgra: seq<byte>, w: nat, bc: nat, br: nat)
    requires |bgra| % BytesPerPixel == 0
    ensures BlockU(bgra, w, bc, br, 2) == BlockU(bgra, w, bc, br, 3)
    ensures BlockV(bgra, w, bc, br, 2) == BlockV(bgra, w, bc, br, 3)
  {
    GuardsAgreeOnSums(bgra, w, bc, br, BgraR, 4);
    GuardsAgreeOnSums(bgra, w, bc, br, BgraG, 4);
    GuardsAgreeOnSums(bgra, w, bc, br, BgraB, 4);
  }

  /** On whole pixels both guards give the same U plane. */
  lemma GuardsAgreeOnU(bgra: seq<byte>, w: nat, h: nat, u: seq<byte>)
    requires |bgra| % BytesPerPixel == 0
    ensures ConvertU(bgra, w, h, 2, u) == ConvertU(bgra, w, h, 3, u)
  {
    forall k | 0 <= k < |u| && w / 2 > 0
      ensures BlockU(bgra, w, k % (w / 2), k / (w / 2), 2) == BlockU(bgra, w, k % (w / 2), k / (w / 2), 3)
    {
      GuardsAgreeOnBlock(bgra, w, k % (w / 2), k / (w / 2));
    }
    assert ConvertU(bgra, w, h, 2, u) == ConvertU(bgra, w, h, 3, u);
  }

  /** On whole pixels both guards give the same V plane. */
  lemma GuardsAgreeOnV(bgra: seq<byte>, w: nat, h: nat, uLen: nat, v: seq<byte>)
    requires |bgra| % BytesPerPixel == 0
    ensures ConvertV(bgra, w, h, 2, uLen, v) == ConvertV(bgra, w, h, 3, uLen, v)
  {
    forall k | 0 <= k < |v| && w / 2 > 0
      ensures BlockV(bgra, w, k % (w / 2), k / (w / 2), 2) == BlockV(bgra, w, k % (w / 2), k / (w / 2), 3)
    {
      GuardsAgreeOnBlock(bgra, w, k % (w / 2), k / (w / 2));
    }
    assert ConvertV(bgra, w, h, 2, uLen, v) == ConvertV(bgra, w, h, 3, uLen, v);
  }

  /** On input made of whole pixels the two guards (`idx + 2` and `idx + 3`)
      let the same pixels through, so the NVFBC copy and the PipeWire copy
      produce the same planes. */
  lemma GuardsAgreeOnWholePixels(bgra: seq<byte>, w: nat, h: nat, y: seq<byte>, u: seq<byte>, v: seq<byte>)
    requires |bgra| % BytesPerPixel == 0
    ensures ConvertY(bgra, w, h, 2, y) == ConvertY(bgra, w, h, 3, y)
    ensures ConvertU(bgra, w, h, 2, u) == ConvertU(bgra, w, h, 3, u)
    ensures ConvertV(bgra, w, h, 2, |u|, v) == ConvertV(bgra, w, h, 3, |u|, v)
  {
    GuardsAgreeOnY(bgra, w, h, y);
    GuardsAgreeOnU(bgra, w, h, u);
    GuardsAgreeOnV(bgra, w, h, |u|, v);
  }

  lemma FirstPixelOfTwoByTwo()
    ensures InGrid(2, 2, 0) && BlockOf(2, 0) == 0 && Blocks(2, 2) == 1
  {
    assert 0 / 2 == 0 && 0 % 2 == 0 && 2 / 2 == 1;
  }

  lemma BlackLuma(bgra: seq<byte>)
    requires bgra == [0, 0, 0]
    ensures LumaAt(bgra, 0) == 16
  {
    BlackIsNeutral();
  }

  /** Luma cell 0 of a 2x2 frame after conversion. */
  lemma FirstCellOfTwoByTwo(bgra: seq<byte>, last: GuardOffset, y: seq<byte>)
    requires |y| == 4
    ensures ConvertY(bgra, 2, 2, last, y)[0] == if Present(bgra, 0, last) then LumaAt(bgra, 0) else y[0]
  {
    FirstPixelOfTwoByTwo();
    assert ConvertY(bgra, 2, 2, last, y)[0] == YCell(bgra, 2, 2, last, y[0], 0, 1);
  }

  /** The guards differ on a trailing partial pixel: given three bytes of a
      2x2 frame, the NVFBC copy writes the first pixel's luma into the first
      luma cell and the PipeWire copy leaves the cell as it was, so the two
      disagree whenever the old value is below 16 (black gives 16). */
  lemma GuardsDifferOnPartialPixel(bgra: seq<byte>, y: seq<byte>)
    requires |bgra| == 3 && |y| == 4
    ensures ConvertY(bgra, 2, 2, 2, y)[0] == LumaAt(bgra, 0)
    ensures ConvertY(bgra, 2, 2, 3, y)[0] == y[0]
    ensures y[0] < 16 ==> ConvertY(bgra, 2, 2, 2, y)[0] != ConvertY(bgra, 2, 2, 3, y)[0]
    ensures bgra == [0, 0, 0] ==> ConvertY(bgra, 2, 2, 2, y)[0] == 16
  {
    assert Present(bgra, 0, 2) && !Present(bgra, 0, 3);
    FirstCellOfTwoByTwo(bgra, 2, y);
    FirstCellOfTwoByTwo(bgra, 3, y);
    ClampIsIdentity(bgra[BgraR], bgra[BgraG], bgra[BgraB]);
    if bgra == [0, 0, 0] {
      BlackLuma(bgra);
    }
  }
}
