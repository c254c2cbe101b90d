/**
  The low-power NVFBC path: BGRA to I420 with nearest-neighbour downscaling.
  Source coordinates come from 16.16 fixed-point ratios; the luma pass covers
  the whole destination grid, the chroma pass samples one source pixel per
  2x2 destination block, without averaging. Both passes use the `idx + 2`
  guard of the NVFBC copy.
 */
module NvfbcLowPower {
  import opened Bt601
  import opened PlaneIndex
  import opened BlockConvert
  import opened NvfbcCapture

  /** One in 16.16 fixed point, `1 << 16`. */
  const FixedOne: nat := 65536

  /** `(src << 16) / dst`: the source step per destination pixel in 16.16 fixed point. */
  function Ratio(src: nat, dst: nat): nat
    requires dst > 0
  {
    (src * FixedOne) / dst
  }

  /** `(d * ratio) >> 16`: the source coordinate of destination coordinate `d`. */
  function SrcCoord(d: nat, ratio: nat): nat {
    (d * ratio) / FixedOne
  }

  lemma DivBelow(x: nat, n: nat)
    requires x < n * FixedOne
    ensures x / FixedOne < n
  {
  }

  lemma DivMonotone(a: nat, b: nat)
    requires a <= b
    ensures a / FixedOne <= b / FixedOne
  {
  }

  /** Every destination coordinate maps inside the source, and the product
      `d * ratio` stays below `src << 16`, so it cannot overflow a 64-bit
      `usize` for 32-bit sizes. */
  lemma SrcCoordBelow(src: nat, dst: nat, d: nat)
    requires dst > 0 && src > 0 && d < dst
    ensures d * Ratio(src, dst) < src * FixedOne
    ensures SrcCoord(d, Ratio(src, dst)) < src
  {
    var r := Ratio(src, dst);
    assert r * dst <= src * FixedOne;
    MulMonotone(d, dst - 1, r);
    assert (dst - 1) * r == dst * r - r;
    DivBelow(d * r, src);
  }

  /** The source coordinate never decreases as the destination coordinate grows. */
  lemma SrcCoordMonotone(d1: nat, d2: nat, ratio: nat)
    requires d1 <= d2
    ensures SrcCoord(d1, ratio) <= SrcCoord(d2, ratio)
  {
    MulMonotone(d1, d2, ratio);
    DivMonotone(d1 * ratio, d2 * ratio);
  }

  /** Without scaling the ratio is exactly one and every coordinate maps to itself. */
  lemma SameSizeIsIdentity(n: nat, d: nat)
    requires n > 0
    ensures Ratio(n, n) == FixedOne
    ensures SrcCoord(d, Ratio(n, n)) == d
  {
    DivModOfIndex(FixedOne, 0, n);
    assert FixedOne * n + 0 == n * FixedOne;
    DivModOfIndex(d, 0, FixedOne);
  }

  /** Index of the source pixel sampled for destination pixel (dx, dy). */
  function SourcePixel(srcW: nat, srcH: nat, dstW: nat, dstH: nat, dx: nat, dy: nat): nat
    requires dstW > 0 && dstH > 0
  {
    SrcCoord(dy, Ratio(srcH, dstH)) * srcW + SrcCoord(dx, Ratio(srcW, dstW))
  }

  /** For a non-empty source the sampled pixel of every destination pixel lies
      inside the `srcW * srcH` source image. */
  lemma SourcePixelInImage(srcW: nat, srcH: nat, dstW: nat, dstH: nat, dx: nat, dy: nat)
    requires dstW > 0 && dstH > 0 && srcW > 0 && srcH > 0 && dx < dstW && dy < dstH
    ensures SourcePixel(srcW, srcH, dstW, dstH, dx, dy) < srcW * srcH
  {
    SrcCoordBelow(srcW, dstW, dx);
    SrcCoordBelow(srcH, dstH, dy);
    IndexInPlane(SrcCoord(dy, Ratio(srcH, dstH)), SrcCoord(dx, Ratio(srcW, dstW)), srcW, srcH);
  }

  /** Clamped chroma of source pixel `p`. */
  function ChromaUAt(bgra: seq<byte>, p: nat): byte
    requires p * BytesPerPixel + BgraR < |bgra|
  {
    var i := p * BytesPerPixel;
    Clamp(ChromaU(bgra[i + BgraR], bgra[i + BgraG], bgra[i + BgraB]))
  }

  function ChromaVAt(bgra: seq<byte>, p: nat): byte
    requires p * BytesPerPixel + BgraR < |bgra|
  {
    var i := p * BytesPerPixel;
    Clamp(ChromaV(bgra[i + BgraR], bgra[i + BgraG], bgra[i + BgraB]))
  }

  /** Luma cell `q` once the first `n` destination pixels (row by row) are done. */
  function ScaledYCell(bgra: seq<byte>, srcW: nat, srcH: nat, dstW: nat, dstH: nat,
                       prev: byte, q: nat, n: nat): byte
    requires dstW > 0 && dstH > 0
  {
    var p := SourcePixel(srcW, srcH, dstW, dstH, q % dstW, q / dstW);
    if q < n && Present(bgra, p, NvfbcGuard) then LumaAt(bgra, p) else prev
  }

  /** The source pixel sampled for chroma cell `k`: the one under destination
      pixel (2 * blockX, 2 * blockY) of block (blockX, blockY). */
  function ChromaSource(srcW: nat, srcH: nat, dstW: nat, dstH: nat, k: nat): nat
    requires dstW / 2 > 0 && dstH > 0
  {
    SourcePixel(srcW, srcH, dstW, dstH, 2 * (k % (dstW / 2)), 2 * (k / (dstW / 2)))
  }

  /** U cell `k` once the first `n` destination blocks are done. */
  function ScaledUCell(bgra: seq<byte>, srcW: nat, srcH: nat, dstW: nat, dstH: nat,
                       prev: byte, k: nat, n: nat): byte
    requires dstW > 0 && dstH > 0
  {
    if dstW / 2 > 0 && k < n && k < Blocks(dstW, dstH) && Present(bgra, ChromaSource(srcW, srcH, dstW, dstH, k), NvfbcGuard)
    then ChromaUAt(bgra, ChromaSource(srcW, srcH, dstW, dstH, k)) else prev
  }

  /** V cell `k` once the first `n` destination blocks are done; written
      together with U cell `k`, hence only below the U plane's length. */
  function ScaledVCell(bgra: seq<byte>, srcW: nat, srcH: nat, dstW: nat, dstH: nat, uLen: nat,
                       prev: byte, k: nat, n: nat): byte
    requires dstW > 0 && dstH > 0
  {
    if dstW / 2 > 0 && k < n && k < Blocks(dstW, dstH) && k < uLen && Present(bgra, ChromaSource(srcW, srcH, dstW, dstH, k), NvfbcGuard)
    then ChromaVAt(bgra, ChromaSource(srcW, srcH, dstW, dstH, k)) else prev
  }

  /** The Y plane after the luma pass, given the plane before. */
  function ScaleY(bgra: seq<byte>, srcW: nat, srcH: nat, dstW: nat, dstH: nat, y: seq<byte>): seq<byte>
    requires dstW > 0 && dstH > 0
  {
    seq(|y|, q requires 0 <= q < |y| => ScaledYCell(bgra, srcW, srcH, dstW, dstH, y[q], q, dstW * dstH))
  }

  /** The U plane after the chroma pass, given the plane before. */
  function ScaleU(bgra: seq<byte>, srcW: nat, srcH: nat, dstW: nat, dstH: nat, u: seq<byte>): seq<byte>
    requires dstW > 0 && dstH > 0
  {
    seq(|u|, k requires 0 <= k < |u| => ScaledUCell(bgra, srcW, srcH, dstW, dstH, u[k], k, Blocks(dstW, dstH)))
  }

  /** The V plane after the chroma pass, given the plane before and the U plane's length. */
  function ScaleV(bgra: seq<byte>, srcW: nat, srcH: nat, dstW: nat, dstH: nat, uLen: nat, v: seq<byte>): seq<byte>
    requires dstW > 0 && dstH > 0
  {
    seq(|v|, k requires 0 <= k < |v| => ScaledVCell(bgra, srcW, srcH, dstW, dstH, uLen, v[k], k, Blocks(dstW, dstH)))
  }

  /** The luma pass: every destination pixel, row by row, in place. */
  method ScaleLumaPass(bgra: seq<byte>, srcW: nat, srcH: nat, dstW: nat, dstH: nat, y: array<byte>)
    requires dstW > 0 && dstH > 0 && dstW * dstH <= y.Length
    modifies y
    ensures y[..] == ScaleY(bgra, srcW, srcH, dstW, dstH, old(y[..]))
  {
    var xRatio := Ratio(srcW, dstW);
    var yRatio := Ratio(srcH, dstH);
    for dy := 0 to dstH
      invariant forall q :: 0 <= q < y.Length ==>
        y[q] == ScaledYCell(bgra, srcW, srcH, dstW, dstH, old(y[q]), q, dy * dstW)
    {
      var srcY := SrcCoord(dy, yRatio);
      for dx := 0 to dstW
        invariant forall q :: 0 <= q < y.Length ==>
          y[q] == ScaledYCell(bgra, srcW, srcH, dstW, dstH, old(y[q]), q, dy * dstW + dx)
      {
        var srcX := SrcCoord(dx, xRatio);
        var pixel := srcY * srcW + srcX;
        var idx := pixel * BytesPerPixel;
        DivModOfIndex(dy, dx, dstW);
        if idx + BgraR < |bgra| {
          var blue, green, red := bgra[idx + BgraB], bgra[idx + BgraG], bgra[idx + BgraR];
          IndexInPlane(dy, dx, dstW, dstH);
          y[dy * dstW + dx] := Clamp(Luma(red, green, blue));
        }
      }
      assert dy * dstW + dstW == (dy + 1) * dstW;
    }
    assert y[..] == ScaleY(bgra, srcW, srcH, dstW, dstH, old(y[..]));
  }

  /** Block (dx, dy) is chroma cell `dy * (dstW / 2) + dx`, and that cell
      samples the source pixel under destination pixel (2 * dx, 2 * dy). */
  lemma ChromaStep(srcW: nat, srcH: nat, dstW: nat, dstH: nat, dx: nat, dy: nat)
    requires dstW > 0 && dstH > 0 && dx < dstW / 2 && dy < dstH / 2
    ensures dy * (dstW / 2) + dx < Blocks(dstW, dstH)
    ensures ChromaSource(srcW, srcH, dstW, dstH, dy * (dstW / 2) + dx) ==
      SrcCoord(dy * 2, Ratio(srcH, dstH)) * srcW + SrcCoord(dx * 2, Ratio(srcW, dstW))
  {
    DivModOfIndex(dy, dx, dstW / 2);
    BlockInRange(dstW, dstH, dx, dy);
  }

  /** The chroma pass: one sample per 2x2 destination block, U and V written
      together and only below the U plane's length. */
  method ScaleChromaPass(bgra: seq<byte>, srcW: nat, srcH: nat, dstW: nat, dstH: nat,
                         u: array<byte>, v: array<byte>)
    requires dstW > 0 && dstH > 0 && u.Length <= v.Length && u != v
    modifies u, v
    ensures u[..] == ScaleU(bgra, srcW, srcH, dstW, dstH, old(u[..]))
    ensures v[..] == ScaleV(bgra, srcW, srcH, dstW, dstH, u.Length, old(v[..]))
  {
    var xRatio := Ratio(srcW, dstW);
    var yRatio := Ratio(srcH, dstH);
    for dy := 0 to dstH / 2
      invariant forall k :: 0 <= k < u.Length ==>
        u[k] == ScaledUCell(bgra, srcW, srcH, dstW, dstH, old(u[k]), k, dy * (dstW / 2))
      invariant forall k :: 0 <= k < v.Length ==>
        v[k] == ScaledVCell(bgra, srcW, srcH, dstW, dstH, u.Length, old(v[k]), k, dy * (dstW / 2))
    {
      for dx := 0 to dstW / 2
        invariant forall k :: 0 <= k < u.Length ==>
          u[k] == ScaledUCell(bgra, srcW, srcH, dstW, dstH, old(u[k]), k, dy * (dstW / 2) + dx)
        invariant forall k :: 0 <= k < v.Length ==>
          v[k] == ScaledVCell(bgra, srcW, srcH, dstW, dstH, u.Length, old(v[k]), k, dy * (dstW / 2) + dx)
      {
        var srcX := SrcCoord(dx * 2, xRatio);
        var srcY := SrcCoord(dy * 2, yRatio);
        var pixel := srcY * srcW + srcX;
        var idx := pixel * BytesPerPixel;
        var uvIdx := dy * (dstW / 2) + dx;
        ChromaStep(srcW, srcH, dstW, dstH, dx, dy);
        if idx + BgraR < |bgra| {
          var blue, green, red := bgra[idx + BgraB], bgra[idx + BgraG], bgra[idx + BgraR];
          if uvIdx < u.Length {
            u[uvIdx] := Clamp(ChromaU(red, green, blue));
            v[uvIdx] := Clamp(ChromaV(red, green, blue));
          }
        }
      }
      assert dy * (dstW / 2) + dstW / 2 == (dy + 1) * (dstW / 2);
    }
    assert u[..] == ScaleU(bgra, srcW, srcH, dstW, dstH, old(u[..]));
    assert v[..] == ScaleV(bgra, srcW, srcH, dstW, dstH, u.Length, old(v[..]));
  }

  /** The whole scaled conversion: the luma pass, then the chroma pass. */
  method BgraToI420Scaled(bgra: seq<byte>, srcW: nat, srcH: nat, dstW: nat, dstH: nat,
                          y: array<byte>, u: array<byte>, v: array<byte>)
    requires dstW > 0 && dstH > 0 && dstW * dstH <= y.Length && u.Length <= v.Length
    requires y != u && y != v && u != v
    modifies y, u, v
    ensures y[..] == ScaleY(bgra, srcW, srcH, dstW, dstH, old(y[..]))
    ensures u[..] == ScaleU(bgra, srcW, srcH, dstW, dstH, old(u[..]))
    ensures v[..] == ScaleV(bgra, srcW, srcH, dstW, dstH, u.Length, old(v[..]))
  {
    ScaleLumaPass(bgra, srcW, srcH, dstW, dstH, y);
    ScaleChromaPass(bgra, srcW, srcH, dstW, dstH, u, v);
  }

  /** Destination pixel (2 * blockX, 2 * blockY), the top-left pixel of block (blockX, blockY),
      is cell `2 * blockY * dstW + 2 * blockX` of the luma plane. */
  lemma BlockCorner(dstW: nat, dstH: nat, blockX: nat, blockY: nat)
    requires blockX < dstW / 2 && blockY < dstH / 2
    ensures 2 * blockY * dstW + 2 * blockX < dstW * dstH
    ensures (2 * blockY * dstW + 2 * blockX) % dstW == 2 * blockX && (2 * blockY * dstW + 2 * blockX) / dstW == 2 * blockY
  {
    DivModOfIndex(2 * blockY, 2 * blockX, dstW);
    IndexInPlane(2 * blockY, 2 * blockX, dstW, dstH);
  }

  /** The chroma cell of block (blockX, blockY) takes its colour from the very source
      pixel the luma pass samples for destination pixel (2 * blockX, 2 * blockY). */
  lemma ChromaSharesLumaSource(srcW: nat, srcH: nat, dstW: nat, dstH: nat, blockX: nat, blockY: nat)
    requires blockX < dstW / 2 && blockY < dstH / 2
    ensures blockY * (dstW / 2) + blockX < Blocks(dstW, dstH)
    ensures 2 * blockY * dstW + 2 * blockX < dstW * dstH
    ensures ChromaSource(srcW, srcH, dstW, dstH, blockY * (dstW / 2) + blockX) ==
      SourcePixel(srcW, srcH, dstW, dstH, (2 * blockY * dstW + 2 * blockX) % dstW, (2 * blockY * dstW + 2 * blockX) / dstW)
  {
    ChromaStep(srcW, srcH, dstW, dstH, blockX, blockY);
    BlockCorner(dstW, dstH, blockX, blockY);
  }

  /** With a non-empty source and a buffer of at least `4 * srcW * srcH`
      bytes, the luma pass writes every one of the `dstW * dstH` cells. */
  lemma LumaPassCoversGrid(bgra: seq<byte>, srcW: nat, srcH: nat, dstW: nat, dstH: nat, y: seq<byte>)
    requires dstW > 0 && dstH > 0 && srcW > 0 && srcH > 0
    requires |bgra| >= 4 * (srcW * srcH) && |y| >= dstW * dstH
    ensures forall q :: 0 <= q < dstW * dstH ==>
      var p := SourcePixel(srcW, srcH, dstW, dstH, q % dstW, q / dstW);
      Present(bgra, p, NvfbcGuard) && ScaleY(bgra, srcW, srcH, dstW, dstH, y)[q] == LumaAt(bgra, p)
  {
    forall q | 0 <= q < dstW * dstH
      ensures Present(bgra, SourcePixel(srcW, srcH, dstW, dstH, q % dstW, q / dstW), NvfbcGuard)
    {
      RowInPlane(q, dstW, dstH);
      SourcePixelInImage(srcW, srcH, dstW, dstH, q % dstW, q / dstW);
    }
  }

  /** Without scaling, luma cell `q` samples source pixel `q` itself: the
      scaled conversion then agrees with a plain per-pixel conversion. */
  lemma UnscaledLumaIsPerPixel(bgra: seq<byte>, w: nat, h: nat, y: seq<byte>, q: nat)
    requires w > 0 && h > 0 && q < |y|
    ensures ScaleY(bgra, w, h, w, h, y)[q] ==
      if q < w * h && Present(bgra, q, NvfbcGuard) then LumaAt(bgra, q) else y[q]
  {
    SameSizeIsIdentity(w, q % w);
    SameSizeIsIdentity(h, q / w);
    assert SourcePixel(w, h, w, h, q % w, q / w) == q;
  }

  /** The capture settings of the low-power mode. */
  datatype LowPowerSettings = LowPowerSettings(targetWidth: nat, targetHeight: nat, targetFps: nat)

  /** The default low-power mode: 720p at 30 frames per second. */
  function DefaultSettings(): (s: LowPowerSettings)
    ensures s.targetWidth % 16 == 0 && s.targetHeight % 16 == 0
    ensures s.targetWidth * 9 == s.targetHeight * 16
  {
    LowPowerSettings(1280, 720, 30)
  }

  /** The defaults are 1280x720 at 30 FPS, and scaling a 1080p capture down
      to them steps 1.5 source pixels (98304 in 16.16) per destination pixel. */
  lemma DefaultSettingsFromFullHd()
    ensures DefaultSettings() == LowPowerSettings(1280, 720, 30)
    ensures Ratio(1920, DefaultSettings().targetWidth) == 98304
    ensures Ratio(1080, DefaultSettings().targetHeight) == 98304
    ensures SrcCoord(1279, 98304) == 1918 && SrcCoord(719, 98304) == 1078
  {
  }
}
