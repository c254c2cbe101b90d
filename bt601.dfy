/**
  The 8-bit integer approximation of the ITU-R BT.601 studio-range Y'CbCr
  equations (section 2.5 of Rec. ITU-R BT.601-7) used by every CPU BGRA to
  I420 converter of the capture services.
 */
module Bt601 {

  /** An unsigned 8-bit value, as stored in the BGRA input and the I420 planes. */
  type byte = x: int | 0 <= x < 256

  // Coefficients, rounding term, shift and offsets of the integer equations.
  const YuvYRCoef: int := 66
  const YuvYGCoef: int := 129
  const YuvYBCoef: int := 25
  const YuvURCoef: int := -38
  const YuvUGCoef: int := -74
  const YuvUBCoef: int := 112
  const YuvVRCoef: int := 112
  const YuvVGCoef: int := -94
  const YuvVBCoef: int := -18
  const YuvRounding: int := 128
  const YuvShift: nat := 8
  const YuvYOffset: int := 16
  const YuvUvOffset: int := 128

  // Byte offsets of the colour components inside one BGRA pixel.
  const BgraB: nat := 0
  const BgraG: nat := 1
  const BgraR: nat := 2
  const BytesPerPixel: nat := 4

  /** `x >> 8` on a signed 32-bit integer: an arithmetic shift, i.e. a division
      by 256 rounded towards minus infinity. Dafny's `/` by a positive divisor
      rounds the same way, also for a negative `x`. */
  function ShiftRight(x: int): int {
    x / 256
  }

  /** Rust's `clamp(0, 255)` followed by `as u8`. */
  function Clamp(v: int): byte {
    if v < 0 then 0 else if v > 255 then 255 else v
  }

  /** Luma of one pixel; always inside the studio range 16..235. */
  function Luma(r: byte, g: byte, b: byte): (y: int)
    ensures 16 <= y <= 235
  {
    ShiftRight(YuvYRCoef * r + YuvYGCoef * g + YuvYBCoef * b + YuvRounding) + YuvYOffset
  }

  /** Blue-difference chroma; always inside the studio range 16..240. */
  function ChromaU(r: byte, g: byte, b: byte): (u: int)
    ensures 16 <= u <= 240
  {
    ShiftRight(YuvURCoef * r + YuvUGCoef * g + YuvUBCoef * b + YuvRounding) + YuvUvOffset
  }

  /** Red-difference chroma; always inside the studio range 16..240. */
  function ChromaV(r: byte, g: byte, b: byte): (v: int)
    ensures 16 <= v <= 240
  {
    ShiftRight(YuvVRCoef * r + YuvVGCoef * g + YuvVBCoef * b + YuvRounding) + YuvUvOffset
  }

  /** For every byte input the clamp applied before the narrowing cast never
      changes a value. */
  lemma ClampIsIdentity(r: byte, g: byte, b: byte)
    ensures Clamp(Luma(r, g, b)) == Luma(r, g, b)
    ensures Clamp(ChromaU(r, g, b)) == ChromaU(r, g, b)
    ensures Clamp(ChromaV(r, g, b)) == ChromaV(r, g, b)
  {
  }

  /** Black maps to the bottom of the luma range and to neutral chroma. */
  lemma BlackIsNeutral()
    ensures Luma(0, 0, 0) == 16 && ChromaU(0, 0, 0) == 128 && ChromaV(0, 0, 0) == 128
  {
  }

  /** White maps to the top of the luma range and to neutral chroma. */
  lemma WhiteIsNeutral()
    ensures Luma(255, 255, 255) == 235 && ChromaU(255, 255, 255) == 128 && ChromaV(255, 255, 255) == 128
  {
  }
}
