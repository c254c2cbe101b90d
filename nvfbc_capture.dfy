/**
  The CPU BGRA to I420 path of the NVFBC capture service: 2x2 block
  conversion whose bounds guard asks only for the red byte (`idx + 2`).
 */
module NvfbcCapture {
  import opened Bt601
  import opened BlockConvert

  /** Offset of the byte the NVFBC guard tests before reading a pixel. */
  const NvfbcGuard: GuardOffset := BgraR

  /** Converts one captured BGRA frame into the three planes of an I420 buffer,
      writing them in place. */
  method BgraToI420(bgra: seq<byte>, width: nat, height: nat,
                    y: array<byte>, u: array<byte>, v: array<byte>)
    requires width * height <= y.Length && u.Length <= v.Length
    requires y != u && y != v && u != v
    modifies y, u, v
    ensures y[..] == ConvertY(bgra, width, height, NvfbcGuard, old(y[..]))
    ensures u[..] == ConvertU(bgra, width, height, NvfbcGuard, old(u[..]))
    ensures v[..] == ConvertV(bgra, width, height, NvfbcGuard, u.Length, old(v[..]))
  {
    BgraToI420Blocks(bgra, width, height, NvfbcGuard, y, u, v);
  }
}
