/**
  The CPU BGRA to I420 conversion of the encoder benchmark: the same loop
  nest as the PipeWire capture service, with the same `idx + 3` guard.
 */
module BenchmarkBottleneck {
  import opened Bt601
  import opened BlockConvert
  import PipewireCapture

  /** Converts one BGRA frame into the three planes of an I420 buffer, writing
      them in place; the planes are those of the PipeWire conversion. */
  method BgraToI420(bgra: seq<byte>, width: nat, height: nat,
                    y: array<byte>, u: array<byte>, v: array<byte>)
    requires width * height <= y.Length && u.Length <= v.Length
    requires y != u && y != v && u != v
    modifies y, u, v
    ensures y[..] == ConvertY(bgra, width, height, PipewireCapture.PipewireGuard, old(y[..]))
    ensures u[..] == ConvertU(bgra, width, height, PipewireCapture.PipewireGuard, old(u[..]))
    ensures v[..] == ConvertV(bgra, width, height, PipewireCapture.PipewireGuard, u.Length, old(v[..]))
  {
    BgraToI420Blocks(bgra, width, height, PipewireCapture.PipewireGuard, y, u, v);
  }
}
