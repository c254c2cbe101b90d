/**
  The CPU BGRA to I420 path of the PipeWire capture service: 2x2 block
  conversion whose bounds guard asks for the whole pixel (`idx + 3`).
 */
module PipewireCapture {
  import opened Bt601
  import opened PlaneIndex
  import opened BlockConvert
  import opened BlockConvertFacts

  /** Offset of the byte the PipeWire guard tests before reading a pixel. */
  const PipewireGuard: GuardOffset := 3

  /** Converts one captured BGRA frame into the three planes of an I420 buffer,
      writing them in place. */
  method BgraToI420(bgra: seq<byte>, width: nat, height: nat,
                    y: array<byte>, u: array<byte>, v: array<byte>)
    requires width * height <= y.Length && u.Length <= v.Length
    requires y != u && y != v && u != v
    modifies y, u, v
    ensures y[..] == ConvertY(bgra, width, height, PipewireGuard, old(y[..]))
    ensures u[..] == ConvertU(bgra, width, height, PipewireGuard, old(u[..]))
    ensures v[..] == ConvertV(bgra, width, height, PipewireGuard, u.Length, old(v[..]))
  {
    BgraToI420Blocks(bgra, width, height, PipewireGuard, y, u, v);
  }

  /** A black frame of even size with planes of the I420 sizes `w * h`,
      `w * h / 4`, `w * h / 4`: every plane keeps its length, every luma cell
      becomes 16 and every chroma cell 128. */
  lemma BlackEvenFrame(bgra: seq<byte>, w: nat, h: nat, y: seq<byte>, u: seq<byte>, v: seq<byte>)
    requires w % 2 == 0 && h % 2 == 0
    requires |bgra| == w * h * 4 && AllZero(bgra)
    requires |y| == w * h && |u| == w * h / 4 && |v| == w * h / 4
    ensures |ConvertY(bgra, w, h, PipewireGuard, y)| == w * h
    ensures |ConvertU(bgra, w, h, PipewireGuard, u)| == w * h / 4
    ensures |ConvertV(bgra, w, h, PipewireGuard, |u|, v)| == w * h / 4
    ensures forall q :: 0 <= q < w * h ==> ConvertY(bgra, w, h, PipewireGuard, y)[q] == 16
    ensures forall k :: 0 <= k < w * h / 4 ==>
      ConvertU(bgra, w, h, PipewireGuard, u)[k] == 128 && ConvertV(bgra, w, h, PipewireGuard, |u|, v)[k] == 128
  {
    assert w * h * 4 == 4 * (w * h);
    FullCoverage(bgra, w, h, PipewireGuard, y, u, v);
    BlackFrame(bgra, w, h, PipewireGuard, y, u, v);
    EvenBlocks(w, h);
    forall q | 0 <= q < w * h
      ensures ConvertY(bgra, w, h, PipewireGuard, y)[q] == 16
    {
      EvenPlaneInGrid(w, h, q);
    }
  }

  /** The 1920x1080 case: a 1080p black frame fills planes of 2073600,
      518400 and 518400 bytes, with luma 16 and chroma 128 throughout. */
  lemma FullHdBlackFrame(bgra: seq<byte>, y: seq<byte>, u: seq<byte>, v: seq<byte>)
    requires |bgra| == 1920 * 1080 * 4 && AllZero(bgra)
    requires |y| == 1920 * 1080 && |u| == 1920 * 1080 / 4 && |v| == 1920 * 1080 / 4
    ensures |ConvertY(bgra, 1920, 1080, PipewireGuard, y)| == 2073600
    ensures |ConvertU(bgra, 1920, 1080, PipewireGuard, u)| == 518400
    ensures |ConvertV(bgra, 1920, 1080, PipewireGuard, |u|, v)| == 518400
    ensures forall q :: 0 <= q < 2073600 ==> ConvertY(bgra, 1920, 1080, PipewireGuard, y)[q] == 16
    ensures forall k :: 0 <= k < 518400 ==>
      ConvertU(bgra, 1920, 1080, PipewireGuard, u)[k] == 128 && ConvertV(bgra, 1920, 1080, PipewireGuard, |u|, v)[k] == 128
  {
    BlackEvenFrame(bgra, 1920, 1080, y, u, v);
  }
}
