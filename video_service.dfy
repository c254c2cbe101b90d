/**
  The integer logic of the screen-share video service: alignment of the
  encoder resolution to multiples of 16, the choice of the target resolution,
  and the copy of an I420 sample from the software appsink into a frame buffer.
 */
module VideoService {
  import opened Bt601
  import opened GpuColorConvert
  import opened Wrappers

  /** An unsigned 32-bit value. */
  type u32 = x: nat | x < U32Modulus

  /** The encoder's alignment requirement. */
  const VaapiAlignment: nat := 16

  /** `(value + 15) & !15` on `u32`: the sum wraps modulo 2^32, and clearing
      the four low bits of a `u32` subtracts its remainder modulo 16. */
  function AlignTo16(value: u32): (r: u32)
    ensures r % VaapiAlignment == 0
    ensures value <= U32Modulus - VaapiAlignment ==> value <= r < value + VaapiAlignment
  {
    var sum := Wrap32(value + (VaapiAlignment - 1));
    sum - sum % VaapiAlignment
  }

  /** Below the wrap-around point the result is the least multiple of 16 at
      or above the value. */
  lemma AlignIsLeast(value: u32, m: u32)
    requires value <= U32Modulus - VaapiAlignment && m % VaapiAlignment == 0 && value <= m
    ensures AlignTo16(value) <= m
  {
  }

  /** Multiples of 16 are fixed points, hence the alignment is idempotent. */
  lemma AlignFixesMultiples(value: u32)
    ensures value % VaapiAlignment == 0 ==> AlignTo16(value) == value
    ensures AlignTo16(AlignTo16(value)) == AlignTo16(value)
  {
  }

  /** The resolutions the service relies on: 1920, 480 and 720 are kept,
      1080 becomes 1088 and 854 becomes 864. */
  lemma AlignExamples()
    ensures AlignTo16(1920) == 1920 && AlignTo16(480) == 480 && AlignTo16(720) == 720
    ensures AlignTo16(1080) == 1088 && AlignTo16(854) == 864
  {
  }

  /** Past `2^32 - 16` the addition wraps and the result drops to 0. */
  lemma AlignWrapsNearTop(value: u32)
    requires value > U32Modulus - VaapiAlignment
    ensures AlignTo16(value) == 0
  {
  }

  /** A monitor size the capture library could not report falls back to 1920x1080. */
  function NativeSize(width: Option<u32>, height: Option<u32>): (r: (u32, u32))
    ensures r.0 == (if width.Some? then width.value else 1920)
    ensures r.1 == (if height.Some? then height.value else 1080)
  {
    (match width case Some(w) => w case None => 1920,
     match height case Some(h) => h case None => 1080)
  }

  /** The encoder resolution: the aligned native size when either requested
      component is 0, the aligned requested size otherwise. */
  function TargetResolution(requested: (u32, u32), native: (u32, u32)): (r: (u32, u32))
    ensures r.0 % VaapiAlignment == 0 && r.1 % VaapiAlignment == 0
    ensures requested.0 == 0 || requested.1 == 0 ==> r == (AlignTo16(native.0), AlignTo16(native.1))
    ensures requested.0 != 0 && requested.1 != 0 ==> r == (AlignTo16(requested.0), AlignTo16(requested.1))
  {
    if requested.0 == 0 || requested.1 == 0 then
      (AlignTo16(native.0), AlignTo16(native.1))
    else
      (AlignTo16(requested.0), AlignTo16(requested.1))
  }

  /** With a native request the encoder frame covers the monitor: each side
      reported by the capture library is rounded up by less than 16, and an
      unreported monitor is encoded at 1920x1088. */
  lemma NativeTargetCoversMonitor(requested: (u32, u32), width: Option<u32>, height: Option<u32>)
    requires requested.0 == 0 || requested.1 == 0
    ensures var r := TargetResolution(requested, NativeSize(width, height));
      (width.Some? && width.value <= U32Modulus - VaapiAlignment ==> width.value <= r.0 < width.value + VaapiAlignment) &&
      (height.Some? && height.value <= U32Modulus - VaapiAlignment ==> height.value <= r.1 < height.value + VaapiAlignment) &&
      (width.None? ==> r.0 == 1920) && (height.None? ==> r.1 == 1088)
  {
    AlignFixesMultiples(1920);
  }

  /** The default share asks for 1280x720, already aligned; with a native
      request on an unknown monitor the target is 1920x1088. */
  lemma TargetResolutionExamples()
    ensures TargetResolution((1280, 720), NativeSize(None, None)) == (1280, 720)
    ensures TargetResolution((0, 0), NativeSize(None, None)) == (1920, 1088)
    ensures TargetResolution((1366, 0), (2560, 1440)) == (2560, 1440)
  {
  }

  /** What the software appsink callback does with one I420 sample: skip it,
      hand a frame to the video source, or panic. */
  datatype SinkOutcome =
    | Skipped
    | Captured(y: seq<byte>, u: seq<byte>, v: seq<byte>)
    | Panicked

  /** The sample holds a whole I420 frame: `y_size + 2 * uv_size` bytes or more. */
  predicate HoldsFrame(data: seq<byte>, width: nat, height: nat) {
    |data| >= YSize(width, height) + 2 * UvSize(width, height)
  }

  /** The fresh buffer's planes are large enough for the copies. */
  predicate PlanesFit(width: nat, height: nat, y: seq<byte>, u: seq<byte>, v: seq<byte>) {
    |y| >= YSize(width, height) && |u| >= UvSize(width, height) && |v| >= UvSize(width, height)
  }

  /** The callback as written: the V plane is filled from the open tail
      `data[y_size + uv_size..]`, and `copy_from_slice` panics unless that tail
      is exactly `uv_size` bytes long. `y`, `u`, `v` are the planes of the
      freshly allocated buffer; with planes too small no copy is made and the
      blank frame is still handed on. */
  function SinkCopyAsWritten(data: seq<byte>, width: nat, height: nat,
                             y: seq<byte>, u: seq<byte>, v: seq<byte>): (r: SinkOutcome)
    ensures r == Skipped <==> !HoldsFrame(data, width, height)
    ensures r == Panicked <==>
              HoldsFrame(data, width, height) && PlanesFit(width, height, y, u, v) &&
              |data| != YSize(width, height) + 2 * UvSize(width, height)
  {
    var ys, uvs := YSize(width, height), UvSize(width, height);
    if |data| < ys + uvs + uvs then Skipped
    else if |y| >= ys && |u| >= uvs && |v| >= uvs then
      if |data| - (ys + uvs) != uvs then Panicked
      else Captured(data[0..ys] + y[ys..], data[ys..ys + uvs] + u[uvs..], data[ys + uvs..] + v[uvs..])
    else Captured(y, u, v)
  }

  /** The callback with the V range closed at `y_size + 2 * uv_size`: it never
      panics and copies the three ranges of a sample that holds a frame. */
  function SinkCopy(data: seq<byte>, width: nat, height: nat,
                    y: seq<byte>, u: seq<byte>, v: seq<byte>): (r: SinkOutcome)
    ensures r == Skipped <==> !HoldsFrame(data, width, height)
    ensures r != Panicked
  {
    var ys, uvs := YSize(width, height), UvSize(width, height);
    if |data| < ys + uvs + uvs then Skipped
    else if |y| >= ys && |u| >= uvs && |v| >= uvs then
      Captured(CopiedPlane(y, data, 0, ys, true),
               CopiedPlane(u, data, ys, uvs, true),
               CopiedPlane(v, data, ys + uvs, uvs, true))
    else Captured(y, u, v)
  }

  /** A 2x2 frame sent with one byte of padding (7 bytes where 6 are needed)
      passes the length check and makes the V copy panic. */
  lemma PaddedSampleAsWrittenPanics(data: seq<byte>)
    requires |data| == 7
    ensures SinkCopyAsWritten(data, 2, 2, [0, 0, 0, 0], [0], [0]) == Panicked
    ensures SinkCopy(data, 2, 2, [0, 0, 0, 0], [0], [0]).Captured?
  {
    assert YSize(2, 2) == 4 && UvSize(2, 2) == 1;
  }

  /** On a sample of exactly the frame size the two agree. */
  lemma SinkCopyAgreesOnExactSample(data: seq<byte>, width: nat, height: nat,
                                    y: seq<byte>, u: seq<byte>, v: seq<byte>)
    requires |data| == YSize(width, height) + 2 * UvSize(width, height)
    ensures SinkCopyAsWritten(data, width, height, y, u, v) == SinkCopy(data, width, height, y, u, v)
  {
    var ys, uvs := YSize(width, height), UvSize(width, height);
    assert data[ys + uvs..] == data[ys + uvs..ys + uvs + uvs];
  }

  /** A captured frame carries the sample's first `y_size + 2 * uv_size`
      bytes, split into the three planes in order. */
  lemma SinkCopyKeepsSample(data: seq<byte>, width: nat, height: nat,
                            y: seq<byte>, u: seq<byte>, v: seq<byte>)
    requires HoldsFrame(data, width, height) && PlanesFit(width, height, y, u, v)
    ensures var r, ys, uvs := SinkCopy(data, width, height, y, u, v), YSize(width, height), UvSize(width, height);
      r.Captured? && r.y[..ys] + r.u[..uvs] + r.v[..uvs] == data[..ys + 2 * uvs]
  {
    var ys, uvs := YSize(width, height), UvSize(width, height);
    assert data[..ys + 2 * uvs] == data[0..ys] + data[ys..ys + uvs] + data[ys + uvs..ys + uvs + uvs];
  }

  /** The corrected callback on the fresh buffer's planes, in place; it
      returns whether a frame is handed to the video source. */
  method SoftwareSinkCopy(data: seq<byte>, width: nat, height: nat,
                          y: array<byte>, u: array<byte>, v: array<byte>) returns (captured: bool)
    requires y != u && y != v && u != v
    modifies y, u, v
    ensures captured <==> HoldsFrame(data, width, height)
    ensures var r := SinkCopy(data, width, height, old(y[..]), old(u[..]), old(v[..]));
      if captured then r == Captured(y[..], u[..], v[..])
      else y[..] == old(y[..]) && u[..] == old(u[..]) && v[..] == old(v[..])
  {
    var ySize := Wrap32(width * height);
    var uvSize := Wrap32(width * height) / 4;
    if |data| < ySize + uvSize + uvSize {
      return false;
    }
    if y.Length >= ySize && u.Length >= uvSize && v.Length >= uvSize {
      CopyIntoPlane(y, data, 0, ySize);
      CopyIntoPlane(u, data, ySize, uvSize);
      CopyIntoPlane(v, data, ySize + uvSize, uvSize);
    }
    return true;
  }
}
