/**
  The byte-level parts of the GStreamer colour converter: the frame-size check
  in front of the appsrc push, and the copy of a converted I420 sample into the
  three planes of an I420 buffer.
 */
module GpuColorConvert {
  import opened Bt601

  /** 2^32: the sizes are computed on `u32` and wrap at this modulus. */
  const U32Modulus: nat := 0x1_0000_0000

  /** Bytes per BGRA pixel in the converter's input. */
  const BgraBytesPerPixel: nat := 4

  /** Reduction of `x` to an unsigned 32-bit value, as `u32` arithmetic does it. */
  function Wrap32(x: nat): (r: nat)
    ensures r < U32Modulus
    ensures x < U32Modulus ==> r == x
  {
    x % U32Modulus
  }

  /** `width * height * 4` computed on `u32`. */
  function ExpectedSize(width: nat, height: nat): nat {
    Wrap32(Wrap32(width * height) * BgraBytesPerPixel)
  }

  /** `width * height` on `u32`: the length of the Y plane. */
  function YSize(width: nat, height: nat): nat {
    Wrap32(width * height)
  }

  /** `width * height / 4` on `u32`: the length of each chroma plane. */
  function UvSize(width: nat, height: nat): nat {
    Wrap32(width * height) / 4
  }

  // The three plane copies and the data lengths that enable them.
  predicate CopiesY(n: nat, width: nat, height: nat) {
    n >= YSize(width, height)
  }

  predicate CopiesU(n: nat, width: nat, height: nat) {
    n >= YSize(width, height) + UvSize(width, height)
  }

  predicate CopiesV(n: nat, width: nat, height: nat) {
    n >= YSize(width, height) + 2 * UvSize(width, height)
  }

  /** The copies are monotone in the data length: V copied implies U copied,
      and U copied implies Y copied. */
  lemma CopiesAreMonotone(n: nat, width: nat, height: nat)
    ensures CopiesV(n, width, height) ==> CopiesU(n, width, height)
    ensures CopiesU(n, width, height) ==> CopiesY(n, width, height)
  {
  }

  /** Plane `plane` after `plane[..size].copy_from_slice(&data[offset..offset + size])`
      when `enabled`, unchanged otherwise. */
  function CopiedPlane(plane: seq<byte>, data: seq<byte>, offset: nat, size: nat, enabled: bool): (r: seq<byte>)
    requires enabled ==> size <= |plane| && offset + size <= |data|
    ensures |r| == |plane|
    ensures enabled ==> r[..size] == data[offset..offset + size]
    ensures !enabled ==> r == plane
    ensures forall i :: (if enabled then size else 0) <= i < |plane| ==> r[i] == plane[i]
  {
    if enabled then data[offset..offset + size] + plane[size..] else plane
  }

  /** `plane[..size].copy_from_slice(&data[offset..offset + size])` on an array. */
  method CopyIntoPlane(plane: array<byte>, data: seq<byte>, offset: nat, size: nat)
    requires size <= plane.Length && offset + size <= |data|
    modifies plane
    ensures plane[..] == CopiedPlane(old(plane[..]), data, offset, size, true)
  {
    forall i | 0 <= i < size {
      plane[i] := data[offset + i];
    }
    assert plane[..] == data[offset..offset + size] + old(plane[..])[size..];
  }

  /** `copy_i420_data`: each plane receives its range of `data` only when
      `data` reaches the end of that range; a plane whose range is incomplete
      is left untouched, and bytes past the copied prefix never change. */
  method CopyI420Data(data: seq<byte>, width: nat, height: nat,
                      y: array<byte>, u: array<byte>, v: array<byte>)
    requires CopiesY(|data|, width, height) ==> YSize(width, height) <= y.Length
    requires CopiesU(|data|, width, height) ==> UvSize(width, height) <= u.Length
    requires CopiesV(|data|, width, height) ==> UvSize(width, height) <= v.Length
    requires y != u && y != v && u != v
    modifies y, u, v
    ensures y[..] == CopiedPlane(old(y[..]), data, 0, YSize(width, height), CopiesY(|data|, width, height))
    ensures u[..] == CopiedPlane(old(u[..]), data, YSize(width, height), UvSize(width, height), CopiesU(|data|, width, height))
    ensures v[..] == CopiedPlane(old(v[..]), data, YSize(width, height) + UvSize(width, height),
                                 UvSize(width, height), CopiesV(|data|, width, height))
  {
    var ySize := Wrap32(width * height);
    var uvSize := Wrap32(width * height) / 4;
    if |data| >= ySize {
      CopyIntoPlane(y, data, 0, ySize);
    }
    var uOffset := ySize;
    if |data| >= uOffset + uvSize {
      CopyIntoPlane(u, data, uOffset, uvSize);
    }
    var vOffset := ySize + uvSize;
    if |data| >= vOffset + uvSize {
      CopyIntoPlane(v, data, vOffset, uvSize);
    }
  }

  /** A sample of exactly `y_size + 2 * uv_size` bytes is copied whole: the
      three copied prefixes, concatenated, give back the sample. */
  lemma ExactSampleRoundTrip(data: seq<byte>, width: nat, height: nat, y: seq<byte>, u: seq<byte>, v: seq<byte>)
    requires |data| == YSize(width, height) + 2 * UvSize(width, height)
    requires YSize(width, height) <= |y| && UvSize(width, height) <= |u| && UvSize(width, height) <= |v|
    ensures CopiesY(|data|, width, height) && CopiesU(|data|, width, height) && CopiesV(|data|, width, height)
    ensures var ys, uvs := YSize(width, height), UvSize(width, height);
      CopiedPlane(y, data, 0, ys, true)[..ys] +
      CopiedPlane(u, data, ys, uvs, true)[..uvs] +
      CopiedPlane(v, data, ys + uvs, uvs, true)[..uvs] == data
  {
    var ys, uvs := YSize(width, height), UvSize(width, height);
    assert data == data[0..ys] + data[ys..ys + uvs] + data[ys + uvs..ys + uvs + uvs];
  }

  /** When `width * height` is a multiple of 4 and nothing wraps, an I420
      frame holds one and a half bytes per pixel. */
  lemma I420TotalSize(width: nat, height: nat)
    requires (width * height) % 4 == 0 && width * height * 3 < U32Modulus
    ensures YSize(width, height) + 2 * UvSize(width, height) == (width * height * 3) / 2
  {
  }

  /** The sizes of a 1080p frame: 2073600 luma bytes, 518400 bytes per chroma
      plane, 3110400 in all; a 720p BGRA frame is 3686400 bytes. */
  lemma FrameSizeInstances()
    ensures YSize(1920, 1080) == 2073600 && UvSize(1920, 1080) == 518400
    ensures YSize(1920, 1080) + 2 * UvSize(1920, 1080) == (1920 * 1080 * 3) / 2 == 3110400
    ensures ExpectedSize(1280, 720) == 1280 * 720 * 4 == 3686400
  {
  }

  /** Sizes whose product wraps: a 65536x65536 frame is expected to have
      0 bytes, so only an empty input passes the size check. */
  lemma ExpectedSizeWraps()
    ensures ExpectedSize(65536, 65536) == 0
    ensures ExpectedSize(32768, 32768) == 0
  {
  }

  /** Why a push was refused. */
  datatype PushError =
    | InvalidBufferSize(got: nat, expected: nat)
    | BufferUnavailable
    | PushRefused

  datatype PushResult = Pushed | Failed(error: PushError)

  /** The converter's input side: the frame size it was built for and the
      frames it has handed to its appsrc so far. */
  class GpuColorConverter {
    const width: nat
    const height: nat
    var pushed: seq<seq<byte>>

    /** Every frame handed on has the expected BGRA size. */
    ghost predicate Valid()
      reads this
    {
      forall i :: 0 <= i < |pushed| ==> |pushed[i]| == ExpectedSize(width, height)
    }

    constructor (width: nat, height: nat)
      requires width < U32Modulus && height < U32Modulus
      ensures this.width == width && this.height == height && pushed == []
      ensures Valid()
    {
      this.width := width;
      this.height := height;
      pushed := [];
    }

    /** `push_bgra_frame`. A frame of the wrong size is refused before anything
        else happens. `bufferReady` says whether the GStreamer buffer could be
        allocated and mapped, `accepted` whether appsrc took it; both are
        decided outside this model. */
    method PushBgraFrame(data: seq<byte>, bufferReady: bool, accepted: bool) returns (r: PushResult)
      requires Valid()
      modifies this
      ensures Valid()
      ensures r == Pushed <==> |data| == ExpectedSize(width, height) && bufferReady && accepted
      ensures |data| != ExpectedSize(width, height) ==> r == Failed(InvalidBufferSize(|data|, ExpectedSize(width, height)))
      ensures r == Pushed ==> pushed == old(pushed) + [data]
      ensures r != Pushed ==> pushed == old(pushed)
    {
      var expectedSize := Wrap32(Wrap32(width * height) * BgraBytesPerPixel);
      if |data| != expectedSize {
        return Failed(InvalidBufferSize(|data|, expectedSize));
      }
      if !bufferReady {
        return Failed(BufferUnavailable);
      }
      var buffer := data;
      if !accepted {
        return Failed(PushRefused);
      }
      pushed := pushed + [buffer];
      return Pushed;
    }
  }
}
