/**
  The deterministic control logic of the voice service: its settings, the
  push-to-talk flag driven by keyboard events, the mapping between
  interleaved multi-channel buffers and the mono sample stream, and the
  cutting of the resampled stream into 480-sample frames that are gated by
  the push-to-talk flag. Samples are of an arbitrary type `S`; the
  floating-point signal processing is passed in as functions.
 */
module AudioService {
  import opened PlaneIndex
  import AudioDevices
  import Wrappers

  // ---------------------------------------------------------------------
  // Settings
  // ---------------------------------------------------------------------

  /** The keys the push-to-talk listener can be bound to. */
  datatype Key = ControlLeft | OtherKey(code: nat)

  datatype AudioSettings = AudioSettings(
    inputDeviceId: string,
    pttKey: Key,
    pttEnabled: bool,
    aecEnabled: bool,
    agcEnabled: bool)

  /** Default settings: the system default microphone, push-to-talk off and
      bound to the left Control key, echo cancellation and gain control on. */
  function DefaultSettings(): (s: AudioSettings)
    ensures s.inputDeviceId == AudioDevices.DefaultId
    ensures s.pttKey == ControlLeft && !s.pttEnabled
    ensures s.aecEnabled && s.agcEnabled
  {
    AudioSettings(AudioDevices.DefaultId, ControlLeft, false, true, true)
  }

  // ---------------------------------------------------------------------
  // Push-to-talk
  // ---------------------------------------------------------------------

  /** A keyboard or mouse event as delivered to the global listener. */
  datatype EventType = KeyPress(key: Key) | KeyRelease(key: Key) | OtherEvent

  /** The event is a press or a release of the push-to-talk key. */
  predicate IsTargetEvent(e: EventType, target: Key) {
    e == KeyPress(target) || e == KeyRelease(target)
  }

  /** The transmit flag after the listener has handled one event. */
  function PttNext(transmitting: bool, settings: AudioSettings, e: EventType): (r: bool)
    ensures !settings.pttEnabled ==> r
    ensures settings.pttEnabled && e == KeyPress(settings.pttKey) ==> r
    ensures settings.pttEnabled && e == KeyRelease(settings.pttKey) ==> !r
    ensures settings.pttEnabled && !IsTargetEvent(e, settings.pttKey) ==> r == transmitting
  {
    if !settings.pttEnabled then true
    else match e
      case KeyPress(k) => if k == settings.pttKey then true else transmitting
      case KeyRelease(k) => if k == settings.pttKey then false else transmitting
      case OtherEvent => transmitting
  }

  /** The transmit flag after the listener has handled `events` in order. */
  function PttRun(transmitting: bool, settings: AudioSettings, events: seq<EventType>): bool
    decreases |events|
  {
    if |events| == 0 then transmitting
    else PttNext(PttRun(transmitting, settings, events[..|events| - 1]), settings, events[|events| - 1])
  }

  /** With push-to-talk disabled any event switches transmission on. */
  lemma {:induction false} PttDisabledTransmits(transmitting: bool, settings: AudioSettings, events: seq<EventType>)
    requires !settings.pttEnabled && |events| > 0
    ensures PttRun(transmitting, settings, events)
  {
  }

  /** With push-to-talk enabled, events other than presses and releases of
      the bound key leave the flag as it was. */
  lemma {:induction false} PttIgnoresOtherEvents(transmitting: bool, settings: AudioSettings, events: seq<EventType>)
    requires settings.pttEnabled
    requires forall j :: 0 <= j < |events| ==> !IsTargetEvent(events[j], settings.pttKey)
    ensures PttRun(transmitting, settings, events) == transmitting
    decreases |events|
  {
    if |events| > 0 {
      PttIgnoresOtherEvents(transmitting, settings, events[..|events| - 1]);
    }
  }

  /** With push-to-talk enabled, the last press or release of the bound key
      decides: the flag is set exactly when that event was a press. */
  lemma {:induction false} PttLastTargetEventDecides(transmitting: bool, settings: AudioSettings,
                                                      events: seq<EventType>, i: nat)
    requires settings.pttEnabled
    requires i < |events| && IsTargetEvent(events[i], settings.pttKey)
    requires forall j :: i < j < |events| ==> !IsTargetEvent(events[j], settings.pttKey)
    ensures PttRun(transmitting, settings, events) == events[i].KeyPress?
    decreases |events|
  {
    if i < |events| - 1 {
      var prefix := events[..|events| - 1];
      assert prefix[i] == events[i];
      PttLastTargetEventDecides(transmitting, settings, prefix, i);
    }
  }

  /** With the default settings the microphone is always live, and the
      configured device is the host's default input. */
  lemma DefaultSettingsTransmit(transmitting: bool, events: seq<EventType>,
                                devices: Wrappers.Option<seq<Wrappers.Option<string>>>,
                                retry: Wrappers.Option<seq<Wrappers.Option<string>>>)
    requires |events| > 0
    ensures PttRun(transmitting, DefaultSettings(), events)
    ensures AudioDevices.ResolveInputDevice(DefaultSettings().inputDeviceId, true, devices, retry)
            == AudioDevices.Resolved(AudioDevices.HostDefault)
  {
    PttDisabledTransmits(transmitting, DefaultSettings(), events);
  }

  /** The flag shared between the keyboard listener and the DSP thread. */
  class GlobalAudioState {
    var isTransmitting: bool

    constructor(transmitting: bool)
      ensures isTransmitting == transmitting
    {
      isTransmitting := transmitting;
    }

    /** The listener callback for one event. */
    method OnEvent(settings: AudioSettings, e: EventType)
      modifies this
      ensures isTransmitting == PttNext(old(isTransmitting), settings, e)
    {
      if !settings.pttEnabled {
        isTransmitting := true;
        return;
      }
      match e
      case KeyPress(k) =>
        if k == settings.pttKey {
          isTransmitting := true;
        }
      case KeyRelease(k) =>
        if k == settings.pttKey {
          isTransmitting := false;
        }
      case OtherEvent =>
    }
  }

  // ---------------------------------------------------------------------
  // Channel mapping
  // ---------------------------------------------------------------------

  function Min(a: nat, b: nat): nat {
    if a <= b then a else b
  }

  /** Number of `n`-sample chunks, the last possibly partial, in `len` samples. */
  function ChunkCount(len: nat, n: nat): (c: nat)
    requires n > 0
    ensures c * n >= len
    ensures c > 0 ==> (c - 1) * n < len
  {
    var c := (len + n - 1) / n;
    assert len + n - 1 == c * n + (len + n - 1) % n;
    assert c > 0 ==> (c - 1) * n == c * n - n;
    c
  }

  /** A count with both properties of `ChunkCount` is `ChunkCount`. */
  lemma ChunkCountUnique(c: nat, len: nat, n: nat)
    requires n > 0 && c * n >= len && (c > 0 ==> (c - 1) * n < len)
    ensures c == ChunkCount(len, n)
  {
    var d := ChunkCount(len, n);
    if c < d {
      MulMonotone(c, d - 1, n);
      assert false;
    } else if d < c {
      MulMonotone(d, c - 1, n);
      assert false;
    }
  }

  /** The first sample of every `n`-sample chunk of `data`. */
  function ChunkHeads<S>(data: seq<S>, n: nat): (r: seq<S>)
    requires n > 0
    decreases |data|
    ensures |r| == ChunkCount(|data|, n)
    ensures forall k :: 0 <= k < |r| ==> k * n < |data| && r[k] == data[k * n]
  {
    if |data| == 0 then []
    else
      var rest := data[Min(n, |data|)..];
      var tail := ChunkHeads(rest, n);
      ConsHeads(data, n, tail);
      [data[0]] + tail
  }

  /** The chunk heads of `data` are its first sample followed by the chunk
      heads of what follows the first chunk. */
  lemma ConsHeads<S>(data: seq<S>, n: nat, tail: seq<S>)
    requires n > 0 && |data| > 0
    requires |tail| == ChunkCount(|data| - Min(n, |data|), n)
    requires forall k :: 0 <= k < |tail| ==>
      k * n < |data| - Min(n, |data|) && tail[k] == data[Min(n, |data|)..][k * n]
    ensures |[data[0]] + tail| == ChunkCount(|data|, n)
    ensures forall k :: 0 <= k < |[data[0]] + tail| ==>
      k * n < |data| && ([data[0]] + tail)[k] == data[k * n]
  {
    var r := [data[0]] + tail;
    if n >= |data| {
      assert |tail| == 0;
      ChunkCountUnique(1, |data|, n);
    } else {
      forall k | 0 < k < |r|
        ensures k * n < |data| && r[k] == data[k * n]
      {
        var j := k - 1;
        SuccTimes(j, n);
        assert r[k] == tail[j];
        assert data[n..][j * n] == data[n + j * n];
      }
      SuccTimes(|tail|, n);
      if |tail| > 0 {
        SuccTimes(|tail| - 1, n);
      }
      ChunkCountUnique(|r|, |data|, n);
    }
  }

  lemma SuccTimes(j: nat, n: nat)
    ensures (j + 1) * n == j * n + n
  {
  }

  /** Input callback: keeps the first channel of every interleaved frame of
      `inCh` channels (the last frame may be partial). */
  method DownMix<S>(data: seq<S>, inCh: nat) returns (mono: seq<S>)
    requires inCh > 0
    ensures mono == ChunkHeads(data, inCh)
  {
    mono := [];
    var start: nat := 0;
    while start < |data|
      invariant start == |mono| * inCh
      invariant forall k :: 0 <= k < |mono| ==> k * inCh < |data| && mono[k] == data[k * inCh]
      decreases |data| - start
    {
      mono := mono + [data[start]];
      start := start + inCh;
      assert start == |mono| * inCh by {
        assert (|mono| - 1) * inCh + inCh == |mono| * inCh;
      }
    }
    if |mono| > 0 {
      assert (|mono| - 1) * inCh < |data|;
    }
    ChunkCountUnique(|mono|, |data|, inCh);
    ghost var heads := ChunkHeads(data, inCh);
    assert |mono| == |heads|;
  }

  /** The sample for output frame `k`: the `k`-th popped sample, or silence
      once the queue is empty. */
  function PoppedOr<S>(available: seq<S>, silence: S, k: nat): S {
    if k < |available| then available[k] else silence
  }

  /** The interleaved output buffer of `len` samples for `n` channels. */
  function UpMixed<S>(available: seq<S>, silence: S, n: nat, len: nat): (r: seq<S>)
    requires n > 0
    ensures |r| == len
  {
    seq(len, q requires 0 <= q < len => PoppedOr(available, silence, q / n))
  }

  /** Output callback: every frame of `outCh` channels (the last may be
      partial) gets the next queued sample, or silence, on all its channels.
      Returns how many samples were taken from the queue. */
  method UpMix<S>(data: array<S>, outCh: nat, available: seq<S>, silence: S) returns (popped: nat)
    requires outCh > 0
    modifies data
    ensures data[..] == UpMixed(available, silence, outCh, data.Length)
    ensures popped == Min(|available|, ChunkCount(data.Length, outCh))
  {
    var c: nat := 0;
    var start: nat := 0;
    popped := 0;
    while start < data.Length
      invariant start == c * outCh
      invariant c > 0 ==> (c - 1) * outCh < data.Length
      invariant popped == Min(|available|, c)
      invariant forall q :: 0 <= q < data.Length && q < start ==> data[q] == PoppedOr(available, silence, q / outCh)
      decreases data.Length - start
    {
      var s := PoppedOr(available, silence, c);
      if c < |available| {
        popped := popped + 1;
      }
      var stop := Min(start + outCh, data.Length);
      FillFrame(data, start, stop, s);
      SameFrame(c, outCh, start, stop);
      SuccTimes(c, outCh);
      c := c + 1;
      start := start + outCh;
    }
    ChunkCountUnique(c, data.Length, outCh);
    assert data[..] == UpMixed(available, silence, outCh, data.Length);
  }

  /** Writes one sample to every channel of the frame `data[start..stop]`. */
  method FillFrame<S>(data: array<S>, start: nat, stop: nat, s: S)
    requires start <= stop <= data.Length
    modifies data
    ensures forall p :: 0 <= p < data.Length ==> data[p] == if start <= p < stop then s else old(data[p])
  {
    for q := start to stop
      invariant forall p :: 0 <= p < data.Length ==> data[p] == if start <= p < q then s else old(data[p])
    {
      data[q] := s;
    }
  }

  /** All positions of frame `c` belong to frame `c`. */
  lemma SameFrame(c: nat, n: nat, start: nat, stop: nat)
    requires n > 0 && start == c * n && stop <= start + n
    ensures forall p :: start <= p < stop ==> p / n == c
  {
    forall p | start <= p < stop
      ensures p / n == c
    {
      DivModOfIndex(c, p - start, n);
    }
  }

  /** Up-mixing then keeping the first channel returns the queued samples,
      one per frame, padded with silence. */
  lemma UpMixThenDownMix<S>(available: seq<S>, silence: S, n: nat, len: nat)
    requires n > 0
    ensures ChunkHeads(UpMixed(available, silence, n, len), n)
            == seq(ChunkCount(len, n), k requires 0 <= k => PoppedOr(available, silence, k))
  {
    var heads := ChunkHeads(UpMixed(available, silence, n, len), n);
    var expected := seq(ChunkCount(len, n), k requires 0 <= k => PoppedOr(available, silence, k));
    forall k | 0 <= k < |heads|
      ensures heads[k] == expected[k]
    {
      FrameHead(available, silence, n, len, k);
    }
  }

  /** Frame `k` of the up-mixed buffer starts with the `k`-th queued sample. */
  lemma FrameHead<S>(available: seq<S>, silence: S, n: nat, len: nat, k: nat)
    requires n > 0 && k * n < len
    ensures UpMixed(available, silence, n, len)[k * n] == PoppedOr(available, silence, k)
  {
    DivModOfIndex(k, 0, n);
  }

  // ---------------------------------------------------------------------
  // DSP framing and the transmit gate
  // ---------------------------------------------------------------------

  /** Samples per processing frame: 10 ms at 48 kHz. */
  const FrameSize: nat := 480

  /** The complete frames at the front of `s`, in order. */
  function Frames<S>(s: seq<S>): (r: seq<seq<S>>)
    decreases |s|
    ensures forall k :: 0 <= k < |r| ==> |r[k]| == FrameSize
  {
    if |s| < FrameSize then [] else [s[..FrameSize]] + Frames(s[FrameSize..])
  }

  /** What is left of `s` once its complete frames are drained. */
  function Rest<S>(s: seq<S>): (r: seq<S>)
    decreases |s|
    ensures |r| < FrameSize
    ensures |r| <= |s|
  {
    if |s| < FrameSize then s else Rest(s[FrameSize..])
  }

  function Flatten<S>(frames: seq<seq<S>>): seq<S>
    decreases |frames|
  {
    if |frames| == 0 then [] else frames[0] + Flatten(frames[1..])
  }

  /** Draining loses, duplicates and reorders nothing: the frames followed by
      the remainder are the original samples. */
  lemma {:induction false} FramesReassemble<S>(s: seq<S>)
    ensures Flatten(Frames(s)) + Rest(s) == s
    decreases |s|
  {
    if |s| >= FrameSize {
      FramesReassemble(s[FrameSize..]);
      var fs := Frames(s);
      assert fs[1..] == Frames(s[FrameSize..]);
      assert s == s[..FrameSize] + s[FrameSize..];
    }
  }

  /** The number of frames is the number of whole `FrameSize` blocks. */
  lemma {:induction false} FrameCount<S>(s: seq<S>)
    ensures |Frames(s)| == |s| / FrameSize
    ensures |Rest(s)| == |s| % FrameSize
    decreases |s|
  {
    if |s| >= FrameSize {
      FrameCount(s[FrameSize..]);
    }
  }

  /** Feeding in two pieces drains the same frames, in the same order, as
      feeding everything at once. */
  lemma {:induction false} FramesAcrossFeeds<S>(s1: seq<S>, s2: seq<S>)
    ensures Frames(s1 + s2) == Frames(s1) + Frames(Rest(s1) + s2)
    ensures Rest(s1 + s2) == Rest(Rest(s1) + s2)
    decreases |s1|
  {
    if |s1| >= FrameSize {
      var t := s1[FrameSize..];
      FramesAcrossFeeds(t, s2);
      assert (s1 + s2)[..FrameSize] == s1[..FrameSize];
      assert (s1 + s2)[FrameSize..] == t + s2;
    }
  }

  function Silence<S>(silence: S, n: nat): (r: seq<S>)
    ensures |r| == n && forall i :: 0 <= i < n ==> r[i] == silence
  {
    seq(n, _ => silence)
  }

  /** The frame passed on to the loopback output: the cleaned frame while
      transmitting, a silent frame otherwise. */
  function GatedFrame<S>(transmitting: bool, clean: seq<S>, silence: S): (r: seq<S>)
    ensures transmitting ==> r == clean
    ensures !transmitting ==> r == Silence(silence, FrameSize)
  {
    if transmitting then clean else Silence(silence, FrameSize)
  }

  /** The frames handed to the loopback output from a buffer `s`: each has
      480 samples when the capture chain keeps a frame's length, and a frame
      handled while not transmitting carries only silence. */
  lemma GatedFramesAreFrames<S(!new)>(s: seq<S>, clean: seq<S> -> seq<S>, transmitting: nat -> bool, silence: S)
    requires forall f: seq<S> :: |f| == FrameSize ==> |clean(f)| == FrameSize
    ensures forall k :: 0 <= k < |Frames(s)| ==>
      |GatedFrame(transmitting(k), clean(Frames(s)[k]), silence)| == FrameSize
    ensures forall k, i :: 0 <= k < |Frames(s)| && !transmitting(k) && 0 <= i < FrameSize ==>
      GatedFrame(transmitting(k), clean(Frames(s)[k]), silence)[i] == silence
  {
  }

  /** The DSP thread's accumulation buffer, which holds resampled capture
      samples until a whole frame is available. */
  class DspFramer<S> {
    var buf: seq<S>

    constructor()
      ensures buf == []
    {
      buf := [];
    }

    /** Appends one resampler output and drains every complete frame.
        `clean` stands for the capture processing followed by the denoiser,
        and `transmitting(k)` for the flag read while handling frame `k`. */
    method Extend(res: seq<S>, clean: seq<S> -> seq<S>, transmitting: nat -> bool, silence: S)
      returns (out: seq<seq<S>>)
      modifies this
      ensures buf == Rest(old(buf) + res)
      ensures |out| == |Frames(old(buf) + res)|
      ensures forall k :: 0 <= k < |out| ==>
        out[k] == GatedFrame(transmitting(k), clean(Frames(old(buf) + res)[k]), silence)
      ensures forall k :: 0 <= k < |out| && !transmitting(k) ==> out[k] == Silence(silence, FrameSize)
    {
      buf := buf + res;
      ghost var all := buf;
      ghost var done: seq<seq<S>> := [];
      out := [];
      while |buf| >= FrameSize
        invariant Frames(all) == done + Frames(buf)
        invariant Rest(all) == Rest(buf)
        invariant |out| == |done|
        invariant forall k :: 0 <= k < |out| ==> out[k] == GatedFrame(transmitting(k), clean(done[k]), silence)
        decreases |buf|
      {
        var frame := buf[..FrameSize];
        buf := buf[FrameSize..];
        var isTx := transmitting(|out|);
        var output := if isTx then clean(frame) else Silence(silence, FrameSize);
        out := out + [output];
        done := done + [frame];
      }
      assert Frames(buf) == [];
      assert done + [] == done;
    }
  }
}
