/**
  The local loopback program: microphone samples are gathered into
  480-sample frames, each frame is run through the capture processing, a
  noise gate with a hold counter decides whether the frame is heard, and
  the frame (optionally denoised) or silence is queued for the speaker.
  Samples are of an arbitrary type `S`; the gain, the processing, the
  loudness test and the denoiser are passed in as functions.
 */
module Loopback {
  import AudioService

  // ---------------------------------------------------------------------
  // Settings
  // ---------------------------------------------------------------------

  datatype NoiseSuppressionLevel = Low | Moderate | High | VeryHigh

  /** The integer and boolean part of the loopback settings. */
  datatype AudioSettings = AudioSettings(
    gateHoldFrames: nat,
    nsLevel: NoiseSuppressionLevel,
    enableRnnoise: bool,
    enableHpf: bool,
    enableTs: bool)

  /** Default settings: a hold of 20 frames, the strongest noise suppression,
      and RNNoise, the high-pass filter and the transient suppressor on. */
  function DefaultSettings(): (s: AudioSettings)
    ensures s.gateHoldFrames == 20 && s.nsLevel == VeryHigh
    ensures s.enableRnnoise && s.enableHpf && s.enableTs
  {
    AudioSettings(20, VeryHigh, true, true, true)
  }

  // ---------------------------------------------------------------------
  // Noise gate
  // ---------------------------------------------------------------------

  /** Whether the gate is open and how many more quiet frames it stays open. */
  datatype Gate = Gate(open: bool, hold: nat)

  /** The gate before the first frame: closed, no hold left. */
  const InitialGate: Gate := Gate(false, 0)

  /** The gate after one processed frame, `loud` when its peak amplitude
      exceeds the threshold. */
  function GateStep(g: Gate, loud: bool, holdFrames: nat): (r: Gate)
    ensures loud ==> r == Gate(true, holdFrames)
    ensures !loud && g.hold > 0 ==> r == Gate(g.open, g.hold - 1)
    ensures !loud && g.hold == 0 ==> r == Gate(false, 0)
    ensures !g.open && !loud ==> !r.open
  {
    if loud then Gate(true, holdFrames)
    else if g.hold > 0 then Gate(g.open, g.hold - 1)
    else Gate(false, g.hold)
  }

  /** The gate's invariant: the hold never exceeds its setting, and a closed
      gate has no hold left. */
  predicate GateOk(g: Gate, holdFrames: nat) {
    g.hold <= holdFrames && (!g.open ==> g.hold == 0)
  }

  /** The gate after a sequence of frames. */
  function GateRun(g: Gate, louds: seq<bool>, holdFrames: nat): Gate
    decreases |louds|
  {
    if |louds| == 0 then g
    else GateStep(GateRun(g, louds[..|louds| - 1], holdFrames), louds[|louds| - 1], holdFrames)
  }

  /** The gate after `k` quiet frames. */
  function QuietRun(g: Gate, k: nat, holdFrames: nat): Gate {
    if k == 0 then g else GateStep(QuietRun(g, k - 1, holdFrames), false, holdFrames)
  }

  /** Every frame keeps the invariant, starting from the initial gate. */
  lemma {:induction false} GateRunOk(g: Gate, louds: seq<bool>, holdFrames: nat)
    requires GateOk(g, holdFrames)
    ensures GateOk(GateRun(g, louds, holdFrames), holdFrames)
    decreases |louds|
  {
    if |louds| > 0 {
      GateRunOk(g, louds[..|louds| - 1], holdFrames);
    }
  }

  /** A closed gate opens only through a loud frame. */
  lemma {:induction false} ClosedStaysClosed(g: Gate, louds: seq<bool>, holdFrames: nat)
    requires !g.open
    requires forall i :: 0 <= i < |louds| ==> !louds[i]
    ensures !GateRun(g, louds, holdFrames).open
    decreases |louds|
  {
    if |louds| > 0 {
      ClosedStaysClosed(g, louds[..|louds| - 1], holdFrames);
    }
  }

  /** Each quiet frame uses up one frame of hold, without changing the gate. */
  lemma {:induction false} QuietRunCountsDown(g: Gate, k: nat, holdFrames: nat)
    requires k <= g.hold
    ensures QuietRun(g, k, holdFrames) == Gate(g.open, g.hold - k)
  {
    if k > 0 {
      QuietRunCountsDown(g, k - 1, holdFrames);
    }
  }

  /** After a loud frame the gate stays open for exactly `holdFrames` quiet
      frames and closes on the next one. */
  lemma HoldAfterLoud(g: Gate, holdFrames: nat)
    ensures forall k: nat :: k <= holdFrames ==> QuietRun(GateStep(g, true, holdFrames), k, holdFrames).open
    ensures QuietRun(GateStep(g, true, holdFrames), holdFrames + 1, holdFrames) == InitialGate
  {
    var afterLoud := GateStep(g, true, holdFrames);
    forall k: nat | k <= holdFrames
      ensures QuietRun(afterLoud, k, holdFrames).open
    {
      QuietRunCountsDown(afterLoud, k, holdFrames);
    }
    QuietRunCountsDown(afterLoud, holdFrames, holdFrames);
  }

  /** With the default settings speech is held for 20 quiet frames (200 ms). */
  lemma DefaultHold(g: Gate)
    ensures QuietRun(GateStep(g, true, DefaultSettings().gateHoldFrames), 20, 20).open
    ensures !QuietRun(GateStep(g, true, DefaultSettings().gateHoldFrames), 21, 20).open
  {
    HoldAfterLoud(g, 20);
  }

  // ---------------------------------------------------------------------
  // Accumulator framing
  // ---------------------------------------------------------------------

  /** The operations the callback delegates: input gain, the capture
      processing (in place, so length-preserving), the threshold test on the
      processed frame, the denoiser, and the silent sample. */
  datatype Dsp<!S> = Dsp(
    amplify: S -> S,
    process: seq<S> -> seq<S>,
    loud: seq<S> -> bool,
    denoise: seq<S> -> seq<S>,
    silence: S)

  /** The callback treats every frame as 480 samples: processing keeps a
      buffer's length and the denoiser fills a 480-sample output. */
  ghost predicate FrameShaped<S(!new)>(dsp: Dsp<S>) {
    (forall f: seq<S> :: |dsp.process(f)| == |f|) &&
    (forall f: seq<S> :: |f| == AudioService.FrameSize ==> |dsp.denoise(f)| == AudioService.FrameSize)
  }

  /** The frame queued for the speaker. */
  function OutputFrame<S>(open: bool, rnnoise: bool, processed: seq<S>, dsp: Dsp<S>): (r: seq<S>)
    ensures !open ==> r == AudioService.Silence(dsp.silence, AudioService.FrameSize)
    ensures open && !rnnoise ==> r == processed
    ensures open && rnnoise ==> r == dsp.denoise(processed)
  {
    if !open then AudioService.Silence(dsp.silence, AudioService.FrameSize)
    else if rnnoise then dsp.denoise(processed)
    else processed
  }

  /** The state the input callback keeps between calls. */
  datatype LoopState<S> = LoopState(accumulator: seq<S>, gate: Gate)

  /** The state after some input, and the samples it queued. */
  datatype Outcome<S> = Outcome(state: LoopState<S>, out: seq<S>)

  /** Handling one input sample. */
  function SampleStep<S>(st: LoopState<S>, x: S, settings: AudioSettings, dsp: Dsp<S>): Outcome<S> {
    var acc := st.accumulator + [dsp.amplify(x)];
    if |acc| >= AudioService.FrameSize then
      var processed := dsp.process(acc);
      var gate := GateStep(st.gate, dsp.loud(processed), settings.gateHoldFrames);
      Outcome(LoopState([], gate), OutputFrame(gate.open, settings.enableRnnoise, processed, dsp))
    else
      Outcome(LoopState(acc, st.gate), [])
  }

  /** Handling the samples of `data` in order. */
  function Callback<S>(st: LoopState<S>, data: seq<S>, settings: AudioSettings, dsp: Dsp<S>): Outcome<S>
    decreases |data|
  {
    if |data| == 0 then Outcome(st, [])
    else
      var before := Callback(st, data[..|data| - 1], settings, dsp);
      var last := SampleStep(before.state, data[|data| - 1], settings, dsp);
      Outcome(last.state, before.out + last.out)
  }

  /** Between calls fewer than 480 samples wait, output is queued in whole
      frames, and every input sample is either queued or still waiting. */
  lemma {:induction false} CallbackFraming<S(!new)>(st: LoopState<S>, data: seq<S>, settings: AudioSettings, dsp: Dsp<S>)
    requires |st.accumulator| < AudioService.FrameSize && FrameShaped(dsp)
    ensures |Callback(st, data, settings, dsp).state.accumulator| < AudioService.FrameSize
    ensures |Callback(st, data, settings, dsp).out| % AudioService.FrameSize == 0
    ensures |Callback(st, data, settings, dsp).out| + |Callback(st, data, settings, dsp).state.accumulator|
            == |st.accumulator| + |data|
    decreases |data|
  {
    if |data| > 0 {
      CallbackFraming(st, data[..|data| - 1], settings, dsp);
    }
  }

  /** The gate invariant holds across every callback. */
  lemma {:induction false} CallbackKeepsGateOk<S>(st: LoopState<S>, data: seq<S>, settings: AudioSettings, dsp: Dsp<S>)
    requires GateOk(st.gate, settings.gateHoldFrames)
    ensures GateOk(Callback(st, data, settings, dsp).state.gate, settings.gateHoldFrames)
    decreases |data|
  {
    if |data| > 0 {
      CallbackKeepsGateOk(st, data[..|data| - 1], settings, dsp);
    }
  }

  /** While nothing is loud a closed gate stays closed and only silence is
      queued. */
  lemma {:induction false} QuietInputIsSilent<S(!new)>(st: LoopState<S>, data: seq<S>, settings: AudioSettings, dsp: Dsp<S>)
    requires !st.gate.open
    requires forall f: seq<S> :: !dsp.loud(f)
    ensures !Callback(st, data, settings, dsp).state.gate.open
    ensures forall i :: 0 <= i < |Callback(st, data, settings, dsp).out| ==>
      Callback(st, data, settings, dsp).out[i] == dsp.silence
    decreases |data|
  {
    if |data| > 0 {
      QuietInputIsSilent(st, data[..|data| - 1], settings, dsp);
    }
  }

  /** The input-stream callback and the state its closure owns. */
  class LoopbackInput<S> {
    var accumulator: seq<S>
    var isGateOpen: bool
    var currentHold: nat

    constructor()
      ensures accumulator == [] && Gate(isGateOpen, currentHold) == InitialGate
    {
      accumulator := [];
      isGateOpen := false;
      currentHold := 0;
    }

    function State(): LoopState<S>
      reads this
    {
      LoopState(accumulator, Gate(isGateOpen, currentHold))
    }

    /** Handles one buffer of input samples and returns the samples queued
        for the speaker. */
    method OnInput(data: seq<S>, settings: AudioSettings, dsp: Dsp<S>) returns (out: seq<S>)
      modifies this
      ensures Outcome(State(), out) == Callback(old(State()), data, settings, dsp)
    {
      ghost var start := State();
      out := [];
      for i := 0 to |data|
        invariant Outcome(State(), out) == Callback(start, data[..i], settings, dsp)
      {
        assert data[..i + 1][..i] == data[..i];
        accumulator := accumulator + [dsp.amplify(data[i])];
        if |accumulator| >= AudioService.FrameSize {
          accumulator := dsp.process(accumulator);
          if dsp.loud(accumulator) {
            isGateOpen := true;
            currentHold := settings.gateHoldFrames;
          } else {
            if currentHold > 0 {
              currentHold := currentHold - 1;
            } else {
              isGateOpen := false;
            }
          }
          var frame := AudioService.Silence(dsp.silence, AudioService.FrameSize);
          if isGateOpen {
            if settings.enableRnnoise {
              frame := dsp.denoise(accumulator);
            } else {
              frame := accumulator;
            }
          }
          out := out + frame;
          accumulator := [];
        }
      }
      assert data[..|data|] == data;
    }
  }
}
