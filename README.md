# rust-voip-core in Dafny

This project models the deterministic core of a Rust voice-and-screen-sharing
client:

- the integer BGRA to I420 colour converters of the capture back ends, which use
  the 8-bit approximation of the ITU-R BT.601 studio-range equations
  (section 2.5 of Rec. ITU-R BT.601-7) and 4:2:0 chroma subsampling;
- the nearest-neighbour downscaling converter of the low-power capture path,
  with its 16.16 fixed-point ratios;
- the I420 plane copy and frame-size check of the GPU colour converter;
- VAAPI 16-pixel alignment, target-resolution choice and the software-sink
  plane copy of the video service;
- the audio service's device-list filter, renaming, de-duplication and sort,
  the input-device lookup with its card-name fallback, the push-to-talk flag,
  the channel down-mix and up-mix, and the 480-sample DSP framing with its
  transmit gate;
- the loopback program's noise gate with its hold counter and its
  480-sample accumulator.

Each Rust source file is one module:

| module | source file |
|---|---|
| `Bt601` | the shared BT.601 constants and formulas |
| `BlockConvert` | the 2×2 converter shared by the three copies |
| `BlockConvertFacts` | properties of that converter |
| `NvfbcCapture` | `src/nvfbc_capture.rs` |
| `PipewireCapture` | `src/pipewire_capture.rs` |
| `BenchmarkBottleneck` | `src/bin/benchmark_bottleneck.rs` |
| `NvfbcLowPower` | `src/nvfbc_lowpower.rs` |
| `GpuColorConvert` | `src/gpu_color_convert.rs` |
| `VideoService` | `src/video_service.rs` |
| `Strings` | support for `src/audio_service.rs` |
| `AudioDevices` | device discovery in `src/audio_service.rs` |
| `AudioService` | the rest of `src/audio_service.rs` |
| `Loopback` | `src/main.rs` |

`PlaneIndex` holds the row-major index arithmetic the converters share, and
`Wrappers` the `Option` type.

The three 2×2 converters differ only in the last byte offset their bounds guard
asks for: `bgra_idx + 2` in `src/nvfbc_capture.rs` and `idx + 3` in the other
two. `BlockConvert.BgraToI420Blocks` takes that offset as a parameter
(`GuardOffset`). Each file's `BgraToI420` calls it with its own constant.

The in-place loops are imperative Dafny:

- each plane is an `array<byte>`;
- each method's `ensures` ties the new plane contents to a specification
  function of the input and the old contents (`ConvertY`, `ScaleY`,
  `CopiedPlane`, …);
- the properties the source promises are lemmas about those functions.

In the audio code, samples have an arbitrary type `S`. The floating-point
processing is passed in as functions: the WebRTC processor, RNNoise, the
gain, and the "peak above threshold" test. The shared flags and buffers the
callbacks mutate are classes: `GlobalAudioState`, `DspFramer` and
`LoopbackInput`.

Integer widths follow the source:

- `u32` products and sums in `src/gpu_color_convert.rs` and
  `src/video_service.rs` wrap modulo 2^32 (`Wrap32`), which is what a
  release build does; a debug build panics on the overflow instead (see
  "Left out");
- Rust's `>> 8` on `i32` is division by 256 rounded towards minus infinity,
  which Dafny's `/` also does for a positive divisor.

## Model

| member | source | states |
|---|---|---|
| Bt601.Luma | src/nvfbc_capture.rs:210 | the integer BT.601 luma of every byte triple lies in the studio range 16..235 |
| Bt601.ChromaU | src/nvfbc_capture.rs:224 | blue-difference chroma of every byte triple lies in 16..240 |
| Bt601.ChromaV | src/nvfbc_capture.rs:225 | red-difference chroma of every byte triple lies in 16..240 |
| Bt601.ClampIsIdentity | src/nvfbc_capture.rs:210-230 | `clamp(0, 255)` before the `u8` cast never changes Y, U or V |
| Bt601.BlackIsNeutral | src/pipewire_capture.rs:221-236 | black gives Y = 16 and U = V = 128 |
| Bt601.WhiteIsNeutral | src/nvfbc_capture.rs:27-39 | white gives Y = 235 and U = V = 128 |
| BlockConvert.PartialSum | src/nvfbc_capture.rs:190-216 | a block's channel sum over the pixels the guard admits is at most 255 per pixel, so the `i32` sums cannot overflow |
| BlockConvert.PixelAtFacts | src/nvfbc_capture.rs:195-211 | every pixel visited for block (bx, by) has a Y index below `w*h`, lies in that block, at its position in the visiting order |
| BlockConvert.BlockInRange | src/nvfbc_capture.rs:227 | a block's chroma index `by*(w/2)+bx` is below the number of blocks and gives back bx and by |
| BlockConvert.PixelAtExactly | src/nvfbc_capture.rs:194-198 | the pixel at `(block_y*2+dy)*width + block_x*2+dx` is exactly the pixel of the grid lying in that block at position `2*dy+dx` |
| BlockConvert.ConvertPixel | src/nvfbc_capture.rs:196-215 | one pixel adds its channels to the sums and writes its luma exactly when the guard admits it; every other Y cell is unchanged |
| BlockConvert.ConvertBlock | src/nvfbc_capture.rs:190-217 | one block writes the luma of exactly the admitted pixels, leaves every other Y cell unchanged, and returns the three channel sums |
| BlockConvert.BgraToI420Blocks | src/nvfbc_capture.rs:181-234 | the three planes afterwards equal `ConvertY`, `ConvertU` and `ConvertV` of the input and the old planes |
| BlockConvertFacts.PartialSumIgnoresAlpha | src/pipewire_capture.rs:205-227 | channel sums do not depend on alpha bytes |
| BlockConvertFacts.BlockChromaIgnoresAlpha | src/pipewire_capture.rs:231-236 | a block's U and V do not depend on alpha bytes |
| BlockConvertFacts.AlphaIgnored | src/pipewire_capture.rs:215-218 | two inputs differing only in alpha bytes give identical Y, U and V planes |
| BlockConvertFacts.InGridInPlane | src/nvfbc_capture.rs:211 | every Y write index is below `w*h` |
| BlockConvertFacts.UntouchedCells | src/nvfbc_capture.rs:199-203 | Y cells at or past `w*h` and Y cells of skipped pixels keep their old value, and so do V cells at or past the U plane's length |
| BlockConvertFacts.LastColumnOutsideGrid | src/bin/benchmark_bottleneck.rs:122 | with odd width the last column is in no block |
| BlockConvertFacts.LastRowOutsideGrid | src/bin/benchmark_bottleneck.rs:121 | with odd height the last row is in no block |
| BlockConvertFacts.OddEdgesUntouched | src/bin/benchmark_bottleneck.rs:121-128 | with odd width (height) the last Y column (row) keeps its old values |
| BlockConvertFacts.ZeroPartialSum | src/pipewire_capture.rs:224-226 | on all-zero input every channel sum is 0 |
| BlockConvertFacts.ZeroBlockChroma | src/pipewire_capture.rs:231-236 | on all-zero input every block's U and V are 128 |
| BlockConvertFacts.BlackFrame | src/pipewire_capture.rs:220-242 | on all-zero input every Y cell is 16 or unchanged and every U and V cell is 128 or unchanged |
| BlockConvertFacts.PixelInSomeBlock | src/pipewire_capture.rs:198-209 | every pixel of the even-sized grid belongs to one of the `(w/2)*(h/2)` blocks |
| BlockConvertFacts.EvenBlocks | src/pipewire_capture.rs:238-242 | with even w and h there are exactly `w*h/4` blocks, the U plane's length |
| BlockConvertFacts.EvenPlaneInGrid | src/pipewire_capture.rs:198-209 | with even w and h every Y index below `w*h` is visited |
| BlockConvertFacts.FullCoverage | src/pipewire_capture.rs:198-242 | with even w and h and at least `4*w*h` input bytes, every Y cell gets its pixel's luma and every U and V cell below `w*h/4` gets its block's chroma |
| BlockConvertFacts.GuardsAgreeOnSums | src/pipewire_capture.rs:211-213 | on input made of whole pixels the two guards give the same channel sums |
| BlockConvertFacts.GuardsAgree | src/pipewire_capture.rs:211 | on input made of whole pixels the `idx + 2` and `idx + 3` guards admit the same pixels |
| BlockConvertFacts.GuardsAgreeOnWholePixels | src/pipewire_capture.rs:211-213 | on input made of whole pixels the guard offsets 2 and 3 give identical planes |
| BlockConvertFacts.GuardsDifferOnPartialPixel | src/nvfbc_capture.rs:201-203 | on any 3-byte input for a 2×2 frame the `+2` guard writes pixel 0's luma into Y cell 0 while the `+3` guard keeps the old value, so they differ whenever that value is below 16; black gives 16 |
| NvfbcCapture.BgraToI420 | src/nvfbc_capture.rs:181-234 | the planes afterwards are the 2×2 conversion with the `bgra_idx + 2` guard |
| PipewireCapture.BgraToI420 | src/pipewire_capture.rs:191-245 | the planes afterwards are the 2×2 conversion with the `idx + 3` guard |
| PipewireCapture.BlackEvenFrame | src/pipewire_capture.rs:252-264 | for even w and h and an all-zero `w*h*4`-byte input, the planes keep lengths `w*h`, `w*h/4` and `w*h/4`, all Y are 16 and all U and V are 128 |
| PipewireCapture.FullHdBlackFrame | src/pipewire_capture.rs:252-264 | the 1920×1080 case: plane lengths 2073600, 518400 and 518400, with Y = 16 in every luma cell and U = V = 128 in every chroma cell |
| BenchmarkBottleneck.BgraToI420 | src/bin/benchmark_bottleneck.rs:115-162 | produces exactly the planes of the pipewire converter |
| NvfbcLowPower.SrcCoordBelow | src/nvfbc_lowpower.rs:198-205 | for `d < dst`, `d*ratio` stays below `src << 16` and the source coordinate is below `src` |
| NvfbcLowPower.SrcCoordMonotone | src/nvfbc_lowpower.rs:203-205 | source coordinates do not decrease as destination coordinates increase |
| NvfbcLowPower.SameSizeIsIdentity | src/nvfbc_lowpower.rs:198-205 | equal sizes give ratio 65536 and the identity mapping |
| NvfbcLowPower.SourcePixelInImage | src/nvfbc_lowpower.rs:206 | the sampled source pixel of every destination cell lies in the source image |
| NvfbcLowPower.ScaleLumaPass | src/nvfbc_lowpower.rs:201-219 | the Y plane afterwards equals `ScaleY` of the input and the old plane |
| NvfbcLowPower.ChromaStep | src/nvfbc_lowpower.rs:222-239 | chroma cell `dy*(dw/2)+dx` is fed by the source pixel under destination pixel (2dx, 2dy) |
| NvfbcLowPower.ScaleChromaPass | src/nvfbc_lowpower.rs:221-245 | the U and V planes afterwards equal `ScaleU` and `ScaleV` of the input and the old planes |
| NvfbcLowPower.BgraToI420Scaled | src/nvfbc_lowpower.rs:184-246 | requires nonzero destination sizes; the three planes afterwards equal `ScaleY`, `ScaleU` and `ScaleV` |
| NvfbcLowPower.ChromaSharesLumaSource | src/nvfbc_lowpower.rs:222-226 | a chroma cell samples the same source pixel as the luma cell at the top-left of its 2×2 destination block, with no averaging |
| NvfbcLowPower.LumaPassCoversGrid | src/nvfbc_lowpower.rs:202-218 | with a full source buffer the whole `dw × dh` luma grid is written |
| NvfbcLowPower.UnscaledLumaIsPerPixel | src/nvfbc_lowpower.rs:198-217 | without scaling, each Y cell is its own pixel's luma |
| NvfbcLowPower.DefaultSettings | src/nvfbc_lowpower.rs:22-30 | the default target is 16-aligned and 16:9 |
| NvfbcLowPower.DefaultSettingsFromFullHd | src/nvfbc_lowpower.rs:253-258 | the defaults are 1280×720 at 30 fps; from 1920×1080 both ratios are 1.5 (98304) and the last cells sample column 1918 and row 1078 |
| GpuColorConvert.Wrap32 | src/gpu_color_convert.rs:124 | reduction modulo 2^32 gives a `u32` and is identity on `u32` values |
| GpuColorConvert.CopiesAreMonotone | src/gpu_color_convert.rs:169-183 | copying V implies copying U, and copying U implies copying Y |
| GpuColorConvert.CopiedPlane | src/gpu_color_convert.rs:168-183 | a plane gets its source range as prefix when the range is complete and is unchanged otherwise; bytes past the prefix never change |
| GpuColorConvert.CopyIntoPlane | src/gpu_color_convert.rs:169-170 | the array afterwards holds the source range as its prefix and its old bytes past it |
| GpuColorConvert.CopyI420Data | src/gpu_color_convert.rs:162-184 | each plane afterwards is `CopiedPlane` of the old plane under its own length condition |
| GpuColorConvert.ExactSampleRoundTrip | src/gpu_color_convert.rs:213-227 | a sample of exactly `y_size + 2*uv_size` bytes copies all three planes, and their prefixes concatenate back to the sample |
| GpuColorConvert.I420TotalSize | src/gpu_color_convert.rs:191-201 | `y_size + 2*uv_size == w*h*3/2` when `w*h` is divisible by 4 and `w*h*3` does not wrap past 2^32 |
| GpuColorConvert.FrameSizeInstances | src/gpu_color_convert.rs:191-211 | the 1920×1080 total is 3110400 and the 1280×720 BGRA size is 3686400 |
| GpuColorConvert.ExpectedSizeWraps | src/gpu_color_convert.rs:124 | the `u32` product wraps to 0 for 65536×65536 and 32768×32768 |
| GpuColorConvert.GpuColorConverter.PushBgraFrame | src/gpu_color_convert.rs:123-144 | pushes iff the size is `w*h*4` (wrapped) and the buffer and the push succeed; a wrong size gives `InvalidBufferSize(got, expected)`; nothing is pushed on any error |
| VideoService.AlignTo16 | src/video_service.rs:293-295 | the result is a multiple of 16 and, below 2^32 − 16, in `[v, v+16)` |
| VideoService.AlignIsLeast | src/video_service.rs:294 | no multiple of 16 at least v is smaller than the result |
| VideoService.AlignFixesMultiples | src/video_service.rs:303-307 | multiples of 16 are fixed and alignment is idempotent |
| VideoService.AlignExamples | src/video_service.rs:302-308 | 1920, 480 and 720 map to themselves; 1080 maps to 1088 and 854 to 864 |
| VideoService.AlignWrapsNearTop | src/video_service.rs:294 | every value above 2^32 − 16 wraps to 0 |
| VideoService.NativeTargetCoversMonitor | src/video_service.rs:62-71 | with a native request each reported monitor side is rounded up by less than 16, and an unreported monitor (the 1920×1080 fallback of `unwrap_or`) is encoded at 1920×1088 |
| VideoService.TargetResolution | src/video_service.rs:67-72 | the aligned native size if either requested component is 0, otherwise the aligned requested size; both are multiples of 16 |
| VideoService.TargetResolutionExamples | src/video_service.rs:63-72 | 1280×720 is kept; 0×0 becomes 1920×1088; a zero component selects the native size |
| VideoService.SinkCopyAsWritten | src/video_service.rs:219-233 | a short sample is skipped; the code as written panics exactly when the sample is longer than `y_size + 2*uv_size` and the planes fit |
| VideoService.SinkCopy | src/video_service.rs:219-233 | a short sample is skipped, and the corrected copy never panics |
| VideoService.PaddedSampleAsWrittenPanics | src/video_service.rs:222-232 | a 7-byte sample for a 2×2 frame passes the guard and panics as written, but is captured by the corrected copy |
| VideoService.SinkCopyAgreesOnExactSample | src/video_service.rs:229-233 | on an exact-size sample the code as written and the corrected copy agree |
| VideoService.SinkCopyKeepsSample | src/video_service.rs:229-233 | a captured frame's Y, U and V prefixes are the sample's three consecutive ranges |
| VideoService.SoftwareSinkCopy | src/video_service.rs:219-233 | captures iff the sample holds a frame; the planes afterwards are the corrected copy, or unchanged when skipped |
| Strings.LowerCharIsLower | src/audio_service.rs:70 | a lower-cased character is never upper-case, lower-casing it again changes nothing, and it changes exactly when it was upper-case |
| Strings.ToLowerIsLower | src/audio_service.rs:70 | a lower-cased id holds no upper-case letter, lower-casing is idempotent, and an id is unchanged exactly when it holds no upper-case letter |
| Strings.ToLowerConcat | src/audio_service.rs:70 | lower-casing distributes over concatenation |
| Strings.FindFrom | src/audio_service.rs:72-87 | the first occurrence at or after a position, or none |
| Strings.Find | src/audio_service.rs:72-87 | the first occurrence of a pattern, or none when it occurs nowhere |
| Strings.SecondField | src/audio_service.rs:92 | `split(pat).nth(1)` is none iff the pattern is absent; otherwise it is the text from the end of the first occurrence up to the next occurrence or the end of the string, with no occurrence starting inside it |
| Strings.SplitJoin | src/audio_service.rs:92 | joining the fields of `split(pat)` with `pat` gives the string back |
| Strings.SecondFieldIsSplit | src/audio_service.rs:92 | `SecondField` is the second field of `Split`, and none exactly when there is a single field |
| Strings.FirstField | src/audio_service.rs:93 | `split(c).next()` is a prefix without `c`, followed by `c` when shorter than the input |
| AudioDevices.CardName | src/audio_service.rs:92-93 | the card name exists iff the id contains `CARD=`; it is the text right after the first `CARD=`, ending at the first `,`, the next `CARD=` or the end of the id, and holds neither |
| AudioDevices.CleanNameKeepsOnlyPlainIds | src/audio_service.rs:92-101 | the display name equals the raw id exactly when the id contains no `CARD=`; a card's display name never equals its id |
| AudioDevices.CollectedOk | src/audio_service.rs:56-106 | the collected list starts with the default entry, holds only kept names with their clean names, one entry per display name (the first-seen device), and `seen` is exactly its display names |
| AudioDevices.VisitOk | src/audio_service.rs:103-106 | visiting one more name keeps that invariant |
| AudioDevices.CollectDevices | src/audio_service.rs:53-109 | the loop's list and set equal the specification `Collected` |
| AudioDevices.LexLeTotal | src/audio_service.rs:114 | string order is total |
| AudioDevices.LexLeAntisymmetric | src/audio_service.rs:114 | string order is antisymmetric |
| AudioDevices.LexLeTransitive | src/audio_service.rs:114 | string order is transitive |
| AudioDevices.BeforeTotal | src/audio_service.rs:111-115 | the comparator orders any two entries |
| AudioDevices.BeforeTransitive | src/audio_service.rs:111-115 | the comparator is transitive |
| AudioDevices.SortDevices | src/audio_service.rs:111-115 | the array afterwards is sorted by the comparator, is a permutation, and keeps display names distinct |
| AudioDevices.InsertLast | src/audio_service.rs:111-115 | one insertion step extends the sorted prefix and permutes the array |
| AudioDevices.DistinctUnderPermutation | src/audio_service.rs:111-115 | a permutation of a list with distinct display names has distinct display names |
| AudioDevices.SortedListOk | src/audio_service.rs:111-117 | after sorting, the default entry is at index 0 and nowhere else, the rest is in ascending display-name order, and every first-seen clean name is listed |
| AudioDevices.GetProfessionalDeviceList | src/audio_service.rs:53-118 | exactly one default entry, at index 0; distinct display names; ascending order after index 0; every other entry a kept input name with its clean name; every kept name's clean name listed; a permutation of the collected list |
| AudioDevices.FirstNamed | src/audio_service.rs:130 | the first device whose name (empty if unreadable) equals the id |
| AudioDevices.FirstContaining | src/audio_service.rs:138 | the first device whose name contains the card name |
| AudioDevices.ResolveInputDevice | src/audio_service.rs:125-147 | `default` gives the host default or "No mic found"; otherwise the first exact name match of the first enumeration gives `Exact`, failing that an id naming a card gives `CardFallback` at the first retry device containing the card name; a failed enumeration (either `?`) gives `EnumerationFailed` and no match gives `DeviceNotFound`, each iff its condition holds |
| AudioDevices.ExactMatchIgnoresRetry | src/audio_service.rs:128-133 | an exact match decides the device whatever the second enumeration and the host default are |
| AudioDevices.ResolvedDeviceFits | src/audio_service.rs:128-142 | an exact match is named by the id; a fallback is chosen only when no device is named by the id, for an id with `CARD=`, and its name contains the card name |
| AudioService.DefaultSettings | src/audio_service.rs:34-44 | default device "default", push-to-talk off on left Control, AEC and AGC on |
| AudioService.PttNext | src/audio_service.rs:271-289 | disabled: the flag becomes true; enabled: press of the key sets it, release clears it, any other event keeps it |
| AudioService.PttDisabledTransmits | src/audio_service.rs:271-274 | with push-to-talk disabled any nonempty run of events leaves the flag true |
| AudioService.PttIgnoresOtherEvents | src/audio_service.rs:276-290 | with push-to-talk enabled, events other than the key's press and release never change the flag |
| AudioService.PttLastTargetEventDecides | src/audio_service.rs:277-288 | with push-to-talk enabled, after any run the flag is set iff the last press-or-release of the key was a press |
| AudioService.DefaultSettingsTransmit | src/audio_service.rs:34-44 | with the defaults the flag is true after any event, and the input device resolves to the host default |
| AudioService.GlobalAudioState.OnEvent | src/audio_service.rs:265-291 | the shared flag afterwards is `PttNext` of its old value |
| AudioService.ChunkCount | src/audio_service.rs:166 | the number of chunks is the least count covering all samples |
| AudioService.ChunkHeads | src/audio_service.rs:166 | one sample per chunk: the k-th is the sample at `k*in_ch` |
| AudioService.DownMix | src/audio_service.rs:165-167 | requires a nonzero channel count; keeps the first sample of every chunk, the last possibly partial |
| AudioService.UpMix | src/audio_service.rs:175-180 | every channel of output frame k gets the k-th queued sample or silence; the number popped is min(queued, frames) |
| AudioService.UpMixThenDownMix | src/audio_service.rs:166-179 | down-mixing an up-mixed buffer gives back the queued samples, padded with silence |
| AudioService.Frames | src/audio_service.rs:224-225 | every drained frame has 480 samples |
| AudioService.Rest | src/audio_service.rs:224 | fewer than 480 samples remain after draining |
| AudioService.FramesReassemble | src/audio_service.rs:223-225 | the drained frames followed by the remainder are exactly the buffered samples, in order |
| AudioService.FrameCount | src/audio_service.rs:224-225 | `len/480` frames are drained and `len%480` samples remain |
| AudioService.FramesAcrossFeeds | src/audio_service.rs:222-225 | feeding two resampler outputs one after the other drains the same frames as feeding both at once |
| AudioService.GatedFramesAreFrames | src/audio_service.rs:227-236 | every frame handed on has 480 samples when the capture chain keeps frame length, and a frame handled while not transmitting is all silence |
| AudioService.DspFramer.Extend | src/audio_service.rs:223-236 | the buffer afterwards is the remainder of old buffer + input; frame k of the output is the gated clean frame k, silence whenever the flag read for it is off |
| Loopback.DefaultSettings | src/main.rs:22-35 | hold of 20 frames, very high noise suppression, RNNoise, high-pass filter and transient suppressor on |
| Loopback.GateStep | src/main.rs:97-103 | a loud frame opens with full hold; a quiet one decrements a nonzero hold without closing, and closes at hold 0; a closed gate opens only when loud |
| Loopback.GateRunOk | src/main.rs:97-103 | the hold never exceeds its setting and a closed gate has no hold, over any run of frames |
| Loopback.ClosedStaysClosed | src/main.rs:98-103 | a closed gate stays closed through any run of quiet frames |
| Loopback.QuietRunCountsDown | src/main.rs:101-102 | k quiet frames use up k frames of hold and keep the gate as it was |
| Loopback.HoldAfterLoud | src/main.rs:97-103 | after a loud frame the gate stays open for exactly `gate_hold_frames` quiet frames and closes on the next one |
| Loopback.DefaultHold | src/main.rs:28 | with the default hold, 20 quiet frames keep the gate open and the 21st closes it |
| Loopback.OutputFrame | src/main.rs:105-114 | silence when closed; the processed frame when open without RNNoise; the denoised frame with it |
| Loopback.CallbackFraming | src/main.rs:90-120 | fewer than 480 samples wait between calls; output comes in whole 480-sample frames; every input sample is either output or waiting |
| Loopback.CallbackKeepsGateOk | src/main.rs:97-103 | the gate invariant holds across every callback |
| Loopback.QuietInputIsSilent | src/main.rs:97-114 | while nothing is loud, a closed gate stays closed and only silence is queued |
| Loopback.LoopbackInput.constructor | src/main.rs:80-83 | empty accumulator, gate closed, hold 0 |
| Loopback.LoopbackInput.OnInput | src/main.rs:87-121 | the state and queued samples afterwards equal the `Callback` specification applied to the old state |

## Left out

- GStreamer pipelines, appsrc/appsink callbacks and bus handling (`src/video_service.rs:82-191`, `src/gpu_color_convert.rs:39-117`): foreign framework I/O. The buffer allocation and the push in `push_bgra_frame` are two boolean inputs.
- LiveKit publishing, the screen and PipeWire capture sessions, capture threads and their `running` flags: network, hardware I/O and concurrency.
- cpal device and stream management, and the enumeration itself: the enumerated device names are an input, `None` marking a name that could not be read.
- The `HeapRb` ring buffers: their full and empty behaviour is in a library not shown here. Pushed samples are returned as sequences, and popped samples are an input sequence.
- The WebRTC processor, RNNoise and the rubato resamplers, including their internal state: opaque functions of the frame. Echo cancellation's render feed (`process_render_frame`) and the output resampler are not modelled.
- Floating-point arithmetic: input and output gains, the `i16` to `f32` scaling and the peak-amplitude fold. The gain is an opaque function and the threshold test is a boolean per frame.
- `Loopback.LoopbackInput.OnInput`: the `unwrap` panic on a processing error is not modelled.
- The output callback of `src/main.rs:130-135` (pop times output gain): float arithmetic over the ring buffer.
- Mutexes, atomics and `thread::sleep` pacing: concurrency. Each callback runs atomically in the model.
- `src/lib.rs`: configuration-selected constant strings and a foreign availability probe.
- `I420Buffer::new`: the planes are arrays whose lengths the callers choose.
- `BlockConvert.BgraToI420Blocks`: requires a Y plane of at least `w*h` cells and a V plane at least as long as the U plane. Rust would panic on a shorter Y plane (the index at `src/nvfbc_capture.rs:211`) or a shorter V plane; `I420Buffer` never has either.
- `NvfbcLowPower.BgraToI420Scaled`: requires a nonzero destination width and height, because Rust panics on the divisions by them at `src/nvfbc_lowpower.rs:197-198`. It also requires a Y plane of at least `dst_w*dst_h` cells and a V plane at least as long as the U plane, where Rust would panic on the index.
- `GpuColorConvert.CopyI420Data`: requires each plane that is copied to be long enough. Rust would panic otherwise, which `I420Buffer::new` rules out.
- `AudioService.DownMix`: requires a nonzero channel count. `chunks(0)` panics.
- `AudioService.UpMix`: requires a nonzero channel count, for the same reason.
- `Strings.ToLower`: lower-cases ASCII letters only. Rust's `to_lowercase` also maps other letters, which only matters for non-ASCII device names.
- `AudioDevices.SortDevices`: an insertion sort stands in for Rust's stable `sort_by`. The comparator is a total order on a list with one default entry and distinct display names, so both produce the same list.
- `GpuColorConvert.YSize`, `GpuColorConvert.UvSize`, `GpuColorConvert.ExpectedSize`: the `u32` products `width * height` and `width * height * 4` wrap as in a release build. A debug build panics on the overflow instead, which is not modelled. The same holds for the members that use them: `GpuColorConvert.CopyI420Data`, `GpuColorConvert.GpuColorConverter.PushBgraFrame`, `VideoService.SinkCopyAsWritten`, `VideoService.SinkCopy` and `VideoService.SoftwareSinkCopy`.
- `VideoService.AlignTo16`: the `& !15` mask is written as subtracting the remainder modulo 16. The `u32` addition wraps as in a release build; the debug-build overflow panic is not modelled.
- The log and `print!` output of the listener and the services.

## Findings

| source | as written | input that shows it | evidently intended | confidence | as-written member | corrected member |
|---|---|---|---|---|---|---|
| src/video_service.rs:222-232 | the guard only rejects short samples, but the V copy takes the whole tail `data[y_size+uv_size..]`, so `copy_from_slice` panics on a length mismatch whenever the sample is longer than `y_size + 2*uv_size` | a 2×2 frame with a 7-byte sample (6 needed) | copy `data[y_size+uv_size..y_size+2*uv_size]`, as `copy_i420_data` does | not executed | VideoService.SinkCopyAsWritten (with VideoService.PaddedSampleAsWrittenPanics) | VideoService.SinkCopy (used by VideoService.SoftwareSinkCopy) |
