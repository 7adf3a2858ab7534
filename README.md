# MicDSP in Dafny

A model of the frame pipeline of `MicDSP`, an ESP32 microphone front end.
A `MicDSP` object opens an I2S bus that delivers 32-bit samples. It then
runs every batch of samples through WebRTC noise suppression (NS),
optionally WebRTC automatic gain control (AGC), and libfvad voice
activity detection (VAD), frame by frame.

The model covers two operations.

- `begin` initialises the bus, discards 20 reads while the DC offset
  settles, then brings up NS, AGC and VAD in that order. It stops at the
  first failure.
- `read` checks that the request is a whole number of 1 to 10 frames and
  captures the samples. It narrows the samples of each whole frame from
  32 to 16 bits with `(int16_t)(x >> 8)`; the samples of a trailing partial
  frame are never narrowed. Each whole frame goes through NS, then AGC when
  enabled, then VAD, and the processed frames are written to the caller's
  buffer. The result is a strict-majority speech decision and the number
  of samples the bus delivered.

Files:

- `wrappers.dfy`: the `Option` type. It stands for the optional out-pointers
  `samples_read` and `vad`.
- `sample_format.dfy`: the 32-bit and 16-bit sample types and the narrowing
  conversion, with its no-wrap, wrap-around and bit-level properties.
- `batch.dfy`:
  - request validation and the arithmetic of frames per capture;
  - the speech count and the majority vote;
  - `Run`, the reference definition of the pipeline over the first `n` frames
    of a capture, with lemmas about it;
  - `Flatten`, the layout of frames in the output buffer.
- `mic_dsp.dfy`: the `MicDSP` class. Its constructor allocates the two
  scratch arrays (`raw32Bus`, 4800 wide samples, and `nsIn`, 480 narrow
  samples). `Begin` and `Read` are methods, proved against `BeginSteps`
  and `Run`, and the frame loop is split into `ProcessFrame`, `FrameStep`
  and `ProcessFrames`.

The three engines are external and stateful. The record `Engines` stands
for them: each engine is a function of the whole sequence of frames fed to
it during the call, oldest first, and NS and AGC return frames of the
frame size. So an engine's output may depend on
everything it has seen so far, and the contracts pin down exactly which
frames each engine saw, and in which order. The bus read is external too.
Its status, the bytes it delivered and the samples in them form the input
record `Capture`.

The reported `samples_read` is every whole 32-bit sample the bus delivered
(`bytesRead / 4`, `MicDSP.cpp:142` and `:189`). It can include a trailing
partial frame that was not processed, so it is not `processed_frames * fs`.

## Model

| member | source | states |
|---|---|---|
| SampleFormat.ShiftRight8 | MicDSP.cpp:152 | `x >> 8` on a signed sample is floor division by 256: `r*256 <= x < r*256 + 256` |
| SampleFormat.TruncateToInt16 | MicDSP.cpp:152 | the `(int16_t)` cast yields a 16-bit value congruent to its input modulo 2^16, and leaves in-range values unchanged |
| SampleFormat.Narrow | MicDSP.cpp:152 | definition: one wide sample narrowed, the arithmetic shift right by 8 followed by the two's-complement cast to 16 bits |
| SampleFormat.NarrowAll | MicDSP.cpp:151-152 | converting a block keeps its length, and element `i` is the narrowed sample `i` |
| SampleFormat.NarrowNoWrap | MicDSP.cpp:152 | a sample that fits in 24 bits narrows to exactly `floor(x / 256)` |
| SampleFormat.NarrowWraps | MicDSP.cpp:152 | outside 24 bits the conversion wraps and does not saturate: `0x7FFFFFFF` becomes -1 and `-2^31` becomes 0 |
| SampleFormat.NarrowIsMiddleBits | MicDSP.cpp:152 | the 16-bit pattern of the result is bits 8 to 23 of the 32-bit pattern of the input |
| Batch.RejectsRequest | MicDSP.cpp:122 | definition: the validation guard as written, fewer samples than a frame, more than ten frames, or not a multiple of the frame size |
| Batch.AcceptedIsWholeFrames | MicDSP.cpp:122-125 | a request is accepted if and only if it is a whole number of frames, between 1 and 10 |
| Batch.RequestExamples | MicDSP.cpp:122-125 | with 160-sample frames: 150 and 1760 are rejected; 160 and 1600 are accepted |
| Batch.SamplesInCapture | MicDSP.cpp:142 | definition: the whole 32-bit samples among the delivered bytes, `bytesRead / 4` rounded down |
| Batch.ProcessedFrames | MicDSP.cpp:142-144 | processed frames are the whole frames among the delivered samples: `n*fs <= samples < n*fs + fs` |
| Batch.ProcessedFramesBounds | MicDSP.cpp:131-144 | for an accepted request, the processed frames are at most the requested frames, and the capture fits the 4800-sample scratch buffer |
| Batch.PartialFrameIsReported | MicDSP.cpp:188-189 | 170 delivered samples with 160-sample frames: one frame is processed, but 170 samples are reported |
| Batch.EmptyCaptureIsSilence | MicDSP.cpp:142-186 | a capture of zero bytes processes no frame, writes nothing, reports 0 samples and is not speech |
| Batch.CountSpeech | MicDSP.cpp:179-180 | the speech count is at most the number of frames, and it is zero if and only if no frame was speech |
| Batch.MajorityVote | MicDSP.cpp:184-186 | definition: the batch decision, at least one processed frame and more than half of them speech, as the integer test `2*speech > processed` |
| Batch.MajorityVoteIsRatio | MicDSP.cpp:184-186 | for at least one frame, the integer test `2*speech > processed` holds if and only if `speech / processed > 0.5` over the reals |
| Batch.MajorityVoteMargin | MicDSP.cpp:184-186 | for 1 to 10 frames, the ratio is either exactly 0.5 or at least 0.05 from it, so the float comparison cannot be decided by rounding |
| Batch.MajorityVoteExamples | MicDSP.cpp:184-186 | one frame decides the batch by itself; 5 of 10 is not speech, 6 of 10 is; no frames is not speech |
| Batch.Run | MicDSP.cpp:146-181 | reference definition of the frame loop: the first `n` frames of a capture, each narrowed, suppressed, gain-controlled when enabled and classified, with every stage's inputs recorded in order |
| Batch.RunStep | MicDSP.cpp:146-181 | one more frame: NS receives the next narrowed frame, AGC (when enabled) the NS output, and VAD the frame left in the buffer, in that order |
| Batch.RunLengths | MicDSP.cpp:146-181 | after `n` frames, each stage has handled exactly `n` frames |
| Batch.RunFrameAt | MicDSP.cpp:146-180 | frame `f` is converted from `raw[f*fs .. f*fs+fs]`; NS and VAD saw frames `0..f` of their input, in order, and nothing later; the NS outputs `0..f` are AGC's inputs when AGC is enabled, and AGC sees nothing otherwise |
| Batch.RunFrames | MicDSP.cpp:146-181 | the same for every frame at once; every output frame has the frame size |
| Batch.RunWithoutGain | MicDSP.cpp:162-176 | with AGC disabled, VAD classifies exactly the NS output |
| Batch.RunSpeechBound | MicDSP.cpp:143-180 | the speech count never exceeds the frames processed |
| Batch.Flatten | MicDSP.cpp:147-148 | definition: the output frames laid end to end, as the loop places frame `f` at `&output[f*fs]` |
| Batch.FlattenLength | MicDSP.cpp:147-148 | `n` frames of size `fs` fill exactly `n*fs` output samples |
| Batch.FlattenPlacement | MicDSP.cpp:147-148 | frame `g` occupies exactly output samples `g*fs .. g*fs+fs` |
| Batch.TracksStep | MicDSP.cpp:146-181 | feeding the next frame to the engines in pipeline order extends the tracked prefix of `Run` by one frame |
| Mic.BeginSteps | MicDSP.cpp:16-33 | definition: the external steps `begin` performs for given outcomes, the bus initialisation, then 20 discard reads and NS, AGC and VAD initialisation, each only after the previous initialisation succeeded |
| Mic.Reached | MicDSP.cpp:20-33 | definition: a step is reached when every initialisation before it succeeded |
| Mic.BeginPerformsReachedSteps | MicDSP.cpp:20-33 | `begin` performs a step if and only if every step before it succeeded |
| Mic.BeginDiscardCount | MicDSP.cpp:25-29 | once the bus is up, exactly 20 discard reads are issued; none if the bus failed |
| Mic.BeginDiscardPlacement | MicDSP.cpp:20-31 | the 20 discard reads come right after the bus initialisation and right before the NS initialisation |
| Mic.CaptureFits | MicDSP.cpp:135-139 | definition: what the bus read delivers, at most the `samples * 4` bytes requested, and exactly the whole samples among the delivered bytes |
| Mic.MicDSP.constructor | MicDSP.cpp:131-132 | the scratch buffers hold 4800 wide samples and 480 narrow samples |
| Mic.MicDSP.Begin | MicDSP.cpp:10-37 | stores the port and rate; succeeds if and only if all four initialisations succeed; performs exactly the steps of `BeginSteps`, in order |
| Mic.WriteFrame | MicDSP.cpp:155-159 | an engine writing a frame at `&output[offset]` changes that frame's slots and nothing else |
| Mic.BufferStep | MicDSP.cpp:147-159 | writing frame `f` right after the `f` frames already written keeps the buffer equal to the frames so far followed by its original contents |
| Mic.LoopStateStep | MicDSP.cpp:146-181 | one loop iteration on values: engine histories, speech count and buffer contents move from `f` frames of `Run` to `f+1` |
| Mic.MicDSP.StoreCapture | MicDSP.cpp:135-139 | the captured samples sit at the front of `raw32Bus` |
| Mic.MicDSP.ConvertFrame | MicDSP.cpp:151-152 | `nsIn` holds the narrowed samples of the frame at `offset` |
| Mic.MicDSP.ProcessFrame | MicDSP.cpp:146-176 | NS receives the narrowed frame, and AGC, when enabled, receives the NS output. The frame left in `output[offset..]` is AGC's result, or NS's when AGC is off. The rest of the buffer is unchanged, and AGC is called only when enabled |
| Mic.MicDSP.FrameStep | MicDSP.cpp:146-181 | one iteration of the frame loop keeps the loop state in step with `Run` |
| Mic.MicDSP.ProcessFrames | MicDSP.cpp:143-181 | the speech count is that of `Run`'s verdicts; the buffer holds `Run`'s output frames end to end, then its old contents; AGC is called once per frame when enabled, otherwise never |
| Mic.MicDSP.Read | MicDSP.cpp:112-192 | three outcomes. A rejected request returns `ESP_ERR_INVALID_ARG`, reads nothing and changes nothing. A bus error returns that status, writes neither out-value and leaves the buffer alone. Otherwise the whole frames are processed as `Run` says, the buffer holds their output, `vad` is the majority vote over `Run`'s verdicts, `samples_read` is every whole sample delivered, and the status is `ESP_OK`; each out-value is written only when requested |

## Left out

- Logging (`log`, `Serial.printf`) has no observable effect on results, so it is not modelled.
- The I2S driver setup (`initI2S`, `MicDSP.cpp:40-70`: pin and DMA configuration) and the NS, AGC and VAD set-up calls (`initNS`, `initAGC`, `initVAD`) are external. Only their success or failure enters the model, as `InitOutcome`.
- The bus read `i2s_read` is an input. Its status, delivered byte count and samples are the record `Capture`, so `ticks_to_wait` and timeouts are not modelled. What the failed read leaves in `raw32Bus` is not modelled either: the samples are stored before the status is checked, and nothing reads them afterwards.
- The NS, AGC and VAD algorithms are external. Each engine is a function of the frames fed to it during the call, NS and AGC each returning a frame of `fs` samples; its state from earlier calls is folded into that function. AGC's microphone level, echo flag and saturation warning are constants or outputs the code ignores, so they are not modelled. A VAD result other than 1 (including its error value -1) counts as non-speech.
- Mic.MicDSP.Read: NS and AGC are assumed to return frames of exactly `fs` samples (`FrameSized`). AGC is given `fs` at `MicDSP.cpp:170`, but NS's frame length is set by its initialisation with the sample rate (`MicDSP.cpp:77`), and the code never checks it against `fs`.
- Mic.MicDSP.Read: the float division `speechFrames / processedFrames > 0.50f` is modelled as the integer test `2*speech > processed`. `MajorityVoteIsRatio` proves this equal to the exact ratio test, and `MajorityVoteMargin` proves that for 1 to 10 frames the ratio is either exactly 0.5 or at least 0.05 away from it. Single-precision rounding itself is not modelled.
- Mic.MicDSP.Read: the frame size `frameSize()` is neither declared in `MicDSP.h` nor defined in `MicDSP.cpp`, so it is not part of this model. It is a parameter `fs` with `0 < fs <= 480`. The bound is what the fixed sizes of the static buffers assume (`MicDSP.cpp:131-132`); the code does not check it.
- Mic.MicDSP.Read: the scratch buffers are `static` in the source, so they are shared by every `MicDSP` object and the call is not reentrant. The model gives each object its own buffers, and does not model sharing or concurrent calls.
- Mic.MicDSP.Read: the model does not track whether `begin` succeeded before a `read`. The engine handles `_ns`, `_agc`, `_fvad` and the unused field `_agcEnabled` are not modelled.
- Mic.MicDSP.Read: `esp_err_t` is an `int`. A bus error whose code equals `ESP_ERR_INVALID_ARG` (0x102) cannot be told apart from a rejected request, exactly as in the source.
- Mic.MicDSP.Read: the header's defaults (`MicDSP.h:25-28`) are not modelled. `samples_read` and `vad` default to null and `agcEnabled` to true there. In the model, `wantSamplesRead`, `wantVad` and `agcEnabled` are required parameters, and `ticks_to_wait` (default `portMAX_DELAY`) is dropped with the bus read.
- The unused local `frames` (`MicDSP.cpp:128`) is not modelled.
- Delivered bytes that do not make up a whole 32-bit sample are ignored, as the integer division at `MicDSP.cpp:142` ignores them.
- The discard reads in `begin` use a 160-sample stack buffer whose contents are never used. Only their number and order are modelled.
