/** The batch logic of one `read` call: which requested sample counts are
    accepted, how many whole frames a partial capture yields, how the frames
    pass through noise suppression, gain control and voice-activity detection
    in order, and how the per-frame verdicts are combined by majority vote. */
module Batch {
  import opened SampleFormat

  /** Largest batch, in frames. */
  const MaxFramesPerRead: nat := 10
  /** Largest frame the scratch frame buffer holds (10 ms at 48 kHz). */
  const MaxFrameSize: nat := 480
  /** Entries of the scratch capture buffer (`1600 * 3`). */
  const RawCapacity: nat := 4800
  /** `sizeof(int32_t)`: bytes per wide sample on the bus. */
  const BytesPerSample: nat := 4

  /** A frame of narrow samples. */
  type Frame = seq<Int16>

  /** Multiplication by a natural number is monotone. */
  lemma MulMono(a: nat, b: nat, c: nat)
    ensures a <= b ==> a * c <= b * c
  {
    if a <= b {
      var d: nat := b - a;
      assert b * c == a * c + d * c;
    }
  }

  // ---------------- validation ----------------

  /** The guard that makes `read` return `ESP_ERR_INVALID_ARG`. */
  predicate RejectsRequest(samples: nat, fs: nat)
    requires fs > 0
  {
    samples < fs || samples > fs * MaxFramesPerRead || samples % fs != 0
  }

  /** A request is accepted exactly when it is a whole number of frames, from
      one frame to ten. */
  lemma AcceptedIsWholeFrames(samples: nat, fs: nat)
    requires fs > 0
    ensures !RejectsRequest(samples, fs) <==>
              samples == (samples / fs) * fs && 1 <= samples / fs <= MaxFramesPerRead
  {
    var k := samples / fs;
    assert samples == k * fs + samples % fs;
    MulMono(1, k, fs);
    MulMono(k, MaxFramesPerRead, fs);
    MulMono(MaxFramesPerRead + 1, k, fs);
  }

  /** The worked cases of a 16 kHz microphone (frames of 160 samples). */
  lemma RequestExamples()
    ensures RejectsRequest(150, 160) && RejectsRequest(1760, 160)
    ensures !RejectsRequest(160, 160) && !RejectsRequest(1600, 160)
  {
  }

  // ---------------- frame arithmetic ----------------

  /** Whole wide samples in a capture of `bytesRead` bytes. */
  function SamplesInCapture(bytesRead: nat): nat
  {
    bytesRead / BytesPerSample
  }

  /** Frames processed from a capture: whole samples, then whole frames; a
      trailing partial frame is dropped. */
  function ProcessedFrames(bytesRead: nat, fs: nat): (n: nat)
    requires fs > 0
    ensures n * fs <= SamplesInCapture(bytesRead) < n * fs + fs
  {
    var s := SamplesInCapture(bytesRead);
    assert s == (s / fs) * fs + s % fs;
    s / fs
  }

  /** For an accepted request and a capture no longer than requested, the
      processed frames are at most the requested frames (so at most ten), and
      every index touched, below `processedFrames * fs`, lies inside the
      requested samples and inside the scratch capture buffer. */
  lemma ProcessedFramesBounds(samples: nat, fs: nat, bytesRead: nat)
    requires 0 < fs <= MaxFrameSize && !RejectsRequest(samples, fs)
    requires bytesRead <= samples * BytesPerSample
    ensures ProcessedFrames(bytesRead, fs) <= samples / fs <= MaxFramesPerRead
    ensures ProcessedFrames(bytesRead, fs) * fs <= SamplesInCapture(bytesRead) <= samples <= RawCapacity
  {
    var n := ProcessedFrames(bytesRead, fs);
    var k := samples / fs;
    AcceptedIsWholeFrames(samples, fs);
    assert SamplesInCapture(bytesRead) <= samples;
    MulMono(k + 1, n, fs);
    MulMono(fs, MaxFrameSize, MaxFramesPerRead);
  }

  /** The samples reported as read can exceed the samples processed: a capture
      of 170 samples with frames of 160 processes one frame and reports 170. */
  lemma PartialFrameIsReported()
    ensures ProcessedFrames(170 * BytesPerSample, 160) * 160 == 160
    ensures SamplesInCapture(170 * BytesPerSample) == 170
  {
  }

  // ---------------- majority vote ----------------

  /** Number of frames classified as speech. */
  function CountSpeech(verdicts: seq<bool>): (n: nat)
    ensures n <= |verdicts|
    ensures n == 0 <==> forall i :: 0 <= i < |verdicts| ==> !verdicts[i]
  {
    if verdicts == [] then 0
    else CountSpeech(verdicts[..|verdicts| - 1]) + (if verdicts[|verdicts| - 1] then 1 else 0)
  }

  /** The batch decision: speech only when more than half of the processed
      frames were speech; no frames, or a tie, is not speech. */
  predicate MajorityVote(speechFrames: nat, processedFrames: nat)
  {
    processedFrames > 0 && 2 * speechFrames > processedFrames
  }

  /** A capture that delivers no bytes processes no frames, reports no
      samples and is not speech, whatever the engines would say. */
  lemma EmptyCaptureIsSilence(fs: nat, agc: bool, e: Engines)
    requires fs > 0
    ensures ProcessedFrames(0, fs) == 0 && SamplesInCapture(0) == 0
    ensures Run([], fs, ProcessedFrames(0, fs), agc, e).out == []
    ensures !MajorityVote(CountSpeech(Run([], fs, ProcessedFrames(0, fs), agc, e).verdicts), ProcessedFrames(0, fs))
  {
  }

  /** The integer test is the source's ratio test `speech / processed > 0.50`
      read over the reals. */
  lemma MajorityVoteIsRatio(speechFrames: nat, processedFrames: nat)
    requires processedFrames > 0
    ensures MajorityVote(speechFrames, processedFrames) <==>
              (speechFrames as real) / (processedFrames as real) > 0.5
  {
    var s, p := speechFrames as real, processedFrames as real;
    var ratio := s / p;
    assert ratio * p == s;
    assert (ratio - 0.5) * p == s - 0.5 * p;
    PositiveFactor(ratio - 0.5, p);
    assert ratio > 0.5 <==> s - 0.5 * p > 0.0;
    assert s - 0.5 * p > 0.0 <==> 2 * speechFrames > processedFrames;
    assert MajorityVote(speechFrames, processedFrames) <==> 2 * speechFrames > processedFrames;
  }

  /** With a positive factor, the sign of a product is the sign of the other factor. */
  lemma PositiveFactor(x: real, y: real)
    requires y > 0.0
    ensures x * y > 0.0 <==> x > 0.0
    ensures x * y < 0.0 <==> x < 0.0
  {
    if x > 0.0 {
      assert x * y > 0.0;
    } else if x < 0.0 {
      assert (-x) * y > 0.0;
    }
  }

  /** With at most ten frames the ratio is either exactly one half or at least
      1/20 away from it, so the single-precision division and comparison of the
      source cannot land on the other side of 0.5 than the exact ratio. */
  lemma MajorityVoteMargin(speechFrames: nat, processedFrames: nat)
    requires 0 < processedFrames <= MaxFramesPerRead
    ensures var ratio := (speechFrames as real) / (processedFrames as real);
            ratio == 0.5 || ratio >= 0.55 || ratio <= 0.45
  {
    var s, p := speechFrames as real, processedFrames as real;
    var ratio := s / p;
    assert ratio * p == s;
    if 2 * speechFrames > processedFrames {
      // ratio - 1/2 == (2 s - p) / (2 p) with 2 s - p >= 1
      assert (ratio - 0.5) * (2.0 * p) == 2.0 * (ratio * p) - p == 2.0 * s - p >= 1.0;
      AtLeastOneTwentieth(ratio - 0.5, 2.0 * p);
    } else if 2 * speechFrames < processedFrames {
      assert (0.5 - ratio) * (2.0 * p) == p - 2.0 * (ratio * p) == p - 2.0 * s >= 1.0;
      AtLeastOneTwentieth(0.5 - ratio, 2.0 * p);
    } else {
      assert s == 0.5 * p;
      assert (ratio - 0.5) * p == 0.0;
      PositiveFactor(ratio - 0.5, p);
    }
  }

  lemma AtLeastOneTwentieth(x: real, y: real)
    requires 0.0 < y <= 20.0 && x * y >= 1.0
    ensures x >= 0.05
  {
    PositiveFactor(x, y);
    assert x * 20.0 >= x * y by {
      assert x * 20.0 - x * y == x * (20.0 - y);
      if y < 20.0 {
        PositiveFactor(x, 20.0 - y);
      }
    }
  }

  /** A single frame decides the batch by itself; the worked ten-frame cases. */
  lemma MajorityVoteExamples(v: bool)
    ensures MajorityVote(CountSpeech([v]), 1) == v
    ensures !MajorityVote(5, 10) && MajorityVote(6, 10) && !MajorityVote(0, 0)
  {
    assert [v][..0] == [];
  }

  // ---------------- the per-frame pipeline ----------------

  /** The three external engines. Each is stateful, so each is given as a
      function of every frame it has been fed during this `read`, oldest first
      (the state it had when `read` began is part of the function). NS returns
      the suppressed latest frame, AGC the gain-controlled latest frame, VAD its
      verdict on the latest frame. */
  datatype Engines = Engines(
    suppress: seq<Frame> -> Frame,
    gain: seq<Frame> -> Frame,
    classify: seq<Frame> -> bool)

  /** NS and AGC hand back frames of the configured frame size. */
  ghost predicate FrameSized(e: Engines, fs: nat)
  {
    forall h :: |e.suppress(h)| == fs && |e.gain(h)| == fs
  }

  /** What each stage has seen after some frames: the frames given to NS, the
      frames NS produced (AGC's inputs when AGC is enabled; they are recorded
      either way), the frames written to the output buffer (the inputs of
      VAD), and the VAD verdicts. */
  datatype Stages = Stages(nsIn: seq<Frame>, nsOut: seq<Frame>, out: seq<Frame>, verdicts: seq<bool>)

  /** The `f`-th frame of narrow samples of a capture. */
  function NarrowFrame(raw: seq<Int32>, fs: nat, f: nat): (x: Frame)
    requires f * fs + fs <= |raw|
    ensures |x| == fs
  {
    NarrowAll(raw[f * fs .. f * fs + fs])
  }

  lemma NextFrameFits(n: nat, fs: nat, len: nat)
    requires n > 0 && n * fs <= len
    ensures (n - 1) * fs + fs <= len && (n - 1) * fs <= len
  {
    assert (n - 1) * fs + fs == n * fs;
  }

  /** The first `n` frames of a capture through the pipeline, frame after frame:
      convert, suppress, gain-control when `agc` is set, classify. */
  function Run(raw: seq<Int32>, fs: nat, n: nat, agc: bool, e: Engines): Stages
    requires n * fs <= |raw|
    decreases n
  {
    if n == 0 then Stages([], [], [], [])
    else
      NextFrameFits(n, fs, |raw|);
      var p := Run(raw, fs, n - 1, agc, e);
      var nsIn := p.nsIn + [NarrowFrame(raw, fs, n - 1)];
      var suppressed := e.suppress(nsIn);
      var nsOut := p.nsOut + [suppressed];
      var out := p.out + [if agc then e.gain(nsOut) else suppressed];
      Stages(nsIn, nsOut, out, p.verdicts + [e.classify(out)])
  }

  /** One more frame of `Run`, stated outright. */
  lemma RunStep(raw: seq<Int32>, fs: nat, n: nat, agc: bool, e: Engines)
    requires n * fs + fs <= |raw|
    ensures n * fs <= |raw| && (n + 1) * fs <= |raw|
    ensures var p := Run(raw, fs, n, agc, e);
            var st := Run(raw, fs, n + 1, agc, e);
            && st.nsIn == p.nsIn + [NarrowFrame(raw, fs, n)]
            && st.nsOut == p.nsOut + [e.suppress(st.nsIn)]
            && st.out == p.out + [if agc then e.gain(st.nsOut) else e.suppress(st.nsIn)]
            && st.verdicts == p.verdicts + [e.classify(st.out)]
  {
    assert (n + 1) * fs == n * fs + fs;
  }

  /** The frames given to NS, the NS outputs (AGC's inputs when enabled), the
      frames given to VAD, and the verdicts so far, are those of the first `n`
      frames of `Run`. */
  ghost predicate Tracks(raw: seq<Int32>, fs: nat, n: nat, agc: bool, e: Engines,
                         nsFed: seq<Frame>, agcFed: seq<Frame>, vadFed: seq<Frame>, verdicts: seq<bool>)
  {
    && n * fs <= |raw|
    && var st := Run(raw, fs, n, agc, e);
    && nsFed == st.nsIn && agcFed == st.nsOut && vadFed == st.out && verdicts == st.verdicts
  }

  /** Feeding frame `n` to the engines in pipeline order extends the tracked
      prefix by one frame. */
  lemma TracksStep(raw: seq<Int32>, fs: nat, n: nat, agc: bool, e: Engines,
                   nsFed: seq<Frame>, agcFed: seq<Frame>, vadFed: seq<Frame>, verdicts: seq<bool>,
                   x: Frame, frameOut: Frame)
    requires Tracks(raw, fs, n, agc, e, nsFed, agcFed, vadFed, verdicts)
    requires n * fs + fs <= |raw| && x == NarrowAll(raw[n * fs .. n * fs + fs])
    requires frameOut == if agc then e.gain(agcFed + [e.suppress(nsFed + [x])]) else e.suppress(nsFed + [x])
    ensures Tracks(raw, fs, n + 1, agc, e, nsFed + [x], agcFed + [e.suppress(nsFed + [x])],
                   vadFed + [frameOut], verdicts + [e.classify(vadFed + [frameOut])])
  {
    RunStep(raw, fs, n, agc, e);
  }

  lemma {:induction false} RunLengths(raw: seq<Int32>, fs: nat, n: nat, agc: bool, e: Engines)
    requires n * fs <= |raw|
    ensures var st := Run(raw, fs, n, agc, e);
      |st.nsIn| == n && |st.nsOut| == n && |st.out| == n && |st.verdicts| == n
    decreases n
  {
    if n > 0 {
      NextFrameFits(n, fs, |raw|);
      RunLengths(raw, fs, n - 1, agc, e);
    }
  }

  /** Frame `f` of `Run`: converted from `raw[f*fs .. (f+1)*fs)`; NS and VAD
      have seen their inputs of frames `0..f`, in order, and nothing of later
      frames, and so has AGC when it is enabled (it is not called otherwise). */
  lemma {:induction false} RunFrameAt(raw: seq<Int32>, fs: nat, n: nat, agc: bool, e: Engines, f: nat)
    requires n * fs <= |raw| && f < n
    ensures f * fs + fs <= |raw|
    ensures var st := Run(raw, fs, n, agc, e);
      && |st.nsIn| == n && |st.nsOut| == n && |st.out| == n && |st.verdicts| == n
      && st.nsIn[f] == NarrowFrame(raw, fs, f)
      && st.nsOut[f] == e.suppress(st.nsIn[..f + 1])
      && st.out[f] == (if agc then e.gain(st.nsOut[..f + 1]) else st.nsOut[f])
      && st.verdicts[f] == e.classify(st.out[..f + 1])
    decreases n
  {
    NextFrameFits(n, fs, |raw|);
    RunLengths(raw, fs, n, agc, e);
    RunLengths(raw, fs, n - 1, agc, e);
    var p := Run(raw, fs, n - 1, agc, e);
    var st := Run(raw, fs, n, agc, e);
    if f == n - 1 {
      assert st.nsIn[..f + 1] == st.nsIn;
      assert st.nsOut[..f + 1] == st.nsOut;
      assert st.out[..f + 1] == st.out;
    } else {
      RunFrameAt(raw, fs, n - 1, agc, e, f);
      assert st.nsIn[..f + 1] == p.nsIn[..f + 1];
      assert st.nsOut[..f + 1] == p.nsOut[..f + 1];
      assert st.out[..f + 1] == p.out[..f + 1];
    }
  }

  /** Frame by frame, what `Run` computes: frame `f` is converted from
      `raw[f*fs .. (f+1)*fs)`; NS and VAD, and AGC when enabled, each see
      their inputs in frame order up to and including frame `f`; AGC is
      applied only when enabled,
      otherwise the NS output goes unchanged to VAD; every output frame has the
      frame size. */
  lemma RunFrames(raw: seq<Int32>, fs: nat, n: nat, agc: bool, e: Engines)
    requires n * fs <= |raw| && FrameSized(e, fs)
    ensures var st := Run(raw, fs, n, agc, e);
      && |st.nsIn| == n && |st.nsOut| == n && |st.out| == n && |st.verdicts| == n
      && (forall f :: 0 <= f < n ==> f * fs + fs <= |raw| && st.nsIn[f] == NarrowFrame(raw, fs, f))
      && (forall f :: 0 <= f < n ==> st.nsOut[f] == e.suppress(st.nsIn[..f + 1]))
      && (forall f :: 0 <= f < n ==>
            st.out[f] == if agc then e.gain(st.nsOut[..f + 1]) else st.nsOut[f])
      && (forall f :: 0 <= f < n ==> st.verdicts[f] == e.classify(st.out[..f + 1]))
      && (forall f :: 0 <= f < n ==> |st.out[f]| == fs)
  {
    var st := Run(raw, fs, n, agc, e);
    RunLengths(raw, fs, n, agc, e);
    forall f | 0 <= f < n
      ensures f * fs + fs <= |raw| && st.nsIn[f] == NarrowFrame(raw, fs, f)
      ensures st.nsOut[f] == e.suppress(st.nsIn[..f + 1])
      ensures st.out[f] == if agc then e.gain(st.nsOut[..f + 1]) else st.nsOut[f]
      ensures st.verdicts[f] == e.classify(st.out[..f + 1])
      ensures |st.out[f]| == fs
    {
      RunFrameAt(raw, fs, n, agc, e, f);
    }
  }

  /** With AGC disabled the frames classified are exactly the NS output. */
  lemma {:induction false} RunWithoutGain(raw: seq<Int32>, fs: nat, n: nat, e: Engines)
    requires n * fs <= |raw|
    ensures Run(raw, fs, n, false, e).out == Run(raw, fs, n, false, e).nsOut
    decreases n
  {
    if n > 0 {
      NextFrameFits(n, fs, |raw|);
      RunWithoutGain(raw, fs, n - 1, e);
    }
  }

  /** The speech count never exceeds the frames processed. */
  lemma RunSpeechBound(raw: seq<Int32>, fs: nat, n: nat, agc: bool, e: Engines)
    requires n * fs <= |raw|
    ensures CountSpeech(Run(raw, fs, n, agc, e).verdicts) <= n
  {
    RunLengths(raw, fs, n, agc, e);
  }

  // ---------------- the output buffer ----------------

  /** Frames laid end to end, as they are placed in the output buffer. */
  function Flatten(frames: seq<Frame>): seq<Int16>
  {
    if frames == [] then []
    else Flatten(frames[..|frames| - 1]) + frames[|frames| - 1]
  }

  lemma FlattenAppend(frames: seq<Frame>, x: Frame)
    ensures Flatten(frames + [x]) == Flatten(frames) + x
  {
    assert (frames + [x])[..|frames|] == frames;
  }

  ghost predicate AllSized(frames: seq<Frame>, fs: nat)
  {
    forall g :: 0 <= g < |frames| ==> |frames[g]| == fs
  }

  lemma {:induction false} FlattenLength(frames: seq<Frame>, fs: nat)
    requires AllSized(frames, fs)
    ensures |Flatten(frames)| == |frames| * fs
    decreases |frames|
  {
    if frames != [] {
      var n := |frames|;
      FlattenLength(frames[..n - 1], fs);
      assert n * fs == (n - 1) * fs + fs;
    }
  }

  /** Frame `g` occupies exactly the slots `g*fs .. (g+1)*fs` of the flattened frames. */
  lemma {:induction false} FlattenFrameAt(frames: seq<Frame>, fs: nat, g: nat)
    requires AllSized(frames, fs) && g < |frames|
    ensures g * fs + fs <= |Flatten(frames)| && Flatten(frames)[g * fs .. g * fs + fs] == frames[g]
    decreases |frames|
  {
    var n := |frames|;
    var init := frames[..n - 1];
    var a := Flatten(init);
    FlattenLength(init, fs);
    assert Flatten(frames) == a + frames[n - 1];
    if g == n - 1 {
      assert g * fs == |a|;
    } else {
      FlattenFrameAt(init, fs, g);
      assert g * fs + fs <= |a|;
      assert (a + frames[n - 1])[g * fs .. g * fs + fs] == a[g * fs .. g * fs + fs];
    }
  }

  /** Frames of size `fs` occupy `|frames| * fs` slots, frame `g` exactly the
      slots `g*fs .. (g+1)*fs`. */
  lemma FlattenPlacement(frames: seq<Frame>, fs: nat)
    requires forall g :: 0 <= g < |frames| ==> |frames[g]| == fs
    ensures |Flatten(frames)| == |frames| * fs
    ensures forall g :: 0 <= g < |frames| ==>
              g * fs + fs <= |Flatten(frames)| && Flatten(frames)[g * fs .. g * fs + fs] == frames[g]
  {
    FlattenLength(frames, fs);
    forall g | 0 <= g < |frames|
      ensures g * fs + fs <= |Flatten(frames)| && Flatten(frames)[g * fs .. g * fs + fs] == frames[g]
    {
      FlattenFrameAt(frames, fs, g);
    }
  }
}
