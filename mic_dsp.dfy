/** The `MicDSP` session object: `Begin` brings the I2S bus and the NS, AGC
    and VAD engines up in a fixed, gated order, and `Read` runs one batch of
    1 to 10 frames through the pipeline into the caller's buffer. The bus
    capture and the three engines are external; their results are inputs. */
module Mic {
  import opened Wrappers
  import opened SampleFormat
  import opened Batch

  /** `esp_err_t` status codes. */
  type EspErr = int
  const ESP_OK: EspErr := 0
  const ESP_ERR_INVALID_ARG: EspErr := 0x102

  /** Blocking reads discarded after the bus opens, to let the DC offset settle. */
  const DiscardReads: nat := 20

  // ---------------- begin ----------------

  /** The external actions `begin` performs, in the order it performs them. */
  datatype InitStep = InitI2S | DiscardRead | InitNS | InitAGC | InitVAD

  /** Whether each initialisation step succeeds (`initI2S`, `initNS`,
      `initAGC`, `initVAD`). The discard reads have no outcome that matters. */
  datatype InitOutcome = InitOutcome(i2s: bool, ns: bool, agc: bool, vad: bool)

  function Repeat(step: InitStep, n: nat): (r: seq<InitStep>)
    ensures |r| == n
  {
    seq(n, _ => step)
  }

  /** The steps `begin` performs for given outcomes: each step only after the
      previous one succeeded, the discard reads right after the bus opens. */
  function BeginSteps(o: InitOutcome): seq<InitStep>
  {
    [InitI2S] +
    if !o.i2s then [] else
      Repeat(DiscardRead, DiscardReads) + [InitNS] +
      if !o.ns then [] else
        [InitAGC] +
        if !o.agc then [] else [InitVAD]
  }

  /** A step is reached when every initialisation step before it succeeded. */
  predicate Reached(o: InitOutcome, step: InitStep)
  {
    match step
    case InitI2S => true
    case DiscardRead => o.i2s
    case InitNS => o.i2s
    case InitAGC => o.i2s && o.ns
    case InitVAD => o.i2s && o.ns && o.agc
  }

  /** `begin` stops at the first failing step: a step is performed if and only
      if every step before it succeeded. */
  lemma BeginPerformsReachedSteps(o: InitOutcome, step: InitStep)
    ensures step in BeginSteps(o) <==> Reached(o, step)
  {
    var discards := Repeat(DiscardRead, DiscardReads);
    assert discards[0] == DiscardRead;
    assert InitNS !in discards && InitAGC !in discards && InitVAD !in discards && InitI2S !in discards;
  }

  lemma {:induction false} RepeatCount(step: InitStep, n: nat)
    ensures multiset(Repeat(step, n))[step] == n
    ensures forall other :: other != step ==> multiset(Repeat(step, n))[other] == 0
  {
    if n > 0 {
      RepeatCount(step, n - 1);
      assert Repeat(step, n) == Repeat(step, n - 1) + [step];
    }
  }

  /** Once the bus is up, exactly 20 discard reads are issued; none otherwise. */
  lemma BeginDiscardCount(o: InitOutcome)
    ensures multiset(BeginSteps(o))[DiscardRead] == if o.i2s then DiscardReads else 0
  {
    if o.i2s {
      var discards := Repeat(DiscardRead, DiscardReads);
      var tail := if !o.ns then [] else [InitAGC] + if !o.agc then [] else [InitVAD];
      var rest := [InitNS] + tail;
      assert multiset(BeginSteps(o)) == multiset([InitI2S]) + multiset(discards) + multiset(rest) by {
        assert BeginSteps(o) == [InitI2S] + discards + rest;
      }
      assert multiset(discards)[DiscardRead] == DiscardReads by {
        RepeatCount(DiscardRead, DiscardReads);
      }
      assert multiset(rest)[DiscardRead] == 0;
    }
  }

  /** The discard reads come right after the bus initialisation and right
      before the NS initialisation. */
  lemma BeginDiscardPlacement(o: InitOutcome)
    requires o.i2s
    ensures BeginSteps(o)[1..DiscardReads + 1] == Repeat(DiscardRead, DiscardReads)
    ensures BeginSteps(o)[DiscardReads + 1] == InitNS
  {
    var discards := Repeat(DiscardRead, DiscardReads);
    var tail := if !o.ns then [] else [InitAGC] + if !o.agc then [] else [InitVAD];
    var rest := [InitNS] + tail;
    var steps := BeginSteps(o);
    assert steps[1..] == discards + rest by {
      assert steps == [InitI2S] + (discards + rest);
    }
    assert steps[1..DiscardReads + 1] == (discards + rest)[..DiscardReads];
  }

  // ---------------- read ----------------

  /** What the blocking bus read (`i2s_read`) reports: its status, the bytes it
      delivered, and the whole 32-bit samples among them. */
  datatype Capture = Capture(status: EspErr, bytesRead: nat, data: seq<Int32>)

  /** The bus delivers at most the bytes asked for, and `data` holds the whole
      samples it delivered. */
  predicate CaptureFits(c: Capture, samples: nat)
  {
    c.bytesRead <= samples * BytesPerSample && |c.data| == SamplesInCapture(c.bytesRead)
  }

  /** Copies a frame into `buf` at `offset`, leaving the rest of `buf` alone:
      what NS and AGC do with the caller's buffer when handed `&output[offset]`. */
  method WriteFrame(buf: array<Int16>, offset: nat, frame: Frame)
    requires offset + |frame| <= buf.Length
    modifies buf
    ensures buf[..] == old(buf[..offset]) + frame + old(buf[offset + |frame|..])
  {
    for i := 0 to |frame|
      invariant buf[..offset] == old(buf[..offset])
      invariant buf[offset..offset + i] == frame[..i]
      invariant buf[offset + i..] == old(buf[offset + i..])
    {
      buf[offset + i] := frame[i];
    }
    assert buf[..] == buf[..offset] + buf[offset..offset + |frame|] + buf[offset + |frame|..];
  }

  lemma SliceWithinPrefix<T>(a: seq<T>, b: seq<T>, i: nat, j: nat)
    requires |b| <= |a| && a[..|b|] == b && i <= j <= |b|
    ensures a[i..j] == b[i..j]
  {
    forall k | 0 <= k < j - i
      ensures a[i..j][k] == b[i..j][k]
    {
      assert a[i + k] == a[..|b|][i + k];
    }
  }

  /** The output buffer after `f` frames of size `fs`: the frames produced
      so far, `vadFed`, laid end to end, followed by the rest of the buffer's
      original contents `initial`. */
  ghost predicate BufferHolds(buf: seq<Int16>, fs: nat, f: nat, initial: seq<Int16>, vadFed: seq<Frame>)
  {
    && AllSized(vadFed, fs) && |Flatten(vadFed)| == f * fs
    && |initial| == |buf| && |Flatten(vadFed)| <= |initial|
    && buf == Flatten(vadFed) + initial[|Flatten(vadFed)|..]
  }

  /** Writing one more frame of size `fs` right after the frames already in
      the buffer keeps `BufferHolds`. */
  lemma BufferStep(buf: seq<Int16>, buf': seq<Int16>, fs: nat, f: nat, initial: seq<Int16>,
                   vadFed: seq<Frame>, frameOut: Frame)
    requires BufferHolds(buf, fs, f, initial, vadFed)
    requires |frameOut| == fs && f * fs + fs <= |buf|
    requires buf' == buf[..f * fs] + frameOut + buf[f * fs + fs..]
    ensures BufferHolds(buf', fs, f + 1, initial, vadFed + [frameOut])
  {
    var written := Flatten(vadFed);
    assert buf' == (written + frameOut) + initial[|written + frameOut|..] by {
      SpliceFrame(initial, written, buf, frameOut, buf');
    }
    assert Flatten(vadFed + [frameOut]) == written + frameOut by {
      FlattenAppend(vadFed, frameOut);
    }
  }

  /** What the frame loop keeps true after `f` frames: the engines have been
      fed exactly the first `f` frames of `Run`, the speech count is that of
      its verdicts, and the output buffer `buf` holds their frames followed by
      the rest of its original contents `initial`. */
  ghost predicate LoopState(buf: seq<Int16>, fs: nat, f: nat, agcEnabled: bool, e: Engines,
                            data: seq<Int32>, initial: seq<Int16>,
                            nsFed: seq<Frame>, agcFed: seq<Frame>, vadFed: seq<Frame>,
                            verdicts: seq<bool>, speechFrames: nat)
  {
    && Tracks(data, fs, f, agcEnabled, e, nsFed, agcFed, vadFed, verdicts)
    && speechFrames == CountSpeech(verdicts) && |verdicts| == f && speechFrames <= f
    && BufferHolds(buf, fs, f, initial, vadFed)
  }

  /** One frame of the batch loop on values: frame `f` is narrowed and fed to
      NS, the suppressed frame to AGC, the frame that results is written over
      `buf[f*fs..f*fs+fs]` and classified, and the loop state moves from `f`
      frames to `f + 1`. */
  lemma LoopStateStep(buf: seq<Int16>, buf': seq<Int16>, fs: nat, f: nat, agcEnabled: bool, e: Engines,
                      data: seq<Int32>, initial: seq<Int16>,
                      nsFed: seq<Frame>, agcFed: seq<Frame>, vadFed: seq<Frame>,
                      verdicts: seq<bool>, speechFrames: nat, frameOut: Frame)
    requires 0 < fs && FrameSized(e, fs) && f * fs + fs <= |data| && f * fs + fs <= |buf|
    requires LoopState(buf, fs, f, agcEnabled, e, data, initial, nsFed, agcFed, vadFed, verdicts, speechFrames)
    requires var x := NarrowAll(data[f * fs..f * fs + fs]);
             var suppressed := e.suppress(nsFed + [x]);
             frameOut == if agcEnabled then e.gain(agcFed + [suppressed]) else suppressed
    requires buf' == buf[..f * fs] + frameOut + buf[f * fs + fs..]
    ensures var x := NarrowAll(data[f * fs..f * fs + fs]);
            var suppressed := e.suppress(nsFed + [x]);
            var speech := e.classify(vadFed + [frameOut]);
            LoopState(buf', fs, f + 1, agcEnabled, e, data, initial,
                      nsFed + [x], agcFed + [suppressed], vadFed + [frameOut], verdicts + [speech],
                      if speech then speechFrames + 1 else speechFrames)
  {
    var x := NarrowAll(data[f * fs..f * fs + fs]);
    var speech := e.classify(vadFed + [frameOut]);
    assert |frameOut| == fs;
    BufferStep(buf, buf', fs, f, initial, vadFed, frameOut);
    TracksStep(data, fs, f, agcEnabled, e, nsFed, agcFed, vadFed, verdicts, x, frameOut);
    assert (verdicts + [speech])[..|verdicts|] == verdicts;
  }

  /** A buffer holding the frames written so far followed by its original
      contents still holds that shape after the next frame is written behind them. */
  lemma SpliceFrame<T>(initial: seq<T>, written: seq<T>, before: seq<T>, x: seq<T>, after: seq<T>)
    requires |written| + |x| <= |initial| && before == written + initial[|written|..]
    requires after == before[..|written|] + x + before[|written| + |x|..]
    ensures after == (written + x) + initial[|written + x|..]
  {
    assert before[..|written|] == written;
    assert before[|written| + |x|..] == initial[|written|..][|x|..] == initial[|written| + |x|..];
  }

  class MicDSP {
    var port: int
    var sampleRate: nat

    /** Scratch buffer the bus read fills (`raw32_bus`), owned by the session. */
    const raw32Bus: array<Int32>
    /** Scratch frame of narrow samples handed to NS (`nsIn`), owned by the session. */
    const nsIn: array<Int16>

    ghost predicate Valid()
    {
      raw32Bus.Length == RawCapacity && nsIn.Length == MaxFrameSize
    }

    constructor ()
      ensures Valid() && fresh(raw32Bus) && fresh(nsIn)
    {
      port := 0;
      sampleRate := 0;
      raw32Bus := new Int32[RawCapacity];
      nsIn := new Int16[MaxFrameSize];
    }

    /** Stores the port and sample rate, then brings the bus and the engines
        up in order, stopping at the first failure. `steps` lists the external
        actions performed. */
    method Begin(port: int, sampleRate: nat, outcome: InitOutcome) returns (ok: bool, steps: seq<InitStep>)
      modifies this
      ensures this.port == port && this.sampleRate == sampleRate
      ensures ok <==> outcome.i2s && outcome.ns && outcome.agc && outcome.vad
      ensures steps == BeginSteps(outcome)
    {
      this.port := port;
      this.sampleRate := sampleRate;

      steps := [InitI2S];
      if !outcome.i2s {
        return false, steps;
      }

      for i := 0 to DiscardReads
        invariant steps == [InitI2S] + Repeat(DiscardRead, i)
      {
        steps := steps + [DiscardRead];
      }

      steps := steps + [InitNS];
      if !outcome.ns {
        return false, steps;
      }
      steps := steps + [InitAGC];
      if !outcome.agc {
        return false, steps;
      }
      steps := steps + [InitVAD];
      if !outcome.vad {
        return false, steps;
      }
      return true, steps;
    }

    /** The bus read writes the samples it delivers to the front of `raw32Bus`. */
    method StoreCapture(data: seq<Int32>)
      requires Valid() && |data| <= RawCapacity
      modifies raw32Bus
      ensures raw32Bus[..|data|] == data
    {
      for i := 0 to |data|
        invariant raw32Bus[..i] == data[..i]
      {
        raw32Bus[i] := data[i];
      }
    }

    /** 32 to 16 bit conversion of one frame from `raw32Bus[offset..]` into `nsIn`. */
    method ConvertFrame(offset: nat, fs: nat)
      requires Valid() && fs <= MaxFrameSize && offset + fs <= RawCapacity
      modifies nsIn
      ensures nsIn[..fs] == NarrowAll(raw32Bus[offset..offset + fs])
    {
      for i := 0 to fs
        invariant forall j :: 0 <= j < i ==> nsIn[j] == Narrow(raw32Bus[offset + j])
      {
        nsIn[i] := Narrow(raw32Bus[offset + i]);
      }
    }

    /** One frame of the batch loop: convert `raw32Bus[offset..offset+fs]` into
        `nsIn`, let NS write the suppressed frame to `output[offset..]`, and,
        when enabled, let AGC rework that frame in place. `nsFed` is the
        frames NS has been fed so far and `agcFed` the NS outputs so far
        (AGC's inputs when enabled; recorded either way); the frame now in the
        buffer, the VAD input, is returned. */
    method ProcessFrame(output: array<Int16>, offset: nat, fs: nat, agcEnabled: bool, e: Engines,
                        nsFed: seq<Frame>, agcFed: seq<Frame>)
      returns (nsFed': seq<Frame>, agcFed': seq<Frame>, frameOut: Frame, ghost gainCalls: nat)
      requires Valid() && output != nsIn && FrameSized(e, fs)
      requires fs <= MaxFrameSize && offset + fs <= RawCapacity && offset + fs <= output.Length
      modifies nsIn, output
      ensures nsFed' == nsFed + [NarrowAll(raw32Bus[offset..offset + fs])]
      ensures agcFed' == agcFed + [e.suppress(nsFed')]
      ensures frameOut == if agcEnabled then e.gain(agcFed') else e.suppress(nsFed')
      ensures gainCalls == if agcEnabled then 1 else 0
      ensures |frameOut| == fs
      ensures output[..] == old(output[..offset]) + frameOut + old(output[offset + fs..])
    {
      ConvertFrame(offset, fs);
      nsFed' := nsFed + [nsIn[..fs]];

      // NS writes the suppressed frame straight into the caller's buffer
      ghost var prefix, suffix := output[..offset], output[offset + fs..];
      WriteFrame(output, offset, e.suppress(nsFed'));
      assert output[..offset] == prefix && output[offset + fs..] == suffix;
      agcFed' := agcFed + [output[offset..offset + fs]];
      gainCalls := 0;

      // AGC, when enabled, works in place on that frame
      if agcEnabled {
        WriteFrame(output, offset, e.gain(agcFed'));
        gainCalls := 1;
      }
      frameOut := output[offset..offset + fs];
    }

    /** One iteration of the frame loop: frame `f` is converted, suppressed,
        gain-controlled when enabled and classified, and the loop state moves
        from `f` frames to `f + 1`. */
    method FrameStep(output: array<Int16>, fs: nat, n: nat, f: nat, agcEnabled: bool, e: Engines,
                     ghost data: seq<Int32>, ghost initial: seq<Int16>,
                     nsFed: seq<Frame>, agcFed: seq<Frame>, vadFed: seq<Frame>,
                     ghost verdicts: seq<bool>, speechFrames: nat)
      returns (nsFed': seq<Frame>, agcFed': seq<Frame>, vadFed': seq<Frame>,
               ghost verdicts': seq<bool>, speechFrames': nat, ghost gainCalls: nat)
      requires Valid() && output != nsIn && 0 < fs <= MaxFrameSize && FrameSized(e, fs)
      requires |data| <= RawCapacity && raw32Bus[..|data|] == data
      requires f < n && n * fs <= |data| && n * fs <= output.Length && |initial| == output.Length
      requires LoopState(output[..], fs, f, agcEnabled, e, data, initial, nsFed, agcFed, vadFed, verdicts, speechFrames)
      modifies nsIn, output
      ensures LoopState(output[..], fs, f + 1, agcEnabled, e, data, initial, nsFed', agcFed', vadFed', verdicts', speechFrames')
      ensures gainCalls == if agcEnabled then 1 else 0
    {
      var offset := f * fs;
      assert offset + fs == (f + 1) * fs <= n * fs by {
        MulMono(f + 1, n, fs);
      }
      assert raw32Bus[offset..offset + fs] == data[offset..offset + fs] by {
        SliceWithinPrefix(raw32Bus[..], data, offset, offset + fs);
      }
      ghost var before := output[..];
      var frameOut;
      nsFed', agcFed', frameOut, gainCalls := ProcessFrame(output, offset, fs, agcEnabled, e, nsFed, agcFed);
      vadFed' := vadFed + [frameOut];
      var speech := e.classify(vadFed');
      verdicts' := verdicts + [speech];
      speechFrames' := if speech then speechFrames + 1 else speechFrames;
      LoopStateStep(before, output[..], fs, f, agcEnabled, e, data, initial,
                    nsFed, agcFed, vadFed, verdicts, speechFrames, frameOut);
    }

    /** The frame loop of a batch: frames `0..n` of the captured samples, in
        order, each converted, suppressed, gain-controlled when enabled and
        classified. Returns the number of speech frames; AGC is called once per
        frame when enabled and never otherwise. */
    method ProcessFrames(output: array<Int16>, fs: nat, n: nat, agcEnabled: bool, e: Engines, ghost data: seq<Int32>)
      returns (speechFrames: nat, ghost agcCalls: nat)
      requires Valid() && output != nsIn && 0 < fs <= MaxFrameSize && FrameSized(e, fs)
      requires |data| <= RawCapacity && raw32Bus[..|data|] == data
      requires n * fs <= |data| && n * fs <= output.Length
      modifies nsIn, output
      ensures var st := Run(data, fs, n, agcEnabled, e);
              && speechFrames == CountSpeech(st.verdicts)
              && output[..] == Flatten(st.out) + old(output[..])[n * fs..]
      ensures speechFrames <= n
      ensures agcCalls == if agcEnabled then n else 0
    {
      ghost var initial := output[..];
      speechFrames, agcCalls := 0, 0;
      // NS inputs, NS outputs (AGC's inputs when enabled) and VAD inputs so far, oldest first
      var nsFed: seq<Frame> := [];
      var agcFed: seq<Frame> := [];
      var vadFed: seq<Frame> := [];
      ghost var verdicts: seq<bool> := [];

      for f := 0 to n
        invariant raw32Bus[..|data|] == data
        invariant LoopState(output[..], fs, f, agcEnabled, e, data, initial, nsFed, agcFed, vadFed, verdicts, speechFrames)
        invariant agcCalls == if agcEnabled then f else 0
      {
        ghost var gainCalls;
        nsFed, agcFed, vadFed, verdicts, speechFrames, gainCalls :=
          FrameStep(output, fs, n, f, agcEnabled, e, data, initial, nsFed, agcFed, vadFed, verdicts, speechFrames);
        agcCalls := agcCalls + gainCalls;
      }
    }

    /** One batch read. `fs` is the frame size, `wantSamplesRead` and `wantVad`
        say whether the optional out-pointers are non-null, `capture` is what
        the bus read returns and `e` the three engines. `busReads` and
        `agcCalls` count the calls made to the bus read and to AGC. */
    method Read(output: array<Int16>, samples: nat, wantSamplesRead: bool, wantVad: bool,
                agcEnabled: bool, fs: nat, capture: Capture, e: Engines)
      returns (status: EspErr, samplesRead: Option<nat>, vad: Option<bool>,
               ghost busReads: nat, ghost agcCalls: nat)
      requires Valid() && 0 < fs <= MaxFrameSize && FrameSized(e, fs)
      requires output != nsIn
      requires !RejectsRequest(samples, fs) ==> samples <= output.Length && CaptureFits(capture, samples)
      modifies raw32Bus, nsIn, output
      ensures RejectsRequest(samples, fs) ==>
                && status == ESP_ERR_INVALID_ARG && samplesRead == None && vad == None
                && busReads == 0 && agcCalls == 0
                && unchanged(raw32Bus) && unchanged(nsIn) && unchanged(output)
      ensures !RejectsRequest(samples, fs) && capture.status != ESP_OK ==>
                && status == capture.status && samplesRead == None && vad == None
                && busReads == 1 && agcCalls == 0 && unchanged(output)
      ensures !RejectsRequest(samples, fs) && capture.status == ESP_OK ==>
                var n := ProcessedFrames(capture.bytesRead, fs);
                && n * fs <= |capture.data|
                && var st := Run(capture.data, fs, n, agcEnabled, e);
                && status == ESP_OK && busReads == 1
                && agcCalls == (if agcEnabled then n else 0)
                && samplesRead == (if wantSamplesRead then Some(SamplesInCapture(capture.bytesRead)) else None)
                && vad == (if wantVad then Some(MajorityVote(CountSpeech(st.verdicts), n)) else None)
                && output[..] == Flatten(st.out) + old(output[..])[n * fs..]
    {
      busReads, agcCalls := 0, 0;
      if RejectsRequest(samples, fs) {
        return ESP_ERR_INVALID_ARG, None, None, busReads, agcCalls;
      }

      ProcessedFramesBounds(samples, fs, capture.bytesRead);
      StoreCapture(capture.data);
      busReads := 1;
      if capture.status != ESP_OK {
        return capture.status, None, None, busReads, agcCalls;
      }

      var actualSamplesRead := SamplesInCapture(capture.bytesRead);
      var processedFrames := actualSamplesRead / fs;
      assert processedFrames == ProcessedFrames(capture.bytesRead, fs);
      var speechFrames;
      speechFrames, agcCalls := ProcessFrames(output, fs, processedFrames, agcEnabled, e, capture.data);

      if wantVad {
        vad := Some(MajorityVote(speechFrames, processedFrames));
      } else {
        vad := None;
      }
      if wantSamplesRead {
        samplesRead := Some(actualSamplesRead);
      } else {
        samplesRead := None;
      }
      status := ESP_OK;
    }
  }
}
