/** The smallest input the encoder accepts and the decoder does not give back: one
    sample at i32::MIN. Nothing checks samples against the declared width, and the
    residual of a first sample is the sample itself. */
module LostSample {
  import opened Words
  import opened Results
  import opened Rice
  import opened Pipeline
  import opened Format
  import opened Frame
  import opened FrameTheorems
  import opened Encoder
  import opened Decoder
  import opened EndToEnd
  import Lms
  import CodeLengths

  lemma {:induction false} NoPrediction(bytesPerSample: nat)
    requires 2 <= bytesPerSample <= 3
    ensures Lms.Predict(Lms.FrameInit(bytesPerSample, Lms.NO_TAPS)) == 0
  {
    var m := Lms.FrameInit(bytesPerSample, Lms.NO_TAPS);
    Pow2Values();
    assert Lms.Adapted(m) == Lms.NO_TAPS;
    SilentDot(Lms.Round(m.shift), 8);
    assert Lms.Round(m.shift) == if m.shift == 9 then 0x100 else 0x200;
  }

  lemma SilentTap(i: nat, round: i32)
    requires i < 8
    ensures AddI32(round, MulI32(Lms.NO_TAPS[i], Lms.NO_TAPS[i])) == round
  {
    hide WrapI32;
    WrapI32Same(0);
    WrapI32Same(round);
  }

  lemma {:induction false} SilentDot(round: i32, n: nat)
    requires n <= 8
    ensures Lms.Dot(Lms.NO_TAPS, Lms.NO_TAPS, round, n) == round
  {
    if n > 0 {
      hide MulI32, AddI32;
      SilentDot(round, n - 1);
      SilentTap(n - 1, round);
    }
  }

  /** An unprimed channel starts by emitting its first sample unchanged. */
  lemma FirstResidual(x: i32, bytesPerSample: nat)
    requires 2 <= bytesPerSample <= 3
    ensures FrameResiduals([x], 1, bytesPerSample, None) == [x]
  {
    hide Lms.Predict, Lms.Advance;
    var q := FrameQueue(1, bytesPerSample, None);
    TurnLayers(q, q[0]);
    NoPrediction(bytesPerSample);
    WrapI32Same(x);
    var p := Predictors(q)[0];
    assert p == Predictor(Lms.FrameInit(bytesPerSample, Lms.NO_TAPS), 0);
    assert Remove(p, x).0 == x;
    OneSlot(x);
    assert [x][1..] == [];
  }

  lemma OneSlot(x: i32)
    ensures ForwardAll([x], 1) == [x]
  {
    assert [x][..1] == [x] && [x][1..] == [];
  }

  /** The frame that should hold i32::MIN decodes, without an error, to a zero. */
  lemma MinimumReadsAsZero(bytesPerSample: nat)
    requires 2 <= bytesPerSample <= 3
    ensures FrameSamples(CanonicalAll(FrameResiduals([I32_MIN], 1, bytesPerSample, None)), 1, bytesPerSample, None) == [0]
  {
    hide FrameSamples, FrameResiduals;
    FirstResidual(I32_MIN, bytesPerSample);
    FirstResidual(0, bytesPerSample);
    SamplesResidualsBijection([0], 1, bytesPerSample, None);
    assert CanonicalAll([I32_MIN]) == [0];
  }

  lemma Accepted(bits: u16, rate: u32)
    requires 16 <= bits <= 24 && 1 <= rate <= MAX_SAMPLE_RATE
    ensures Checked([I32_MIN], 1, bits, rate, 1) == Ok(StreamHeader(1, 1, bits, rate, 1))
  {
  }

  /** The whole buffer is one block. */
  lemma OneBlock(h: StreamHeader)
    requires h.InScope() && h.channels == 1
    ensures Chunks([I32_MIN], BlockSize(h)) == [[I32_MIN]]
  {
  }

  /** Its codeword is a few bits long, so the file needs no assumption on lengths. */
  lemma TinyFits(h: StreamHeader)
    requires h.InScope() && h.channels == 1
    ensures Fits(h, FrameBlobs([I32_MIN], h, None))
  {
    hide EncodeRun, WriteResiduals, Residuals, ForwardAll, Trackings, Predictors, FrameQueue, InitialTrackings;
    var bps := h.BytesPerSample();
    var q := FrameQueue(1, bps, None);
    TurnLayers(q, q[0]);
    EncodeLayers(q, ForwardAll([I32_MIN], 1));
    InitialTrackers(1, bps, None);
    FirstResidual(I32_MIN, bps);
    ZigzagExtremes();
    CodeLengths.ResidualsLength(InitialTrackings(1), [I32_MIN], 32);
    OneBlock(h);
    hide FrameBits;
    var blobs := FrameBlobs([I32_MIN], h, None);
    assert blobs == [FrameBlob([I32_MIN], 1, bps, None)];
    assert |blobs[0]| <= 8;
    ConcatOne(blobs[0]);
  }

  /** `encode(&[i32::MIN], 1, bits, rate)` succeeds, and decoding its bytes succeeds with
      the sample 0. */
  lemma MinimumIsLost(bits: u16, rate: u32)
    requires 16 <= bits <= 24 && 1 <= rate <= MAX_SAMPLE_RATE
    ensures match Encoded([I32_MIN], 1, bits, rate, 1, None)
            case Err(_) => false
            case Ok(file) => Decoded(file) == Ok((StreamHeader(1, 1, bits, rate, 1), [0]))
  {
    var samples, h := [I32_MIN], StreamHeader(1, 1, bits, rate, 1);
    Accepted(bits, rate);
    OneBlock(h);
    TinyFits(h);
    MinimumReadsAsZero(h.BytesPerSample());
    hide FrameBlobs, FileBytes, Opened, Chunks, BlockSize, Decoder.FrameAt, StreamHeader.BytesPerSample;
    hide FrameSamples, FrameResiduals, CanonicalAll;
    KeptAll(samples, h);
    EncodedServes(samples, h, None);
    var dec := Opened(FileBytes(h, FrameBlobs(samples, h, None)), None).value;
    ServedFrame(dec, h, samples, None, 0);
    OnlyFrame(dec);
  }
}
