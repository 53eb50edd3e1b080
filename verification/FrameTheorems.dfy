/** What encoding and decoding one frame guarantee. */
module FrameTheorems {
  import opened Words
  import opened Bits
  import opened Results
  import opened BitReader
  import opened Rice
  import opened Pipeline
  import opened Format
  import opened Frame
  import Crc32

  // ----- the size gate

  /** Every codeword takes at least one bit. */
  lemma ReadTakesABit(t: Trackers, s: Bits)
    ensures match ReadResidual(t, s) case None => true case Some((_, _, rest)) => |rest| < |s|
  {
    hide AfterLow, AfterHigh, Dezigzag;
    TakeUnaryLength(s);
  }

  lemma {:induction false} ReadsFit(q: seq<Trackers>, s: Bits, n: nat)
    requires q != []
    ensures match ReadResiduals(q, s, n) case None => true case Some((_, _, rest)) => n + |rest| <= |s|
    decreases n
  {
    hide ReadResidual;
    if n > 0 && ReadResidual(q[0], s).Some? {
      var (e, t, rest) := ReadResidual(q[0], s).value;
      ReadTakesABit(q[0], s);
      ReadsFit(Turn(q, t), rest, n - 1);
    }
  }

  /** The up-front size gate rejects only frames whose body runs out of bits anyway:
      whatever the per-sample loop can decode satisfies the gate. */
  lemma GateRejectsNothingDecodable(body: seq<u8>, nch: nat, bytesPerSample: nat, prime: Priming, n: nat)
    requires nch > 0 && 1 <= bytesPerSample <= 3 && n % nch == 0
    ensures BodySamples(body, nch, bytesPerSample, prime, n).Some? ==> n <= 8 * |body|
  {
    hide DecodeRun, ReadResiduals, Rebuild, InverseAll, BytesBits, FrameQueue, Trackings, Predictors;
    var q := FrameQueue(nch, bytesPerSample, prime);
    DecodeLayers(q, BytesBits(body), n);
    ReadsFit(Trackings(q), BytesBits(body), n);
  }

  // ----- round trip

  /** The residuals an encoder produces for a frame. */
  function FrameResiduals(pcm: seq<i32>, nch: nat, bytesPerSample: nat, prime: Priming): (es: seq<i32>)
    requires WholeSlots(pcm, nch) && 1 <= bytesPerSample <= 3
    ensures |es| == |pcm|
  {
    var q := FrameQueue(nch, bytesPerSample, prime);
    TurnLayers(q, q[0]);
    Residuals(Predictors(q), ForwardAll(pcm, nch))
  }

  /** The samples a decoder rebuilds from residuals. */
  function FrameSamples(es: seq<i32>, nch: nat, bytesPerSample: nat, prime: Priming): (pcm: seq<i32>)
    requires WholeSlots(es, nch) && 1 <= bytesPerSample <= 3
    ensures |pcm| == |es|
  {
    var q := FrameQueue(nch, bytesPerSample, prime);
    TurnLayers(q, q[0]);
    InverseAll(Rebuild(Predictors(q), es), nch)
  }

  /** Samples and residuals of a frame determine each other, under any priming. */
  lemma SamplesResidualsBijection(xs: seq<i32>, nch: nat, bytesPerSample: nat, prime: Priming)
    requires WholeSlots(xs, nch) && 1 <= bytesPerSample <= 3
    ensures FrameSamples(FrameResiduals(xs, nch, bytesPerSample, prime), nch, bytesPerSample, prime) == xs
    ensures FrameResiduals(FrameSamples(xs, nch, bytesPerSample, prime), nch, bytesPerSample, prime) == xs
  {
    hide FrameQueue, Residuals, Rebuild, ForwardAll, InverseAll, Predictors;
    var q := FrameQueue(nch, bytesPerSample, prime);
    TurnLayers(q, q[0]);
    DecorrelationRoundTrip(xs, nch);
    PredictionRoundTrip(Predictors(q), ForwardAll(xs, nch));
    PredictionRoundTrip(Predictors(q), xs);
    DecorrelationRoundTrip(Rebuild(Predictors(q), xs), nch);
  }

  /** Decoding is reading the residuals, then rebuilding the samples. */
  lemma {:induction false} BodyLayers(body: seq<u8>, nch: nat, bytesPerSample: nat, prime: Priming, n: nat)
    requires nch > 0 && 1 <= bytesPerSample <= 3 && n % nch == 0
    ensures BodySamples(body, nch, bytesPerSample, prime, n) ==
            match ReadResiduals(InitialTrackings(nch), BytesBits(body), n)
            case None => None
            case Some((es, _, _)) => Some(FrameSamples(es, nch, bytesPerSample, prime))
  {
    hide DecodeRun, ReadResiduals, Rebuild, InverseAll, BytesBits, Predictors;
    var q := FrameQueue(nch, bytesPerSample, prime);
    TurnLayers(q, q[0]);
    InitialTrackers(nch, bytesPerSample, prime);
    DecodeLayers(q, BytesBits(body), n);
  }

  function InitialTrackings(nch: nat): (q: seq<Trackers>)
    ensures |q| == nch
  {
    seq(nch, _ => FRAME_INIT)
  }

  lemma InitialTrackers(nch: nat, bytesPerSample: nat, prime: Priming)
    requires nch > 0 && 1 <= bytesPerSample <= 3
    ensures Trackings(FrameQueue(nch, bytesPerSample, prime)) == InitialTrackings(nch)
    ensures AllValid(InitialTrackings(nch))
  {
  }

  /** The body the encoder packs decodes to the samples rebuilt from its residuals,
      i32::MIN among them read as zero. */
  lemma BodyRoundTrip(pcm: seq<i32>, nch: nat, bytesPerSample: nat, prime: Priming)
    requires WholeSlots(pcm, nch) && 1 <= bytesPerSample <= 3
    ensures var es := FrameResiduals(pcm, nch, bytesPerSample, prime);
            BodySamples(Pack(FrameBits(pcm, nch, bytesPerSample, prime)), nch, bytesPerSample, prime, |pcm|)
              == Some(FrameSamples(CanonicalAll(es), nch, bytesPerSample, prime))
  {
    hide EncodeRun, DecodeRun, ReadResiduals, WriteResiduals, Residuals, ForwardAll, BytesBits, Pack, Predictors, Trackings;
    hide CanonicalAll, FrameSamples, BodySamples, FrameQueue, InitialTrackings;
    var q := FrameQueue(nch, bytesPerSample, prime);
    var es := FrameResiduals(pcm, nch, bytesPerSample, prime);
    var bits := FrameBits(pcm, nch, bytesPerSample, prime);
    TurnLayers(q, q[0]);
    EncodeLayers(q, ForwardAll(pcm, nch));
    InitialTrackers(nch, bytesPerSample, prime);
    PackRoundTrip(bits);
    ResidualsRoundTrip(InitialTrackings(nch), es, Zeros(Padding(|bits|)));
    BodyLayers(Pack(bits), nch, bytesPerSample, prime, |pcm|);
  }

  /** A frame decodes to exactly the samples it was encoded from if and only if none
      of its residuals is i32::MIN; it always decodes, to the samples rebuilt with each
      such residual read as zero. */
  lemma FrameRoundTrip(h: StreamHeader, d: FrameDescriptor, pcm: seq<i32>, prime: Priming)
    requires h.InScope() && |pcm| == d.sampleCount * h.channels
    requires WholeSlots(pcm, h.channels)
    requires |FrameBlob(pcm, h.channels, h.BytesPerSample(), prime)| == d.diskSize
    ensures var r := FrameResult(h, d, FrameBlob(pcm, h.channels, h.BytesPerSample(), prime), prime);
            && r == Ok(FrameSamples(CanonicalAll(FrameResiduals(pcm, h.channels, h.BytesPerSample(), prime)),
                                    h.channels, h.BytesPerSample(), prime))
            && (r.value == pcm <==> I32_MIN !in FrameResiduals(pcm, h.channels, h.BytesPerSample(), prime))
  {
    hide FrameBits, FrameResiduals, FrameSamples, BodySamples, CanonicalAll, Pack;
    hide Crc32.Checksum, Crc32.LeWord, Crc32.WordBytes;
    var nch: nat, bps := h.channels, h.BytesPerSample();
    var es := FrameResiduals(pcm, nch, bps, prime);
    var body := Pack(FrameBits(pcm, nch, bps, prime));
    var blob := FrameBlob(pcm, nch, bps, prime);
    assert blob[..d.diskSize - 4] == body;
    assert blob[d.diskSize - 4..d.diskSize] == Crc32.WordBytes(Crc32.Checksum(body));
    Crc32.WordBytesLe(Crc32.Checksum(body));
    BodyRoundTrip(pcm, nch, bps, prime);
    GateRejectsNothingDecodable(body, nch, bps, prime, |pcm|);
    CanonicalAllSame(es);
    SamplesResidualsBijection(pcm, nch, bps, prime);
    SamplesResidualsBijection(CanonicalAll(es), nch, bps, prime);
  }

  // ----- priming

  lemma BodyNonInterference(body: seq<u8>, nch: nat, bytesPerSample: nat, p1: Priming, p2: Priming, n: nat)
    requires nch > 0 && 1 <= bytesPerSample <= 3 && n % nch == 0
    ensures var r1, r2 := BodySamples(body, nch, bytesPerSample, p1, n), BodySamples(body, nch, bytesPerSample, p2, n);
            match r1
            case None => r2 == None
            case Some(pcm1) =>
              && r2.Some? && |r2.value| == |pcm1| == n
              && FrameResiduals(pcm1, nch, bytesPerSample, p1) == FrameResiduals(r2.value, nch, bytesPerSample, p2)
  {
    hide FrameResiduals, FrameSamples, BodySamples, ReadResiduals, BytesBits;
    BodyLayers(body, nch, bytesPerSample, p1, n);
    BodyLayers(body, nch, bytesPerSample, p2, n);
    var read := ReadResiduals(InitialTrackings(nch), BytesBits(body), n);
    if read.Some? {
      SamplesResidualsBijection(read.value.0, nch, bytesPerSample, p1);
      SamplesResidualsBijection(read.value.0, nch, bytesPerSample, p2);
    }
  }

  lemma CheckedNonInterference(body: seq<u8>, stored: seq<u8>, nch: nat, bytesPerSample: nat,
                               p1: Priming, p2: Priming, n: nat)
    requires nch > 0 && 1 <= bytesPerSample <= 3 && n % nch == 0
    ensures var r1, r2 := CheckedSamples(body, stored, nch, bytesPerSample, p1, n),
                          CheckedSamples(body, stored, nch, bytesPerSample, p2, n);
            match r1
            case Err(e) => r2 == Err(e)
            case Ok(pcm1) =>
              && r2.Ok? && |r2.value| == |pcm1| == n
              && FrameResiduals(pcm1, nch, bytesPerSample, p1) == FrameResiduals(r2.value, nch, bytesPerSample, p2)
  {
    hide FrameResiduals, BodySamples, Crc32.Checksum, Crc32.LeWord;
    BodyNonInterference(body, nch, bytesPerSample, p1, p2, n);
  }

  /** Priming changes sample values only: with any two primings a frame yields the
      same error, or sample lists of one length rebuilt from one residual list. */
  lemma PrimingNonInterference(h: StreamHeader, d: FrameDescriptor, bytes: seq<u8>, p1: Priming, p2: Priming)
    requires h.InScope()
    ensures var r1, r2 := FrameResult(h, d, bytes, p1), FrameResult(h, d, bytes, p2);
            match r1
            case Err(e) => r2 == Err(e)
            case Ok(pcm1) =>
              && r2.Ok? && |r2.value| == |pcm1|
              && WholeSlots(pcm1, h.channels)
              && FrameResiduals(pcm1, h.channels, h.BytesPerSample(), p1)
                 == FrameResiduals(r2.value, h.channels, h.BytesPerSample(), p2)
  {
    if 4 <= d.diskSize <= |bytes| {
      hide FrameResiduals, CheckedSamples;
      SlotCount(d.sampleCount, h.channels);
      CheckedNonInterference(bytes[..d.diskSize - 4], bytes[d.diskSize - 4..d.diskSize],
                             h.channels, h.BytesPerSample(), p1, p2, d.sampleCount * h.channels);
    }
  }

  // ----- burst detection

  /** A good frame changed only inside four consecutive bytes of its body and stored
      checksum never decodes. */
  lemma FrameBurstRejected(h: StreamHeader, d: FrameDescriptor, bytes: seq<u8>, bytes': seq<u8>,
                           p: Priming, p': Priming, at: nat)
    requires h.InScope() && |bytes'| >= d.diskSize
    requires FrameResult(h, d, bytes, p).Ok?
    requires Crc32.DifferInWindow(bytes[..d.diskSize], bytes'[..d.diskSize], at)
    ensures FrameResult(h, d, bytes', p').Err?
  {
    hide BodySamples, Crc32.Checksum, Crc32.LeWord;
    var n := d.diskSize as int;
    assert bytes[..n] == bytes[..n - 4] + bytes[n - 4..n];
    assert bytes'[..n] == bytes'[..n - 4] + bytes'[n - 4..n];
    Crc32.BurstDetected(bytes[..n - 4], bytes[n - 4..n], bytes'[..n - 4], bytes'[n - 4..n], at);
  }
}
