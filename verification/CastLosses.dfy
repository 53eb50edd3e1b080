/** Inputs at which each of the encoder's two casts to 32 bits loses the stream. */
module CastLosses {
  import opened Words
  import opened Bits
  import opened Results
  import opened Rice
  import opened Pipeline
  import opened Format
  import opened Frame
  import opened FrameTheorems
  import opened Bounds
  import opened Encoder
  import opened Decoder
  import opened EndToEnd
  import opened CutFrames
  import CodeLengths
  import Crc32

  // ----- the count

  /** 2^32 samples of silence. */
  function Silence(): (s: seq<i32>)
    ensures |s| == TWO32
  {
    seq(TWO32, _ => 0)
  }

  lemma NothingKept(h: StreamHeader)
    requires h.InScope() && h.channels == 1 && h.totalSamples == 0
    ensures Kept(Silence(), h) == [] && FrameBlobs([], h, None) == []
    ensures |FileBytes(h, [])| < TWO64
  {
    hide StreamHeader.FrameGeometry, StreamHeader.RegularFrameSamples;
  }

  lemma CountWraps(bits: u16, rate: u32)
    requires 16 <= bits <= 24 && 1 <= rate <= MAX_SAMPLE_RATE
    ensures Checked(Silence(), 1, bits, rate, 1) == Ok(StreamHeader(1, 1, bits, rate, 0))
  {
    hide Silence;
  }

  /** `encode` of 2^32 mono samples succeeds, and decoding its bytes succeeds with no
      sample at all. */
  lemma CountIsLost(bits: u16, rate: u32)
    requires 16 <= bits <= 24 && 1 <= rate <= MAX_SAMPLE_RATE
    ensures Admissible(Silence(), 1, bits, rate, 1, None) && !CastsExact(Silence(), 1, bits, rate, 1, None)
    ensures match Encoded(Silence(), 1, bits, rate, 1, None)
            case Err(_) => false
            case Ok(file) => Decoded(file) == Ok((StreamHeader(1, 1, bits, rate, 0), []))
  {
    var h := StreamHeader(1, 1, bits, rate, 0);
    CountWraps(bits, rate);
    NothingKept(h);
    hide Silence, Checked, FrameBlobs, FileBytes, Kept, BlocksClean, Opened, Decoder.All;
    Outcome(Silence(), 1, bits, rate, 1, None);
  }

  // ----- the length of a blob: what one channel does

  /** The residual with the largest magnitude that reads back. */
  const LARGEST: i32 := -0x7FFF_FFFF

  function Run(t: Trackers, e: i32, n: nat): Trackers
    decreases n
  {
    if n == 0 then t else Run(AfterCodeword(t, e), e, n - 1)
  }

  /** A tracker that magnitudes of 0 or 1 will bring down without ever moving it up. */
  ghost predicate Calming(k: nat, sum: u32) {
    k <= 10 && sum <= 0x4000 && sum <= Pow2(k + 5)
  }

  /** How many such magnitudes it takes at most, the sum coming to rest at `floor`. */
  ghost function Rest(k: nat, sum: u32, floor: nat): nat {
    k + if sum > floor then sum - floor else 0
  }

  ghost predicate Settling(t: Trackers) {
    Calming(t.k0, t.sum0) && Calming(t.k1, t.sum1)
  }

  ghost function Unrest(t: Trackers): nat {
    Rest(t.k0, t.sum0, 31) + Rest(t.k1, t.sum1, 15)
  }

  /** The sum under a magnitude of 0 or 1. */
  lemma CalmingSum(sum: u32, value: u32, floor: nat)
    requires sum <= 0x4000 && ((value == 0 && floor == 15) || (value == 1 && floor == 31))
    ensures if sum > floor then Feedback(sum, value) < sum else Feedback(sum, value) <= floor
    ensures Feedback(sum, value) <= sum || Feedback(sum, value) <= 31
  {
    FeedbackBound(sum, value, 0x800);
  }

  /** One tracker under a magnitude of 0 or 1. */
  lemma CalmingStep(k: nat, sum: u32, value: u32, floor: nat)
    requires Calming(k, sum) && ((value == 0 && floor == 15) || (value == 1 && floor == 31))
    ensures var sum' := Feedback(sum, value);
            var k' := AdaptK(k, sum');
            && Calming(k', sum') && Rest(k', sum', floor) <= Rest(k, sum, floor)
            && (Rest(k, sum, floor) > 0 ==> Rest(k', sum', floor) < Rest(k, sum, floor))
    ensures k > 0 ==> Rest(k, sum, floor) > 0
  {
    hide Feedback, AdaptK, Pow2;
    var sum' := Feedback(sum, value);
    CalmingSum(sum, value, floor);
    Pow2Mono(5, k + 5);
    ThirtyTwo();
    CalmingParameter(k, sum');
  }

  lemma ThirtyTwo()
    ensures Pow2(5) == 32 && Pow2(15) == 0x8000
  {
    Pow2Values();
  }

  /** A sum within the tracker's band never moves `k` up, and moves it down once it is
      small. */
  lemma CalmingParameter(k: nat, sum: u32)
    requires Calming(k, sum)
    ensures AdaptK(k, sum) <= k && sum <= Pow2(AdaptK(k, sum) + 5)
    ensures k > 0 && sum < 32 ==> AdaptK(k, sum) == k - 1
  {
    ThirtyTwo();
    AdaptIdeal(k, sum, 11);
    hide Pow2, AdaptK;
    if k > 0 {
      assert k - 1 + 5 == k + 4;
      Pow2Mono(5, k + 4);
    }
  }

  /** Residual 1 is a low codeword until `k0` is down, and a high one then. */
  lemma AfterOne(t: Trackers)
    ensures AfterCodeword(t, 1) == if t.k0 > 0 then AfterLow(t, 1) else AfterHigh(t, 0)
    ensures t.k0 == 0 ==>
              var sum := Feedback(t.sum1, 0);
              AfterHigh(t, 0) == AfterLow(t.(sum1 := sum, k1 := AdaptK(t.k1, sum)), 1)
  {
    ZigzagInside(1);
    hide Zigzag, Feedback, AdaptK, WrapU32;
    WrapU32Same(1);
    assert Pow2(0) == 1;
    if t.k0 > 0 {
      Pow2Mono(1, t.k0);
      assert Pow2(1) == 2;
    }
  }

  lemma SettlingStep(t: Trackers)
    requires Settling(t)
    ensures Settling(AfterCodeword(t, 1))
    ensures Unrest(t) > 0 ==> Unrest(AfterCodeword(t, 1)) < Unrest(t)
    ensures Unrest(t) == 0 ==> Unrest(AfterCodeword(t, 1)) == 0
  {
    hide Feedback, AdaptK, AfterCodeword, AfterHigh, Pow2, Calming, Rest;
    AfterOne(t);
    CalmingStep(t.k0, t.sum0, 1, 31);
    CalmingStep(t.k1, t.sum1, 0, 15);
  }

  lemma {:induction false} Settles(t: Trackers, n: nat)
    requires Settling(t) && Unrest(t) <= n
    ensures Settling(Run(t, 1, n)) && Unrest(Run(t, 1, n)) == 0
    decreases n
  {
    hide Settling, Unrest, AfterCodeword;
    if n > 0 {
      SettlingStep(t);
      Settles(AfterCodeword(t, 1), n - 1);
    }
  }

  /** Enough residuals 1 from frame entry. */
  const CALM: nat := 0x8000

  lemma ParametersMoveByOne(t: Trackers, e: i32)
    ensures AfterCodeword(t, e).k0 <= t.k0 + 1 && AfterCodeword(t, e).k1 <= t.k1 + 1
  {
    hide Zigzag, Feedback, ShlSaturating, Pow2, WrapU32;
  }

  /** With parameters of 0 or 1 the largest residual takes its magnitude in bits, halved
      by a second parameter of 1. */
  lemma LargestCodeword(t: Trackers)
    requires t.k0 <= 1 && t.k1 <= 1
    ensures |Codeword(t, LARGEST)| >= if t.k0 == 0 && t.k1 == 0 then TWO32 - 1 else TWO31
  {
    ZigzagInside(LARGEST);
    assert Pow2(0) == 1 && Pow2(1) == 2;
    hide Zigzag, Pow2, NatBits;
    var pre: int := Zigzag(LARGEST) - Pow2(t.k0);
    assert pre >= TWO32 - 4;
    if t.k1 == 0 {
      assert pre / Pow2(t.k1) == pre;
    } else {
      assert pre / Pow2(t.k1) == pre / 2 >= TWO31 - 2;
    }
  }

  /** After them two largest residuals take 3 * 2^31 - 1 bits or more. */
  lemma LargestLength(t: Trackers)
    requires Settling(t) && Unrest(t) == 0
    ensures |Codeword(t, LARGEST)| >= TWO32 - 1
    ensures |Codeword(AfterCodeword(t, LARGEST), LARGEST)| >= TWO31
  {
    ParametersMoveByOne(t, LARGEST);
    hide Codeword, AfterCodeword, Pow2;
    LargestCodeword(t);
    LargestCodeword(AfterCodeword(t, LARGEST));
  }

  // ----- and what a queue of equal channels does

  function Same<T>(n: nat, x: T): (r: seq<T>)
    ensures |r| == n
  {
    seq(n, _ => x)
  }

  /** `n` slots of residual `e` on every channel, then `rest`. */
  function Slots(nch: nat, e: i32, n: nat, rest: seq<i32>): (es: seq<i32>)
    ensures |es| == nch * n + |rest|
    decreases n
  {
    if n == 0 then rest
    else
      assert nch * n == nch + nch * (n - 1);
      Same(nch, e) + Slots(nch, e, n - 1, rest)
  }

  /** The turns of one slot: `a` channels still to go, `b` done. */
  lemma {:induction false} SlotLength(a: nat, b: nat, t: Trackers, e: i32, rest: seq<i32>)
    requires a + b > 0
    ensures |WriteResiduals(Same(a, t) + Same(b, AfterCodeword(t, e)), Same(a, e) + rest)|
         == a * |Codeword(t, e)| + |WriteResiduals(Same(a + b, AfterCodeword(t, e)), rest)|
    decreases a
  {
    hide Codeword, AfterCodeword;
    var t' := AfterCodeword(t, e);
    var q, es := Same(a, t) + Same(b, t'), Same(a, e) + rest;
    if a == 0 {
      assert q == Same(b, t') && es == rest;
    } else {
      assert Turn(q, t') == Same(a - 1, t) + Same(b + 1, t');
      assert es[1..] == Same(a - 1, e) + rest;
      hide Turn, Same;
      SlotLength(a - 1, b + 1, t, e, rest);
      assert a * |Codeword(t, e)| == |Codeword(t, e)| + (a - 1) * |Codeword(t, e)|;
    }
  }

  lemma WholeSlot(nch: nat, t: Trackers, e: i32, rest: seq<i32>)
    requires nch > 0
    ensures |WriteResiduals(Same(nch, t), Same(nch, e) + rest)|
         == nch * |Codeword(t, e)| + |WriteResiduals(Same(nch, AfterCodeword(t, e)), rest)|
  {
    hide Codeword, AfterCodeword, WriteResiduals;
    SlotLength(nch, 0, t, e, rest);
    assert Same(nch, t) + Same(0, AfterCodeword(t, e)) == Same(nch, t);
  }

  lemma {:induction false} SlotsLength(nch: nat, t: Trackers, e: i32, n: nat, rest: seq<i32>)
    requires nch > 0
    ensures |WriteResiduals(Same(nch, t), Slots(nch, e, n, rest))|
         >= |WriteResiduals(Same(nch, Run(t, e, n)), rest)|
    decreases n
  {
    hide Codeword, AfterCodeword, WriteResiduals, Same;
    if n > 0 {
      WholeSlot(nch, t, e, Slots(nch, e, n - 1, rest));
      SlotsLength(nch, AfterCodeword(t, e), e, n - 1, rest);
      MulNonNegative(nch, |Codeword(t, e)|);
    }
  }

  /** Six channels of calm, then two slots of the largest residual. */
  function Residue(): (es: seq<i32>)
    ensures |es| == 6 * (CALM + 2) && WholeSlots(es, 6)
  {
    Slots(6, 1, CALM, Slots(6, LARGEST, 2, []))
  }

  lemma CalmAfterRun()
    ensures Settling(Run(FRAME_INIT, 1, CALM)) && Unrest(Run(FRAME_INIT, 1, CALM)) == 0
  {
    Pow2Mono(14, 15);
    Pow2Values();
    assert Settling(FRAME_INIT) && Unrest(FRAME_INIT) <= CALM;
    hide Settling, Unrest, Run;
    Settles(FRAME_INIT, CALM);
  }

  /** The last two slots. */
  lemma LoudSlots(t: Trackers)
    ensures |WriteResiduals(Same(6, t), Slots(6, LARGEST, 2, []))|
         >= 6 * |Codeword(t, LARGEST)| + 6 * |Codeword(AfterCodeword(t, LARGEST), LARGEST)|
  {
    hide Codeword, AfterCodeword, WriteResiduals;
    assert Slots(6, LARGEST, 2, []) == Same(6, LARGEST) + Slots(6, LARGEST, 1, []);
    assert Slots(6, LARGEST, 1, []) == Same(6, LARGEST) + [];
    WholeSlot(6, t, LARGEST, Slots(6, LARGEST, 1, []));
    WholeSlot(6, AfterCodeword(t, LARGEST), LARGEST, []);
  }

  lemma ResidueLength()
    ensures |WriteResiduals(InitialTrackings(6), Residue())| >= 8 * TWO32
  {
    var t := Run(FRAME_INIT, 1, CALM);
    CalmAfterRun();
    hide Codeword, AfterCodeword, WriteResiduals, Run, Settling, Unrest, Slots;
    LargestLength(t);
    LoudSlots(t);
    assert InitialTrackings(6) == Same(6, FRAME_INIT);
    SlotsLength(6, FRAME_INIT, 1, CALM, Slots(6, LARGEST, 2, []));
  }

  lemma {:induction false} SlotsClean(nch: nat, e: i32, n: nat, rest: seq<i32>)
    requires e != I32_MIN && I32_MIN !in rest
    ensures I32_MIN !in Slots(nch, e, n, rest)
    decreases n
  {
    if n > 0 {
      SlotsClean(nch, e, n - 1, rest);
    }
  }

  // ----- the frame and the file

  /** The samples that leave these residuals. */
  function LongPcm(bytesPerSample: nat): (pcm: seq<i32>)
    requires 1 <= bytesPerSample <= 3
    ensures |pcm| == 6 * (CALM + 2) && WholeSlots(pcm, 6)
  {
    FrameSamples(Residue(), 6, bytesPerSample, None)
  }

  lemma LongResiduals(bytesPerSample: nat)
    requires 2 <= bytesPerSample <= 3
    ensures FrameResiduals(LongPcm(bytesPerSample), 6, bytesPerSample, None) == Residue()
    ensures I32_MIN !in Residue()
  {
    SlotsClean(6, LARGEST, 2, []);
    SlotsClean(6, 1, CALM, Slots(6, LARGEST, 2, []));
    hide Residue, FrameSamples, FrameResiduals;
    SamplesResidualsBijection(Residue(), 6, bytesPerSample, None);
  }

  /** A frame's bits are the Rice code of its residuals. */
  lemma FrameCode(pcm: seq<i32>, nch: nat, bytesPerSample: nat, prime: Priming)
    requires WholeSlots(pcm, nch) && 1 <= bytesPerSample <= 3
    ensures AllValid(InitialTrackings(nch))
    ensures FrameBits(pcm, nch, bytesPerSample, prime)
         == WriteResiduals(InitialTrackings(nch), FrameResiduals(pcm, nch, bytesPerSample, prime))
  {
    hide EncodeRun, WriteResiduals, Residuals, ForwardAll, Trackings, Predictors, FrameQueue, InitialTrackings;
    var q := FrameQueue(nch, bytesPerSample, prime);
    TurnLayers(q, q[0]);
    EncodeLayers(q, ForwardAll(pcm, nch));
    InitialTrackers(nch, bytesPerSample, prime);
  }

  /** Its blob has between 2^32 and 2^53 bytes. */
  lemma LongBlob(bytesPerSample: nat)
    requires 2 <= bytesPerSample <= 3
    ensures TWO32 <= |FrameBlob(LongPcm(bytesPerSample), 6, bytesPerSample, None)| < 0x20_0000_0000_0000
  {
    hide Residue, WriteResiduals, InitialTrackings, LongPcm, FrameBits, FrameResiduals, Zigzag, Pack;
    hide Crc32.Checksum, Crc32.WordBytes;
    LongResiduals(bytesPerSample);
    FrameCode(LongPcm(bytesPerSample), 6, bytesPerSample, None);
    ResidueLength();
    CodeLengths.ResidualsLength(InitialTrackings(6), Residue(), TWO32 + 32);
  }

  /** At the usual rates the whole buffer is one block. */
  lemma OneLongBlock(h: StreamHeader)
    requires h.InScope() && h.channels == 6 && h.sampleRate >= 44100
    ensures Chunks(LongPcm(h.BytesPerSample()), BlockSize(h)) == [LongPcm(h.BytesPerSample())]
  {
    hide LongPcm;
    assert h.RegularFrameSamples() >= 44100 * 256 / 245;
  }

  lemma SingleBlock(samples: seq<i32>, h: StreamHeader, prime: Priming)
    requires h.InScope() && WholeSlots(samples, h.channels)
    requires Chunks(samples, BlockSize(h)) == [samples]
    ensures FrameBlobs(samples, h, prime) == [FrameBlob(samples, h.channels, h.BytesPerSample(), prime)]
    ensures Clean(samples, h, prime) ==> BlocksClean(samples, h, prime)
  {
    hide FrameBlob, Chunks, BlockSize, Clean, StreamHeader.BytesPerSample;
    ChunksWhole(samples, h);
  }

  lemma LongFile(h: StreamHeader)
    requires h.InScope() && h.channels == 6 && h.sampleRate >= 44100
    ensures var pcm := LongPcm(h.BytesPerSample());
            && FrameBlobs(pcm, h, None) == [FrameBlob(pcm, 6, h.BytesPerSample(), None)]
            && BlocksClean(pcm, h, None)
  {
    OneLongBlock(h);
    hide LongPcm, FrameBlob, FrameBlobs, BlocksClean, FrameResiduals, BlockSize, Chunks, StreamHeader.BytesPerSample, Residue;
    LongResiduals(h.BytesPerSample());
    SingleBlock(LongPcm(h.BytesPerSample()), h, None);
  }

  lemma OneBlobFile(h: StreamHeader, blob: seq<u8>)
    requires TWO32 <= |blob| < 0x20_0000_0000_0000
    ensures Long([blob][0]) && |FileBytes(h, [blob])| < TWO64
  {
    hide HeaderBytes, SeekTableBytes, Concat;
    ConcatOne(blob);
  }

  /** A file that is one long blob. */
  lemma LongBlobTruncated(samples: seq<i32>, h: StreamHeader, blob: seq<u8>)
    requires h.InScope() && Checked(samples, h.channels, h.bitsPerSample, h.sampleRate, 1) == Ok(h)
    requires WholeSlots(samples, h.channels) && Kept(samples, h) == samples
    requires FrameBlobs(samples, h, None) == [blob] && Long(blob) && |FileBytes(h, [blob])| < TWO64
    ensures match Encoded(samples, h.channels, h.bitsPerSample, h.sampleRate, 1, None)
            case Err(_) => false
            case Ok(file) => Decoded(file) == Err(Truncated)
  {
    hide FrameBlobs, FileBytes, BlocksClean, Opened, Decoder.All, Kept, Checked, Long, StreamHeader.InScope;
    assert blob in FrameBlobs(samples, h, None);
    Outcome(samples, h.channels, h.bitsPerSample, h.sampleRate, 1, None);
  }

  /** `encode` of these six-channel samples succeeds, and decoding its bytes is Truncated,
      although the count is exact and every block is clean (`LongFile`). */
  lemma BlobIsLost(bits: u16, rate: u32)
    requires 16 <= bits <= 24 && 44100 <= rate <= MAX_SAMPLE_RATE
    ensures match Encoded(LongPcm(if bits == 16 then 2 else 3), 6, bits, rate, 1, None)
            case Err(_) => false
            case Ok(file) => Decoded(file) == Err(Truncated)
  {
    var h := StreamHeader(1, 6, bits, rate, CALM + 2);
    assert h.InScope() && h.BytesPerSample() == if bits == 16 then 2 else 3;
    hide LongPcm, FrameBlob, FrameBlobs, FileBytes, BlocksClean, Encoded, Decoded, Kept, Checked, Long;
    hide StreamHeader.BytesPerSample, StreamHeader.InScope;
    var pcm := LongPcm(h.BytesPerSample());
    var blob := FrameBlob(pcm, 6, h.BytesPerSample(), None);
    LongInput(pcm, bits, rate);
    LongFile(h);
    LongBlob(h.BytesPerSample());
    OneBlobFile(h, blob);
    LongBlobTruncated(pcm, h, blob);
  }

  lemma LongInput(pcm: seq<i32>, bits: u16, rate: u32)
    requires 16 <= bits <= 24 && 44100 <= rate <= MAX_SAMPLE_RATE
    requires |pcm| == 6 * (CALM + 2)
    ensures var h := StreamHeader(1, 6, bits, rate, CALM + 2);
            Checked(pcm, 6, bits, rate, 1) == Ok(h) && WholeSlots(pcm, h.channels) && Kept(pcm, h) == pcm
  {
    KeptAll(pcm, StreamHeader(1, 6, bits, rate, CALM + 2));
  }
}
