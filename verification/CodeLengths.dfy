/** How long the coded forms get, and from it a condition on the input alone under
    which a file is lossless. */
module CodeLengths {
  import opened Words
  import opened Bits
  import opened Results
  import opened Rice
  import opened Pipeline
  import opened Format
  import opened Frame
  import opened FrameTheorems
  import opened Bounds
  import opened Encoder
  import opened Decoder
  import opened EndToEnd
  import Password

  /** So many entries always fit one frame, whatever the samples: magnitudes of 24 bits
      (two-byte samples) and 27 bits take at most 2^24 + 31 and 2^27 + 31 bits each. */
  function Short(bytesPerSample: nat): nat {
    if bytesPerSample == 2 then 2047 else 255
  }

  /** The longest such frame in bytes: `2047 * (2^24 + 31)` bits and a checksum. */
  const SHORT_BLOB: nat := 0xffe01f01

  lemma {:induction false} CodewordLength(t: Trackers, e: i32)
    requires t.Valid()
    ensures |Codeword(t, e)| <= Zigzag(e) + 32
  {
    hide Zigzag, Pow2, NatBits;
    var value := Zigzag(e);
    if value >= Pow2(t.k0) {
      QuotientBounds(value - Pow2(t.k0), Pow2(t.k1));
    }
  }

  lemma {:induction false} ResidualsLength(q: seq<Trackers>, es: seq<i32>, limit: int)
    requires q != [] && AllValid(q)
    requires forall i :: 0 <= i < |es| ==> Zigzag(es[i]) + 32 <= limit
    ensures |WriteResiduals(q, es)| <= |es| * limit
    decreases |es|
  {
    if es != [] {
      hide Codeword, AfterCodeword, Zigzag;
      CodewordLength(q[0], es[0]);
      ResidualsLength(Turn(q, AfterCodeword(q[0], es[0])), es[1..], limit);
      OneMore(|es|, limit);
    }
  }

  lemma OneMore(n: int, x: int)
    ensures n * x == x + (n - 1) * x
  {
  }

  /** A short frame of in-range samples has a length the seek table can hold. */
  lemma ShortBlob(pcm: seq<i32>, nch: nat, bytesPerSample: nat, prime: Priming)
    requires WholeSlots(pcm, nch) && 2 <= bytesPerSample <= 3 && InRange(pcm, bytesPerSample)
    requires |pcm| <= Short(bytesPerSample)
    ensures |FrameBlob(pcm, nch, bytesPerSample, prime)| <= SHORT_BLOB
  {
    hide EncodeRun, WriteResiduals, Residuals, ForwardAll, Pow2, InRange, Trackings, Predictors, FrameQueue, InitialTrackings;
    var q, m := FrameQueue(nch, bytesPerSample, prime), if bytesPerSample == 2 then 24 else 27;
    var es := FrameResiduals(pcm, nch, bytesPerSample, prime);
    TurnLayers(q, q[0]);
    EncodeLayers(q, ForwardAll(pcm, nch));
    InitialTrackers(nch, bytesPerSample, prime);
    InRangeMagnitudes(pcm, nch, bytesPerSample, prime);
    Pow2Mono(m, 27);
    Pow2Values();
    ResidualsLength(InitialTrackings(nch), es, if bytesPerSample == 2 then 0x100_0000 + 31 else 0x800_0000 + 31);
  }

  lemma {:induction false} ChunkSizes(xs: seq<i32>, size: nat)
    requires size > 0
    ensures forall i :: 0 <= i < |Chunks(xs, size)| ==> |Chunks(xs, size)[i]| <= |xs| && |Chunks(xs, size)[i]| <= size
    decreases |xs|
  {
    if |xs| > size {
      ChunkSizes(xs[size..], size);
    }
  }

  lemma {:induction false} ConcatLength(blobs: seq<seq<u8>>, limit: nat)
    requires forall i :: 0 <= i < |blobs| ==> |blobs[i]| <= limit
    ensures |Concat(blobs)| <= |blobs| * limit
  {
    if blobs != [] {
      ConcatLength(blobs[1..], limit);
      OneMore(|blobs|, limit);
    }
  }

  lemma {:induction false} ShortFits(samples: seq<i32>, h: StreamHeader, prime: Priming)
    requires h.InScope() && WholeSlots(samples, h.channels) && InRange(samples, h.BytesPerSample())
    requires |samples| == h.totalSamples * h.channels
    requires |samples| <= Short(h.BytesPerSample()) || BlockSize(h) <= Short(h.BytesPerSample())
    ensures Fits(h, FrameBlobs(samples, h, prime))
  {
    hide FrameBlob, InRange, Concat, Chunks, BlockSize, HeaderBytes, SeekTableBytes, StreamHeader.FrameGeometry;
    var chunks, blobs := Chunks(samples, BlockSize(h)), FrameBlobs(samples, h, prime);
    ChunksWhole(samples, h);
    ChunkSizes(samples, BlockSize(h));
    ChunksInRange(samples, BlockSize(h), h.BytesPerSample());
    ChunksMatchGeometry(samples, h);
    forall i | 0 <= i < |blobs|
      ensures |blobs[i]| <= SHORT_BLOB
    {
      ShortBlob(chunks[i], h.channels, h.BytesPerSample(), prime);
    }
    ConcatLength(blobs, SHORT_BLOB);
    assert |blobs| == h.FrameGeometry().0 < TWO32;
    assert |FileBytes(h, blobs)| == HEADER_LEN + 4 * |blobs| + 4 + |Concat(blobs)|;
  }

  /** Any buffer the encoder accepts, with samples in range, in short blocks, is
      encodable: no assumption about the output is left. */
  lemma ShortEncodable(samples: seq<i32>, channels: u16, bits: u16, rate: u32, format: u16, prime: Priming)
    requires format == 1 || format == 2
    requires ShortInput(samples, channels, bits, rate)
    ensures Encodable(samples, channels, bits, rate, format, prime)
  {
    hide InRange, FrameBlobs, Fits;
    var h := Checked(samples, channels, bits, rate, format).value;
    var n: int := |samples| / channels;
    QuotientBounds(|samples|, channels);
    WrapU32Same(n);
    assert |samples| == channels * n;
    ShortFits(samples, h, prime);
  }

  /** Parameters the encoder accepts, for whole slots of samples in range: a short buffer,
      or short frames whose number fits the header. */
  predicate ShortInput(samples: seq<i32>, channels: u16, bits: u16, rate: u32) {
    && 1 <= channels <= MAX_NCH && 16 <= bits <= 24 && 1 <= rate <= MAX_SAMPLE_RATE
    && |samples| % channels == 0
    && var bytesPerSample := if bits == 16 then 2 else 3;
       && InRange(samples, bytesPerSample)
       && (|samples| <= Short(bytesPerSample)
           || (|samples| / channels < TWO32 && rate * 256 / 245 * channels <= Short(bytesPerSample)))
  }

  /** Losslessness under conditions on the input alone. */
  lemma ShortLossless(samples: seq<i32>, channels: u16, bits: u16, rate: u32)
    requires ShortInput(samples, channels, bits, rate)
    ensures match Encoded(samples, channels, bits, rate, 1, None)
            case Err(_) => false
            case Ok(file) =>
              match Decoded(file)
              case Err(_) => false
              case Ok((h, pcm)) =>
                && pcm == samples && h.totalSamples * channels == |samples|
                && h == StreamHeader(1, channels, bits, rate, h.totalSamples)
  {
    hide Encoded, Decoded, ShortInput, Encodable;
    ShortEncodable(samples, channels, bits, rate, 1, None);
    Lossless(samples, channels, bits, rate);
  }

  lemma ShortLosslessWithPassword(samples: seq<i32>, channels: u16, bits: u16, rate: u32, password: seq<u8>)
    requires ShortInput(samples, channels, bits, rate)
    ensures match Encoded(samples, channels, bits, rate, 2, Some(Password.Priming(password)))
            case Err(_) => false
            case Ok(file) =>
              match DecodedWithPassword(file, password)
              case Err(_) => false
              case Ok((h, pcm)) =>
                && pcm == samples && h.totalSamples * channels == |samples|
                && h == StreamHeader(2, channels, bits, rate, h.totalSamples)
  {
    hide Encoded, DecodedWithPassword, ShortInput, Encodable, Password.Priming;
    ShortEncodable(samples, channels, bits, rate, 2, Some(Password.Priming(password)));
    LosslessWithPassword(samples, channels, bits, rate, password);
  }
}
