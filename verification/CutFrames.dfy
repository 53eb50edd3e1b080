/** Frames cut short, and what the 32-bit casts of src/encoder.rs cost: exactly when a
    file is lossless. */
module CutFrames {
  import opened Words
  import opened Bits
  import opened Results
  import opened BitReader
  import opened Rice
  import opened Pipeline
  import opened Format
  import opened Frame
  import opened FrameTheorems
  import opened Bounds
  import opened Encoder
  import opened Decoder
  import opened EndToEnd
  import Crc32
  import Password

  // ----- reading is not influenced by what follows

  lemma {:induction false} TakeUnaryMore(s: Bits, t: Bits)
    requires TakeUnary(s).Some?
    ensures var (u, rest) := TakeUnary(s).value; TakeUnary(s + t) == Some((u, rest + t))
  {
    assert (s + t)[1..] == s[1..] + t;
    if s[0] {
      TakeUnaryMore(s[1..], t);
    }
  }

  lemma TakeBitsMore(s: Bits, t: Bits, k: nat)
    requires TakeBits(s, k).Some?
    ensures var (v, rest) := TakeBits(s, k).value; TakeBits(s + t, k) == Some((v, rest + t))
  {
    assert (s + t)[..k] == s[..k] && (s + t)[k..] == s[k..] + t;
  }

  lemma ReadResidualMore(c: Trackers, s: Bits, t: Bits)
    requires ReadResidual(c, s).Some?
    ensures var (e, c', rest) := ReadResidual(c, s).value; ReadResidual(c, s + t) == Some((e, c', rest + t))
  {
    hide AfterLow, AfterHigh, Dezigzag, ShlSaturating, TakeUnary, TakeBits, Pow2, WrapU32;
    TakeUnaryMore(s, t);
    var (u, s1) := TakeUnary(s).value;
    TakeBitsMore(s1, t, if u == 0 then c.k0 else c.k1);
  }

  lemma {:induction false} ReadResidualsMore(q: seq<Trackers>, s: Bits, t: Bits, n: nat)
    requires q != [] && ReadResiduals(q, s, n).Some?
    ensures var (es, q', rest) := ReadResiduals(q, s, n).value;
            ReadResiduals(q, s + t, n) == Some((es, q', rest + t))
    decreases n
  {
    hide ReadResidual;
    if n > 0 {
      var (e, c, rest) := ReadResidual(q[0], s).value;
      ReadResidualMore(q[0], s, t);
      ReadResidualsMore(Turn(q, c), rest, t, n - 1);
    }
  }

  // ----- a body cut short

  /** No proper byte prefix of a packed body holds all its samples. */
  lemma CutBody(pcm: seq<i32>, nch: nat, bytesPerSample: nat, prime: Priming, m: nat)
    requires WholeSlots(pcm, nch) && 1 <= bytesPerSample <= 3
    requires m < |Pack(FrameBits(pcm, nch, bytesPerSample, prime))|
    ensures BodySamples(Pack(FrameBits(pcm, nch, bytesPerSample, prime))[..m], nch, bytesPerSample, prime, |pcm|) == None
  {
    hide EncodeRun, ReadResiduals, WriteResiduals, Residuals, ForwardAll, BytesBits, Predictors, Trackings;
    hide CanonicalAll, FrameSamples, BodySamples, FrameQueue, InitialTrackings;
    var q, start := FrameQueue(nch, bytesPerSample, prime), InitialTrackings(nch);
    var es, bits := FrameResiduals(pcm, nch, bytesPerSample, prime), FrameBits(pcm, nch, bytesPerSample, prime);
    var body := Pack(bits);
    TurnLayers(q, q[0]);
    EncodeLayers(q, ForwardAll(pcm, nch));
    InitialTrackers(nch, bytesPerSample, prime);
    BodyLayers(body[..m], nch, bytesPerSample, prime, |pcm|);
    if ReadResiduals(start, BytesBits(body[..m]), |pcm|).Some? {
      PackRoundTrip(bits);
      ResidualsRoundTrip(start, es, Zeros(Padding(|bits|)));
      assert body == body[..m] + body[m..];
      BytesBitsAppend(body[..m], body[m..]);
      ReadResidualsMore(start, BytesBits(body[..m]), BytesBits(body[m..]), |pcm|);
      assert false;
    }
  }

  /** An encoded frame under any smaller stored size than its own is Truncated. */
  lemma CutFrame(h: StreamHeader, d: FrameDescriptor, pcm: seq<i32>, prime: Priming)
    requires h.InScope() && |pcm| == d.sampleCount * h.channels && WholeSlots(pcm, h.channels)
    requires d.diskSize < |FrameBlob(pcm, h.channels, h.BytesPerSample(), prime)|
    ensures FrameResult(h, d, FrameBlob(pcm, h.channels, h.BytesPerSample(), prime)[..d.diskSize], prime) == Err(Truncated)
  {
    hide FrameBits, BodySamples, Pack, Crc32.Checksum, Crc32.LeWord, Crc32.WordBytes;
    if d.diskSize >= 4 {
      var nch: nat, bps := h.channels, h.BytesPerSample();
      var body, blob := Pack(FrameBits(pcm, nch, bps, prime)), FrameBlob(pcm, nch, bps, prime);
      var m := d.diskSize - 4;
      assert blob[..d.diskSize][..m] == body[..m];
      CutBody(pcm, nch, bps, prime, m);
    }
  }

  // ----- a blob too long for its seek entry

  /** The first frame that fails decides the outcome. */
  lemma {:induction false} FirstFailure(dec: Decoder, i: nat, k: nat, e: Error)
    requires dec.header.InScope() && i <= k < |dec.frames|
    requires forall j :: i <= j < k ==> dec.FrameAt(j).Ok?
    requires dec.FrameAt(k) == Err(e)
    ensures dec.FramesUpTo(i, |dec.frames|) == Err(e)
    decreases k - i
  {
    hide Decoder.FrameAt;
    if i < k {
      FirstFailure(dec, i + 1, k, e);
    }
  }

  ghost predicate Long(blob: seq<u8>) {
    |blob| >= TWO32
  }

  /** Blob `k` is the first whose length the cast to 32 bits changes. */
  ghost predicate FirstLong(blobs: seq<seq<u8>>, k: nat) {
    k < |blobs| && Long(blobs[k]) && forall j :: 0 <= j < k ==> !Long(blobs[j])
  }

  lemma {:induction false} FindLong(blobs: seq<seq<u8>>, n: nat) returns (k: nat)
    requires n <= |blobs| && exists j :: 0 <= j < n && Long(blobs[j])
    ensures FirstLong(blobs, k)
  {
    if exists j :: 0 <= j < n - 1 && Long(blobs[j]) {
      k := FindLong(blobs, n - 1);
    } else {
      k := n - 1;
    }
  }

  /** The frame's stored size and count as the decoder of an encoded file sees them. */
  lemma EncodedFrame(samples: seq<i32>, h: StreamHeader, prime: Priming, i: nat)
    requires h.InScope() && WholeSlots(samples, h.channels) && |samples| == h.totalSamples * h.channels
    requires h.format == 2 ==> prime.Some?
    requires var blobs := FrameBlobs(samples, h, prime);
             && |FileBytes(h, blobs)| < TWO64
             && i < |blobs| && forall j :: 0 <= j < i ==> !Long(blobs[j])
    ensures var blobs, chunks := FrameBlobs(samples, h, prime), Chunks(samples, BlockSize(h));
            && Opened(FileBytes(h, blobs), prime).Ok?
            && var dec := Opened(FileBytes(h, blobs), prime).value;
               && dec.header == h && dec.qmPriming == prime
               && i < |dec.frames| && i < |chunks| && WholeSlots(chunks[i], h.channels)
               && |chunks[i]| == dec.frames[i].sampleCount * h.channels
               && blobs[i] == FrameBlob(chunks[i], h.channels, h.BytesPerSample(), prime)
               && dec.frames[i].diskSize == WrapU32(|blobs[i]|)
               && dec.frames[i].fileOffset + |blobs[i]| <= |dec.bytes|
               && dec.bytes[dec.frames[i].fileOffset..dec.frames[i].fileOffset + |blobs[i]|] == blobs[i]
  {
    hide FrameBlob, FileBytes, Opened, Chunks, StreamHeader.FrameGeometry, StreamHeader.RegularFrameSamples, WrapU32;
    var blobs := FrameBlobs(samples, h, prime);
    ChunksWhole(samples, h);
    ChunksMatchGeometry(samples, h);
    FrameWindow(h, blobs, prime, i);
    OpenedHeader(h, blobs, prime);
    OpenedValid(FileBytes(h, blobs), prime);
  }

  lemma OpenedHeader(h: StreamHeader, blobs: seq<seq<u8>>, prime: Priming)
    requires h.InScope() && |blobs| == h.FrameGeometry().0
    requires h.format == 2 ==> prime.Some?
    ensures Opened(FileBytes(h, blobs), prime).Ok?
    ensures Opened(FileBytes(h, blobs), prime).value.header == h
    ensures Opened(FileBytes(h, blobs), prime).value.qmPriming == prime
  {
    hide Opened, FileBytes, Descriptors, StreamHeader.FrameGeometry;
    OpensEncoded(h, blobs, prime);
  }

  /** A frame before the first long blob decodes. */
  lemma ShortFrameDecodes(samples: seq<i32>, h: StreamHeader, prime: Priming, i: nat)
    requires h.InScope() && WholeSlots(samples, h.channels) && |samples| == h.totalSamples * h.channels
    requires h.format == 2 ==> prime.Some?
    requires var blobs := FrameBlobs(samples, h, prime);
             && |FileBytes(h, blobs)| < TWO64
             && i < |blobs| && forall j :: 0 <= j <= i ==> !Long(blobs[j])
    ensures Opened(FileBytes(h, FrameBlobs(samples, h, prime)), prime).Ok?
    ensures Opened(FileBytes(h, FrameBlobs(samples, h, prime)), prime).value.FrameAt(i).Ok?
  {
    hide FrameBlob, FrameBlobs, FileBytes, Opened, Chunks, BlockSize, Decoder.FrameAt, WrapU32;
    EncodedFrame(samples, h, prime, i);
    var blobs := FrameBlobs(samples, h, prime);
    WrapU32Same(|blobs[i]|);
    ServedFrame(Opened(FileBytes(h, blobs), prime).value, h, Chunks(samples, BlockSize(h))[i], prime, i);
  }

  /** The first long blob is cut by its wrapped entry. */
  lemma LongFrameFails(samples: seq<i32>, h: StreamHeader, prime: Priming, k: nat)
    requires h.InScope() && WholeSlots(samples, h.channels) && |samples| == h.totalSamples * h.channels
    requires h.format == 2 ==> prime.Some?
    requires var blobs := FrameBlobs(samples, h, prime);
             |FileBytes(h, blobs)| < TWO64 && FirstLong(blobs, k)
    ensures Opened(FileBytes(h, FrameBlobs(samples, h, prime)), prime).Ok?
    ensures Opened(FileBytes(h, FrameBlobs(samples, h, prime)), prime).value.FrameAt(k) == Err(Truncated)
  {
    hide FrameBlob, FrameBlobs, FileBytes, Opened, Chunks, BlockSize, FrameResult, WrapU32;
    EncodedFrame(samples, h, prime, k);
    var blob := FrameBlobs(samples, h, prime)[k];
    var dec := Opened(FileBytes(h, FrameBlobs(samples, h, prime)), prime).value;
    var at, size := dec.frames[k].fileOffset, dec.frames[k].diskSize;
    WrapsBelow(|blob|);
    ShorterSlice(dec.bytes, at, size, |blob|);
    CutFrame(h, dec.frames[k], Chunks(samples, BlockSize(h))[k], prime);
  }

  lemma ShorterSlice(bytes: seq<u8>, at: nat, size: nat, len: nat)
    requires size <= len && at + len <= |bytes|
    ensures bytes[at..at + size] == bytes[at..at + len][..size]
  {
  }

  lemma WrapsBelow(n: nat)
    ensures n >= TWO32 ==> WrapU32(n) < n
  {
  }

  /** A file with a blob of 2^32 bytes or more opens, and decoding it is Truncated. */
  lemma LongFileFails(samples: seq<i32>, h: StreamHeader, prime: Priming)
    requires h.InScope() && WholeSlots(samples, h.channels) && |samples| == h.totalSamples * h.channels
    requires h.format == 2 ==> prime.Some?
    requires var blobs := FrameBlobs(samples, h, prime);
             |FileBytes(h, blobs)| < TWO64 && exists j :: 0 <= j < |blobs| && Long(blobs[j])
    ensures var file := FileBytes(h, FrameBlobs(samples, h, prime));
            && Opened(file, prime).Ok? && Opened(file, prime).value.header == h
            && Opened(file, prime).value.All() == Err(Truncated)
  {
    hide FrameBlobs, FileBytes, Opened, Decoder.FrameAt, Long;
    var blobs := FrameBlobs(samples, h, prime);
    var k := FindLong(blobs, |blobs|);
    LongFrameFails(samples, h, prime, k);
    EncodedFrame(samples, h, prime, k);
    var dec := Opened(FileBytes(h, blobs), prime).value;
    forall j | 0 <= j < k
      ensures dec.FrameAt(j).Ok?
    {
      ShortFrameDecodes(samples, h, prime, j);
    }
    FirstFailure(dec, 0, k, Truncated);
  }

  // ----- exactly when a file is lossless

  /** Parameters the encoder accepts, for any i32 samples, and a file of 64-bit length. */
  ghost predicate Admissible(samples: seq<i32>, channels: u16, bits: u16, rate: u32, format: u16, prime: Priming)
    requires format == 1 || format == 2
  {
    match Checked(samples, channels, bits, rate, format)
    case Err(_) => false
    case Ok(h) => |FileBytes(h, FrameBlobs(Kept(samples, h), h, prime))| < TWO64
  }

  /** The two casts to 32 bits change nothing. */
  ghost predicate CastsExact(samples: seq<i32>, channels: u16, bits: u16, rate: u32, format: u16, prime: Priming)
    requires format == 1 || format == 2
    requires Checked(samples, channels, bits, rate, format).Ok?
  {
    var h := Checked(samples, channels, bits, rate, format).value;
    && |samples| / channels < TWO32
    && forall blob :: blob in FrameBlobs(Kept(samples, h), h, prime) ==> !Long(blob)
  }

  lemma KeptShorter(samples: seq<i32>, h: StreamHeader)
    requires h.InScope() && WholeSlots(samples, h.channels)
    requires h.totalSamples == WrapU32(|samples| / h.channels)
    ensures |samples| / h.channels >= TWO32 ==> |Kept(samples, h)| < |samples|
  {
    hide Kept, WrapU32;
    WrapsBelow(|samples| / h.channels);
    FewerSlots(|samples| / h.channels, h.totalSamples, h.channels, |samples|);
  }

  lemma FewerSlots(n: int, m: int, nch: int, len: nat)
    requires nch >= 1 && len % nch == 0 && n == len / nch
    ensures m < n ==> m * nch < len
  {
    assert len == nch * n;
    assert nch * (n - m) == nch * n - m * nch;
    MulAtLeast(nch, n - m);
  }

  /** What decoding an encoded file gives, for any samples: Truncated if a blob is too
      long for its entry, otherwise as many samples as the header counts, and those
      encoded exactly when every block is clean. So the input comes back exactly when
      neither cast changes a value and every block is clean. */
  lemma Outcome(samples: seq<i32>, channels: u16, bits: u16, rate: u32, format: u16, prime: Priming)
    requires format == 1 || (format == 2 && prime.Some?)
    requires Admissible(samples, channels, bits, rate, format, prime)
    ensures match Encoded(samples, channels, bits, rate, format, prime)
            case Err(_) => false
            case Ok(file) =>
              match Opened(file, prime)
              case Err(_) => false
              case Ok(dec) =>
                && dec.header.InScope() && dec.header == Checked(samples, channels, bits, rate, format).value
                && (if exists blob :: blob in FrameBlobs(Kept(samples, dec.header), dec.header, prime) && Long(blob)
                    then dec.All() == Err(Truncated)
                    else dec.All().Ok? && |dec.All().value| == |Kept(samples, dec.header)|
                         && (dec.All().value == Kept(samples, dec.header)
                             <==> BlocksClean(Kept(samples, dec.header), dec.header, prime)))
                && (dec.All() == Ok(samples)
                    <==> CastsExact(samples, channels, bits, rate, format, prime) && BlocksClean(samples, dec.header, prime))
  {
    hide FrameBlobs, FileBytes, Opened, Decoder.All, Kept, StreamHeader.BytesPerSample, Chunks, BlockSize, Clean;
    var h := Checked(samples, channels, bits, rate, format).value;
    var kept := Kept(samples, h);
    var blobs := FrameBlobs(kept, h, prime);
    KeptShorter(samples, h);
    if exists blob :: blob in blobs && Long(blob) {
      LongFileFails(kept, h, prime);
    } else {
      assert forall i :: 0 <= i < |blobs| ==> !Long(blobs[i]);
      FileRoundTrip(kept, h, prime);
      OpenedHeaderOf(kept, h, prime);
    }
  }

  lemma OpenedHeaderOf(samples: seq<i32>, h: StreamHeader, prime: Priming)
    requires h.InScope() && WholeSlots(samples, h.channels) && |samples| == h.totalSamples * h.channels
    requires h.format == 2 ==> prime.Some?
    ensures Opened(FileBytes(h, FrameBlobs(samples, h, prime)), prime).Ok?
    ensures Opened(FileBytes(h, FrameBlobs(samples, h, prime)), prime).value.header == h
  {
    hide FrameBlob, FileBytes, Opened, Chunks, BlockSize, StreamHeader.FrameGeometry, StreamHeader.RegularFrameSamples;
    ChunksWhole(samples, h);
    ChunksMatchGeometry(samples, h);
    OpenedHeader(h, FrameBlobs(samples, h, prime), prime);
  }

  /** `decode` of `encode` is the identity if and only if the per-channel count and every
      blob's length survive their casts and no block has an i32::MIN residual. */
  lemma LosslessExactly(samples: seq<i32>, channels: u16, bits: u16, rate: u32)
    requires Admissible(samples, channels, bits, rate, 1, None)
    ensures match Encoded(samples, channels, bits, rate, 1, None)
            case Err(_) => false
            case Ok(file) =>
              var h := Checked(samples, channels, bits, rate, 1).value;
              Decoded(file) == Ok((h, samples))
              <==> CastsExact(samples, channels, bits, rate, 1, None) && BlocksClean(samples, h, None)
  {
    Outcome(samples, channels, bits, rate, 1, None);
    hide Encoded, Opened, Admissible, CastsExact, Decoder.All, FrameBlobs, Kept, BlocksClean;
  }

  lemma LosslessExactlyWithPassword(samples: seq<i32>, channels: u16, bits: u16, rate: u32, password: seq<u8>)
    requires Admissible(samples, channels, bits, rate, 2, Some(Password.Priming(password)))
    ensures match Encoded(samples, channels, bits, rate, 2, Some(Password.Priming(password)))
            case Err(_) => false
            case Ok(file) =>
              var h, prime := Checked(samples, channels, bits, rate, 2).value, Some(Password.Priming(password));
              DecodedWithPassword(file, password) == Ok((h, samples))
              <==> CastsExact(samples, channels, bits, rate, 2, prime) && BlocksClean(samples, h, prime)
  {
    Outcome(samples, channels, bits, rate, 2, Some(Password.Priming(password)));
    hide Encoded, Opened, Admissible, CastsExact, Decoder.All, FrameBlobs, Kept, Password.Priming, BlocksClean;
  }

  /** On samples of the declared width only the casts can cost anything. */
  lemma InRangeLosslessExactly(samples: seq<i32>, channels: u16, bits: u16, rate: u32)
    requires Admissible(samples, channels, bits, rate, 1, None)
    requires InRange(samples, Checked(samples, channels, bits, rate, 1).value.BytesPerSample())
    ensures match Encoded(samples, channels, bits, rate, 1, None)
            case Err(_) => false
            case Ok(file) =>
              Decoded(file) == Ok((StreamHeader(1, channels, bits, rate, WrapU32(|samples| / channels)), samples))
              <==> CastsExact(samples, channels, bits, rate, 1, None)
  {
    LosslessExactly(samples, channels, bits, rate);
    InRangeClean(samples, Checked(samples, channels, bits, rate, 1).value, None);
    hide Encoded, Decoded, CastsExact, FrameBlobs, Kept, BlocksClean, InRange;
  }

  lemma InRangeLosslessExactlyWithPassword(samples: seq<i32>, channels: u16, bits: u16, rate: u32, password: seq<u8>)
    requires Admissible(samples, channels, bits, rate, 2, Some(Password.Priming(password)))
    requires InRange(samples, Checked(samples, channels, bits, rate, 2).value.BytesPerSample())
    ensures match Encoded(samples, channels, bits, rate, 2, Some(Password.Priming(password)))
            case Err(_) => false
            case Ok(file) =>
              DecodedWithPassword(file, password)
                == Ok((StreamHeader(2, channels, bits, rate, WrapU32(|samples| / channels)), samples))
              <==> CastsExact(samples, channels, bits, rate, 2, Some(Password.Priming(password)))
  {
    LosslessExactlyWithPassword(samples, channels, bits, rate, password);
    InRangeClean(samples, Checked(samples, channels, bits, rate, 2).value, Some(Password.Priming(password)));
    hide Encoded, DecodedWithPassword, CastsExact, FrameBlobs, Kept, BlocksClean, InRange, Password.Priming;
  }
}
