/** Encoding a file and decoding it again. */
module EndToEnd {
  import opened Words
  import opened Results
  import opened Rice
  import opened Pipeline
  import opened Format
  import opened Frame
  import opened FrameTheorems
  import opened Bounds
  import opened Encoder
  import opened Decoder
  import Crc32
  import Password

  /** The offset of the first frame: header, seek entries and their checksum. */
  function DataStart(frameCount: nat): nat {
    HEADER_LEN + 4 * frameCount + 4
  }

  /** Blobs whose lengths the seek table can hold, in a file of 64-bit length. */
  ghost predicate Fits(h: StreamHeader, blobs: seq<seq<u8>>) {
    && (forall i :: 0 <= i < |blobs| ==> |blobs[i]| < TWO32)
    && |FileBytes(h, blobs)| < TWO64
  }

  // ----- layout

  lemma LengthAt(blobs: seq<seq<u8>>, i: nat)
    requires i < |blobs| && |blobs[i]| < TWO32
    ensures Lengths(blobs)[i] == |blobs[i]|
  {
    WrapU32Same(|blobs[i]|);
  }

  /** Descriptor `k` of the written seek table points at blob `k`, if every entry before
      it holds its blob's length. */
  lemma {:induction false} DescriptorAt(blobs: seq<seq<u8>>, h: StreamHeader, i: nat, k: nat, start: nat)
    requires i <= k < |blobs|
    requires forall j :: 0 <= j < k ==> |blobs[j]| < TWO32
    requires start + |Concat(blobs)| < TWO64
    ensures Descriptors(Lengths(blobs), h, i, start + |Concat(blobs[..i])|)[k - i] ==
            FrameDescriptor(start + |Concat(blobs[..k])|, Lengths(blobs)[k],
                            if k + 1 == |blobs| then h.FrameGeometry().1 else h.RegularFrameSamples(),
                            k + 1 == |blobs|)
    decreases k - i
  {
    hide Concat, Descriptors, StreamHeader.FrameGeometry, StreamHeader.RegularFrameSamples;
    var at := start + |Concat(blobs[..i])|;
    NextDescriptor(Lengths(blobs), h, i, at);
    ChunkAt(blobs, i);
    if i < k {
      LengthAt(blobs, i);
      DescriptorAt(blobs, h, i + 1, k, start);
    }
  }

  /** Opening an encoded file finds the header and one descriptor per blob. */
  lemma {:induction false} OpensEncoded(h: StreamHeader, blobs: seq<seq<u8>>, prime: Priming)
    requires h.InScope() && |blobs| == h.FrameGeometry().0
    requires h.format == 2 ==> prime.Some?
    ensures Opened(FileBytes(h, blobs), prime) ==
            Ok(Decoder(h, Descriptors(Lengths(blobs), h, 0, DataStart(|blobs|)), true, FileBytes(h, blobs), prime))
  {
    hide HeaderBody, ParseHeader, SeekTableBytes, SeekTableOf, Descriptors, Concat, Lengths;
    hide StreamHeader.FrameGeometry, StreamHeader.InScope;
    var file := FileBytes(h, blobs);
    var table, data := SeekTableBytes(Lengths(blobs)), Concat(blobs);
    assert file == HeaderBytes(h) + (table + data);
    StartsWithMagic(h, table + data);
    HeaderRoundTrip(h, table + data);
    assert file[0..] == file && file[HEADER_LEN..] == table + data;
    SeekTableRoundTrip(Lengths(blobs), h, DataStart(|blobs|), data);
  }

  lemma StartsWithMagic(h: StreamHeader, rest: seq<u8>)
    ensures SkipId3v2Prefix(HeaderBytes(h) + rest) == Ok(0)
  {
    var file := HeaderBytes(h) + rest;
    assert file[..3][0] == MAGIC[0] != ID3[0];
  }

  /** What the decoder finds for blob `i`, if every entry before it holds its blob's
      length. */
  lemma FrameWindow(h: StreamHeader, blobs: seq<seq<u8>>, prime: Priming, i: nat)
    requires h.InScope() && |blobs| == h.FrameGeometry().0 && |FileBytes(h, blobs)| < TWO64
    requires h.format == 2 ==> prime.Some?
    requires i < |blobs| && forall j :: 0 <= j < i ==> |blobs[j]| < TWO32
    ensures Opened(FileBytes(h, blobs), prime).Ok?
    ensures var dec, at := Opened(FileBytes(h, blobs), prime).value, DataStart(|blobs|) + |Concat(blobs[..i])|;
            && |dec.frames| == |blobs|
            && dec.frames[i].fileOffset == at && dec.frames[i].diskSize == Lengths(blobs)[i]
            && |Concat(blobs[..i + 1])| == |Concat(blobs[..i])| + |blobs[i]|
            && at + |blobs[i]| <= |dec.bytes| && dec.bytes[at..at + |blobs[i]|] == blobs[i]
  {
    hide Descriptors, Lengths, Opened, StreamHeader.FrameGeometry, StreamHeader.RegularFrameSamples;
    hide HeaderBytes, SeekTableBytes, Concat, StreamHeader.InScope;
    OpensEncoded(h, blobs, prime);
    assert blobs[..0] == [];
    ConcatNone<u8>();
    DescriptorAt(blobs, h, 0, i, DataStart(|blobs|));
    ChunkAt(blobs, i);
    SliceBehind(HeaderBytes(h) + SeekTableBytes(Lengths(blobs)), Concat(blobs), |Concat(blobs[..i])|, |blobs[i]|);
  }

  /** The encoder's seek table, parsed back, tiles the file: the first frame starts
      where the table ends, each frame ends where the next one starts, and the last
      one ends at the end of the file; frame `i` occupies exactly blob `i`. */
  lemma SeekTableTilesFile(h: StreamHeader, blobs: seq<seq<u8>>, prime: Priming)
    requires h.InScope() && |blobs| == h.FrameGeometry().0 && Fits(h, blobs)
    requires h.format == 2 ==> prime.Some?
    ensures Opened(FileBytes(h, blobs), prime).Ok?
    ensures var dec, n := Opened(FileBytes(h, blobs), prime).value, |blobs|;
            && dec.header == h && dec.seekTableCrcOk && |dec.frames| == n
            && (n > 0 ==> dec.frames[0].fileOffset == DataStart(n))
            && (n > 0 ==> dec.frames[n - 1].fileOffset + dec.frames[n - 1].diskSize == |dec.bytes|)
            && (forall i :: 0 <= i < n - 1 ==>
                  dec.frames[i].fileOffset + dec.frames[i].diskSize == dec.frames[i + 1].fileOffset)
            && (forall i :: 0 <= i < n ==>
                  dec.frames[i].fileOffset + dec.frames[i].diskSize <= |dec.bytes|
                  && dec.bytes[dec.frames[i].fileOffset..dec.frames[i].fileOffset + dec.frames[i].diskSize] == blobs[i])
  {
    hide Descriptors, Lengths, Opened, StreamHeader.FrameGeometry, StreamHeader.RegularFrameSamples;
    hide HeaderBytes, SeekTableBytes, Concat, StreamHeader.InScope;
    var n := |blobs|;
    OpensEncoded(h, blobs, prime);
    assert blobs[..0] == [] && blobs[..n] == blobs;
    ConcatNone<u8>();
    var dec := Opened(FileBytes(h, blobs), prime).value;
    forall i | 0 <= i < n
      ensures dec.frames[i].fileOffset == DataStart(n) + |Concat(blobs[..i])|
      ensures dec.frames[i].diskSize == |blobs[i]|
      ensures |Concat(blobs[..i + 1])| == |Concat(blobs[..i])| + |blobs[i]|
      ensures dec.frames[i].fileOffset + dec.frames[i].diskSize <= |dec.bytes|
      ensures dec.bytes[dec.frames[i].fileOffset..dec.frames[i].fileOffset + dec.frames[i].diskSize] == blobs[i]
    {
      FrameWindow(h, blobs, prime, i);
      LengthAt(blobs, i);
    }
  }

  lemma SliceBehind(head: seq<u8>, data: seq<u8>, at: nat, len: nat)
    requires at + len <= |data|
    ensures (head + data)[|head| + at..|head| + at + len] == data[at..at + len]
  {
  }

  // ----- contents

  /** No residual of the block is i32::MIN. */
  ghost predicate Clean(chunk: seq<i32>, h: StreamHeader, prime: Priming)
    requires h.InScope()
  {
    WholeSlots(chunk, h.channels) && I32_MIN !in FrameResiduals(chunk, h.channels, h.BytesPerSample(), prime)
  }

  /** Frame `i` of the decoder's file is the encoded `chunk`. */
  ghost predicate ServesFrame(dec: Decoder, h: StreamHeader, chunk: seq<i32>, prime: Priming, i: nat) {
    && h.InScope() && dec.header == h && dec.qmPriming == prime && i < |dec.frames|
    && WholeSlots(chunk, h.channels) && |chunk| == dec.frames[i].sampleCount * h.channels
    && dec.frames[i].diskSize == |FrameBlob(chunk, h.channels, h.BytesPerSample(), prime)|
    && dec.frames[i].fileOffset + dec.frames[i].diskSize <= |dec.bytes|
    && dec.bytes[dec.frames[i].fileOffset..dec.frames[i].fileOffset + dec.frames[i].diskSize]
       == FrameBlob(chunk, h.channels, h.BytesPerSample(), prime)
  }

  /** A decoder over the encoded file, as `OpensEncoded` describes it. */
  ghost predicate Serves(dec: Decoder, h: StreamHeader, chunks: seq<seq<i32>>, prime: Priming) {
    && h.InScope() && dec.header == h && dec.qmPriming == prime
    && |dec.frames| == |chunks|
    && forall i :: 0 <= i < |chunks| ==> ServesFrame(dec, h, chunks[i], prime, i)
  }

  /** Frame by frame: every frame decodes, and to its block exactly when clean. */
  lemma ServedFrame(dec: Decoder, h: StreamHeader, chunk: seq<i32>, prime: Priming, i: nat)
    requires ServesFrame(dec, h, chunk, prime, i)
    ensures dec.FrameAt(i).Ok? && |dec.FrameAt(i).value| == |chunk|
    ensures dec.FrameAt(i).value == FrameSamples(
              CanonicalAll(FrameResiduals(chunk, h.channels, h.BytesPerSample(), prime)),
              h.channels, h.BytesPerSample(), prime)
    ensures dec.FrameAt(i).value == chunk <==> Clean(chunk, h, prime)
  {
    hide FrameResult, FrameBlob, FrameResiduals, FrameSamples, CanonicalAll;
    FrameRoundTrip(h, dec.frames[i], chunk, prime);
    FrameResultLength(h, dec.frames[i], FrameBlob(chunk, h.channels, h.BytesPerSample(), prime), prime);
  }

  lemma FrameResultLength(h: StreamHeader, d: FrameDescriptor, bytes: seq<u8>, prime: Priming)
    requires h.InScope()
    ensures var r := FrameResult(h, d, bytes, prime); r.Ok? ==> |r.value| == d.sampleCount * h.channels
  {
    hide DecodeRun, Crc32.Checksum, Crc32.LeWord;
  }

  /** The frames from `i` on decode, and to their blocks exactly when those are clean. */
  ghost predicate ServedFrom(dec: Decoder, h: StreamHeader, chunks: seq<seq<i32>>, prime: Priming, i: nat)
    requires h.InScope() && dec.header == h && i <= |chunks|
  {
    var r := dec.FramesUpTo(i, |chunks|);
    && r.Ok? && |r.value| == |Concat(chunks[i..])|
    && (r.value == Concat(chunks[i..]) <==> forall j :: i <= j < |chunks| ==> Clean(chunks[j], h, prime))
  }

  lemma {:induction false} ServedStep(dec: Decoder, h: StreamHeader, chunks: seq<seq<i32>>, prime: Priming, i: nat)
    requires h.InScope() && dec.header == h && i < |chunks|
    requires dec.FrameAt(i).Ok? && |dec.FrameAt(i).value| == |chunks[i]|
    requires dec.FrameAt(i).value == chunks[i] <==> Clean(chunks[i], h, prime)
    requires ServedFrom(dec, h, chunks, prime, i + 1)
    ensures ServedFrom(dec, h, chunks, prime, i)
  {
    hide Clean, Decoder.FrameAt, StreamHeader.InScope;
    var x, y := dec.FrameAt(i).value, dec.FramesUpTo(i + 1, |chunks|).value;
    assert chunks[i..][1..] == chunks[i + 1..];
    SplitEqual(x, y, chunks[i], Concat(chunks[i + 1..]));
  }

  lemma {:induction false} ServedFrames(dec: Decoder, h: StreamHeader, chunks: seq<seq<i32>>, prime: Priming, i: nat)
    requires Serves(dec, h, chunks, prime) && i <= |chunks|
    ensures ServedFrom(dec, h, chunks, prime, i)
    decreases |chunks| - i
  {
    if i < |chunks| {
      hide ServesFrame, Clean, Decoder.FrameAt, ServedFrom, StreamHeader.InScope;
      ServedFrame(dec, h, chunks[i], prime, i);
      ServedFrames(dec, h, chunks, prime, i + 1);
      ServedStep(dec, h, chunks, prime, i);
    }
  }

  lemma OnlyFrame(dec: Decoder)
    requires dec.header.InScope() && |dec.frames| == 1
    ensures dec.All() == dec.FrameAt(0)
  {
    hide Decoder.FrameAt;
    assert dec.FramesUpTo(1, 1) == Ok([]);
    if dec.FrameAt(0).Ok? {
      assert dec.FrameAt(0).value + [] == dec.FrameAt(0).value;
    }
  }

  lemma SplitEqual(a: seq<i32>, b: seq<i32>, c: seq<i32>, d: seq<i32>)
    requires |a| == |c|
    ensures a + b == c + d <==> a == c && b == d
  {
    if a + b == c + d {
      assert a == (a + b)[..|a|] && b == (a + b)[|a|..];
      assert c == (c + d)[..|a|] && d == (c + d)[|a|..];
    }
  }

  lemma {:induction false} EncodedServes(samples: seq<i32>, h: StreamHeader, prime: Priming)
    requires h.InScope() && WholeSlots(samples, h.channels) && |samples| == h.totalSamples * h.channels
    requires Fits(h, FrameBlobs(samples, h, prime))
    requires h.format == 2 ==> prime.Some?
    ensures var blobs := FrameBlobs(samples, h, prime);
            && Opened(FileBytes(h, blobs), prime).Ok?
            && Serves(Opened(FileBytes(h, blobs), prime).value, h, Chunks(samples, BlockSize(h)), prime)
  {
    hide FrameBlob, FileBytes, Opened, Chunks, StreamHeader.FrameGeometry, StreamHeader.RegularFrameSamples;
    var blobs, chunks := FrameBlobs(samples, h, prime), Chunks(samples, BlockSize(h));
    ChunksWhole(samples, h);
    ChunksMatchGeometry(samples, h);
    SeekTableTilesFile(h, blobs, prime);
    OpenedValid(FileBytes(h, blobs), prime);
    var dec := Opened(FileBytes(h, blobs), prime).value;
    forall i | 0 <= i < |chunks|
      ensures |chunks[i]| == dec.frames[i].sampleCount * h.channels
      ensures dec.frames[i].diskSize == |blobs[i]| && blobs[i] == FrameBlob(chunks[i], h.channels, h.BytesPerSample(), prime)
    {
    }
  }

  /** No block of the samples has an i32::MIN residual. */
  ghost predicate BlocksClean(samples: seq<i32>, h: StreamHeader, prime: Priming)
    requires h.InScope()
  {
    var chunks := Chunks(samples, BlockSize(h));
    forall j :: 0 <= j < |chunks| ==> Clean(chunks[j], h, prime)
  }

  /** Every encoded file decodes, with as many samples as went in, and gives them back
      exactly when no frame has an i32::MIN residual, for any 32-bit samples. */
  lemma {:induction false} FileRoundTrip(samples: seq<i32>, h: StreamHeader, prime: Priming)
    requires h.InScope() && WholeSlots(samples, h.channels) && |samples| == h.totalSamples * h.channels
    requires Fits(h, FrameBlobs(samples, h, prime))
    requires h.format == 2 ==> prime.Some?
    ensures var blobs := FrameBlobs(samples, h, prime);
            && Opened(FileBytes(h, blobs), prime).Ok?
            && var r := Opened(FileBytes(h, blobs), prime).value.All();
               && r.Ok? && |r.value| == |samples|
               && (r.value == samples <==> BlocksClean(samples, h, prime))
  {
    hide FrameBlobs, FileBytes, Opened, Chunks, Clean, BlockSize, Concat;
    var chunks := Chunks(samples, BlockSize(h));
    EncodedServes(samples, h, prime);
    ServedFrames(Opened(FileBytes(h, FrameBlobs(samples, h, prime)), prime).value, h, chunks, prime, 0);
    ConcatChunks(samples, BlockSize(h));
    assert chunks[0..] == chunks;
  }

  lemma {:induction false} ChunksInRange(xs: seq<i32>, size: nat, bytesPerSample: nat)
    requires size > 0 && InRange(xs, bytesPerSample)
    ensures forall i :: 0 <= i < |Chunks(xs, size)| ==> InRange(Chunks(xs, size)[i], bytesPerSample)
    decreases |xs|
  {
    if |xs| > size {
      ChunksInRange(xs[size..], size, bytesPerSample);
    }
  }

  /** Samples of the declared width are clean under any priming. */
  lemma InRangeClean(samples: seq<i32>, h: StreamHeader, prime: Priming)
    requires h.InScope() && WholeSlots(samples, h.channels) && InRange(samples, h.BytesPerSample())
    ensures BlocksClean(samples, h, prime)
  {
    hide Chunks, BlockSize, FrameResiduals, InRange;
    var chunks := Chunks(samples, BlockSize(h));
    ChunksInRange(samples, BlockSize(h), h.BytesPerSample());
    ChunksWhole(samples, h);
    forall j | 0 <= j < |chunks|
      ensures Clean(chunks[j], h, prime)
    {
      ResidualBound(chunks[j], h.channels, h.BytesPerSample(), prime);
    }
  }

  lemma InRangeFileRoundTrip(samples: seq<i32>, h: StreamHeader, prime: Priming)
    requires h.InScope() && WholeSlots(samples, h.channels) && |samples| == h.totalSamples * h.channels
    requires InRange(samples, h.BytesPerSample())
    requires Fits(h, FrameBlobs(samples, h, prime))
    requires h.format == 2 ==> prime.Some?
    ensures var file := FileBytes(h, FrameBlobs(samples, h, prime));
            && Opened(file, prime).Ok? && Opened(file, prime).value.header == h
            && Opened(file, prime).value.All() == Ok(samples)
  {
    hide FrameBlobs, FileBytes, Opened, InRange, BlocksClean;
    FileRoundTrip(samples, h, prime);
    InRangeClean(samples, h, prime);
    EncodedServes(samples, h, prime);
  }

  /** Input the format can hold: parameters the encoder accepts, samples of the given
      width, and counts and lengths that survive their casts to 32 bits. */
  ghost predicate Encodable(samples: seq<i32>, channels: u16, bits: u16, rate: u32, format: u16, prime: Priming)
    requires format == 1 || format == 2
  {
    match Checked(samples, channels, bits, rate, format)
    case Err(_) => false
    case Ok(h) =>
      && |samples| == h.totalSamples * h.channels
      && InRange(samples, h.BytesPerSample())
      && Fits(h, FrameBlobs(samples, h, prime))
  }

  lemma EncodedOpens(samples: seq<i32>, channels: u16, bits: u16, rate: u32, format: u16, prime: Priming)
    requires format == 1 || (format == 2 && prime.Some?)
    requires Encodable(samples, channels, bits, rate, format, prime)
    ensures match Encoded(samples, channels, bits, rate, format, prime)
            case Err(_) => false
            case Ok(file) =>
              match Opened(file, prime)
              case Err(_) => false
              case Ok(dec) =>
                && dec.header.InScope() && dec.All() == Ok(samples)
                && dec.header == StreamHeader(format, channels, bits, rate, WrapU32(|samples| / channels))
                && dec.header.totalSamples * channels == |samples|
  {
    hide FrameBlobs, FileBytes, Opened, InRange, Decoder.All, Fits, Kept, StreamHeader.BytesPerSample;
    var h := Checked(samples, channels, bits, rate, format).value;
    KeptAll(samples, h);
    InRangeFileRoundTrip(samples, h, prime);
  }

  lemma KeptAll(samples: seq<i32>, h: StreamHeader)
    requires h.InScope() && WholeSlots(samples, h.channels)
    requires h.totalSamples == WrapU32(|samples| / h.channels)
    requires |samples| == h.totalSamples * h.channels
    ensures Kept(samples, h) == samples
  {
  }

  /** Lossless: decoding what the encoder wrote gives exactly the header fields and the
      samples. */
  lemma Lossless(samples: seq<i32>, channels: u16, bits: u16, rate: u32)
    requires Encodable(samples, channels, bits, rate, 1, None)
    ensures match Encoded(samples, channels, bits, rate, 1, None)
            case Err(_) => false
            case Ok(file) =>
              match Decoded(file)
              case Err(_) => false
              case Ok((h, pcm)) =>
                && pcm == samples && h.totalSamples * channels == |samples|
                && h == StreamHeader(1, channels, bits, rate, h.totalSamples)
  {
    hide Encoded, Opened, Encodable, Decoder.All;
    EncodedOpens(samples, channels, bits, rate, 1, None);
  }

  /** Lossless under a password, decoding with the same password. */
  lemma LosslessWithPassword(samples: seq<i32>, channels: u16, bits: u16, rate: u32, password: seq<u8>)
    requires Encodable(samples, channels, bits, rate, 2, Some(Password.Priming(password)))
    ensures match Encoded(samples, channels, bits, rate, 2, Some(Password.Priming(password)))
            case Err(_) => false
            case Ok(file) =>
              match DecodedWithPassword(file, password)
              case Err(_) => false
              case Ok((h, pcm)) =>
                && pcm == samples && h.totalSamples * channels == |samples|
                && h == StreamHeader(2, channels, bits, rate, h.totalSamples)
  {
    hide Encoded, Opened, Encodable, Decoder.All, Password.Priming;
    EncodedOpens(samples, channels, bits, rate, 2, Some(Password.Priming(password)));
  }

  /** The password plays no part for a format 1 stream: same result as without one. */
  lemma PasswordIgnoredForFormatOne(file: seq<u8>, password: seq<u8>)
    requires Opened(file, None) != Err(PasswordRequired)
    ensures DecodedWithPassword(file, password) == Decoded(file)
  {
    hide ParseHeader, SeekTableOf, Decoder.All, Password.Priming, SkipId3v2Prefix;
  }
}
