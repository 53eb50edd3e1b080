/** The file encoder (src/encoder.rs, `encode`, `encode_with_password`, `encode_inner`). */
module Encoder {
  import opened Words
  import opened Results
  import opened Pipeline
  import opened Format
  import opened Frame
  import Crc32
  import Password

  // ----- lists of blocks

  function Concat<T>(xs: seq<seq<T>>): seq<T> {
    if xs == [] then [] else xs[0] + Concat(xs[1..])
  }

  lemma {:induction false} ConcatAppend<T>(a: seq<seq<T>>, b: seq<seq<T>>)
    ensures Concat(a + b) == Concat(a) + Concat(b)
  {
    if a == [] {
      assert a + b == b;
    } else {
      ConcatAppend(a[1..], b);
      assert (a + b)[1..] == a[1..] + b;
      assert a[0] + (Concat(a[1..]) + Concat(b)) == a[0] + Concat(a[1..]) + Concat(b);
    }
  }

  lemma ConcatNone<T>()
    ensures Concat<T>([]) == []
  {
  }

  lemma ConcatOne<T>(x: seq<T>)
    ensures Concat([x]) == x
  {
    assert Concat([x][1..]) == [];
    assert x + [] == x;
  }

  /** `xs` cut into blocks of `size`, the last one possibly shorter. */
  function Chunks(xs: seq<i32>, size: nat): (r: seq<seq<i32>>)
    requires size > 0
    ensures forall i :: 0 <= i < |r| ==> r[i] != []
    decreases |xs|
  {
    if xs == [] then []
    else if |xs| <= size then [xs]
    else [xs[..size]] + Chunks(xs[size..], size)
  }

  lemma {:induction false} ConcatChunks(xs: seq<i32>, size: nat)
    requires size > 0
    ensures Concat(Chunks(xs, size)) == xs
    decreases |xs|
  {
    if 0 < |xs| <= size {
      ConcatOne(xs);
    } else if |xs| > size {
      ConcatChunks(xs[size..], size);
      assert xs == xs[..size] + xs[size..];
      assert Chunks(xs, size)[1..] == Chunks(xs[size..], size);
    }
  }

  // ----- what the encoder writes

  /** One blob per block of samples. */
  function Blobs(chunks: seq<seq<i32>>, h: StreamHeader, prime: Priming): (r: seq<seq<u8>>)
    requires h.InScope()
    requires forall i :: 0 <= i < |chunks| ==> WholeSlots(chunks[i], h.channels)
    ensures |r| == |chunks|
  {
    seq(|chunks|, i requires 0 <= i < |chunks| => FrameBlob(chunks[i], h.channels, h.BytesPerSample(), prime))
  }

  /** `blob.len() as u32` for each blob. */
  function Lengths(blobs: seq<seq<u8>>): (r: seq<u32>)
    ensures |r| == |blobs|
  {
    seq(|blobs|, i requires 0 <= i < |blobs| => WrapU32(|blobs[i]|))
  }

  function FileBytes(h: StreamHeader, blobs: seq<seq<u8>>): seq<u8> {
    HeaderBytes(h) + SeekTableBytes(Lengths(blobs)) + Concat(blobs)
  }

  /** The encoder's input checks, in order. */
  function Checked(samples: seq<i32>, channels: u16, bits: u16, rate: u32, format: u16): (r: Result<StreamHeader>)
    requires format == 1 || format == 2
    ensures r.Ok? ==> r.value.InScope() && WholeSlots(samples, channels)
    ensures r.Ok? ==> r.value == StreamHeader(format, channels, bits, rate, WrapU32(|samples| / channels))
  {
    if channels == 0 || channels > MAX_NCH then Err(UnsupportedChannelCount(channels))
    else if bits < 16 || bits > 24 then Err(UnsupportedBitDepth(bits))
    else if rate == 0 || rate > MAX_SAMPLE_RATE then Err(UnsupportedSampleRate(rate))
    else if |samples| % channels != 0 then Err(InvalidSampleBuffer)
    else Ok(StreamHeader(format, channels, bits, rate, WrapU32(|samples| / channels)))
  }

  /** Samples per full block, all channels together. */
  function BlockSize(h: StreamHeader): (n: nat)
    requires h.InScope()
    ensures n > 0
  {
    MulAtLeast(h.RegularFrameSamples(), h.channels);
    h.RegularFrameSamples() * h.channels
  }

  lemma {:induction false} ChunksWhole(xs: seq<i32>, h: StreamHeader)
    requires h.InScope() && WholeSlots(xs, h.channels)
    ensures forall i :: 0 <= i < |Chunks(xs, BlockSize(h))| ==> WholeSlots(Chunks(xs, BlockSize(h))[i], h.channels)
    decreases |xs|
  {
    var size := BlockSize(h);
    if |xs| > size {
      SlotCount(h.RegularFrameSamples(), h.channels);
      WholeSuffix(|xs|, size, h.channels);
      ChunksWhole(xs[size..], h);
    }
  }

  lemma WholeSuffix(n: nat, size: nat, nch: nat)
    requires nch > 0 && n % nch == 0 && size % nch == 0 && size <= n
    ensures (n - size) % nch == 0
  {
    var a, b := n / nch, size / nch;
    assert n - size == nch * (a - b);
    DivModUnique(n - size, nch, a - b, 0);
  }

  /** The blobs of a sample buffer. */
  function FrameBlobs(samples: seq<i32>, h: StreamHeader, prime: Priming): seq<seq<u8>>
    requires h.InScope() && WholeSlots(samples, h.channels)
  {
    ChunksWhole(samples, h);
    Blobs(Chunks(samples, BlockSize(h)), h, prime)
  }

  /** The complete result of encoding, errors included. */
  function Encoded(samples: seq<i32>, channels: u16, bits: u16, rate: u32, format: u16, prime: Priming): Result<seq<u8>>
    requires format == 1 || format == 2
  {
    match Checked(samples, channels, bits, rate, format)
    case Err(e) => Err(e)
    case Ok(h) => Ok(FileBytes(h, FrameBlobs(Kept(samples, h), h, prime)))
  }

  /** The samples the header counts: all of them, unless the per-channel count was
      truncated to 32 bits. */
  function Kept(samples: seq<i32>, h: StreamHeader): (kept: seq<i32>)
    requires h.InScope() && WholeSlots(samples, h.channels)
    requires h.totalSamples == WrapU32(|samples| / h.channels)
    ensures |kept| == h.totalSamples * h.channels && WholeSlots(kept, h.channels) && kept <= samples
    ensures |samples| / h.channels < TWO32 ==> kept == samples
  {
    var n: int := |samples| / h.channels;
    QuotientBounds(|samples|, h.channels);
    MulMono(h.totalSamples, n, h.channels);
    SlotCount(h.totalSamples, h.channels);
    samples[..h.totalSamples * h.channels]
  }

  // ----- geometry of the blocks

  /** The number of blocks and their sizes are the header's frame geometry. */
  lemma {:induction false} ChunksMatchGeometry(xs: seq<i32>, h: StreamHeader)
    requires h.InScope() && |xs| == h.totalSamples * h.channels
    ensures var (count, last) := h.FrameGeometry();
            var chunks := Chunks(xs, BlockSize(h));
            && |chunks| == count
            && forall i :: 0 <= i < count ==>
                 |chunks[i]| == (if i + 1 == count then last else h.RegularFrameSamples()) * h.channels
    decreases |xs|
  {
    if h.totalSamples <= h.RegularFrameSamples() {
      OneChunk(xs, h);
    } else {
      hide StreamHeader.FrameGeometry, StreamHeader.RegularFrameSamples, BlockSize;
      var size, rest := BlockSize(h), h.(totalSamples := h.totalSamples - h.RegularFrameSamples());
      StepGeometry(h);
      FirstChunk(xs, h);
      ChunksMatchGeometry(xs[size..], rest);
      var tail := Chunks(xs[size..], size);
      assert Chunks(xs, size) == [xs[..size]] + tail;
      assert forall i :: 1 <= i <= |tail| ==> Chunks(xs, size)[i] == tail[i - 1];
    }
  }

  lemma OneChunk(xs: seq<i32>, h: StreamHeader)
    requires h.InScope() && |xs| == h.totalSamples * h.channels && h.totalSamples <= h.RegularFrameSamples()
    ensures Chunks(xs, BlockSize(h)) == if h.totalSamples == 0 then [] else [xs]
    ensures h.FrameGeometry() == if h.totalSamples == 0 then (0, 0) else (1, h.totalSamples)
  {
    hide StreamHeader.FrameGeometry;
    MulMono(h.totalSamples, h.RegularFrameSamples(), h.channels);
    ShortGeometry(h);
    if h.totalSamples == 0 {
      assert xs == [];
    } else {
      MulAtLeast(h.channels, h.totalSamples);
    }
  }

  lemma FirstChunk(xs: seq<i32>, h: StreamHeader)
    requires h.InScope() && |xs| == h.totalSamples * h.channels && h.totalSamples > h.RegularFrameSamples()
    ensures BlockSize(h) == h.RegularFrameSamples() * h.channels < |xs|
    ensures |xs[BlockSize(h)..]| == (h.totalSamples - h.RegularFrameSamples()) * h.channels
  {
    var rest: int := h.totalSamples - h.RegularFrameSamples();
    assert rest * h.channels == |xs| - BlockSize(h);
    MulAtLeast(h.channels, rest);
  }

  lemma MulMono(a: int, b: int, k: nat)
    requires a <= b
    ensures a * k <= b * k
  {
  }

  lemma ShortGeometry(h: StreamHeader)
    requires h.InScope() && h.totalSamples <= h.RegularFrameSamples()
    ensures h.FrameGeometry() == if h.totalSamples == 0 then (0, 0) else (1, h.totalSamples)
  {
    var total: int, regular: int := h.totalSamples, h.RegularFrameSamples();
    if total == regular {
      DivModUnique(total, regular, 1, 0);
    } else {
      DivModUnique(total, regular, 0, total);
    }
  }

  lemma StepGeometry(h: StreamHeader)
    requires h.InScope() && h.totalSamples > h.RegularFrameSamples()
    ensures var rest := h.(totalSamples := h.totalSamples - h.RegularFrameSamples());
            && h.FrameGeometry() == (rest.FrameGeometry().0 + 1, rest.FrameGeometry().1)
            && rest.RegularFrameSamples() == h.RegularFrameSamples() && BlockSize(rest) == BlockSize(h)
  {
    var total: int, regular: int := h.totalSamples, h.RegularFrameSamples();
    var rest := h.(totalSamples := h.totalSamples - h.RegularFrameSamples());
    assert rest.RegularFrameSamples() == regular;
    DivStep(total, regular);
    QuotientBounds(total, regular);
    QuotientBounds(total - regular, regular);
    ModOne(total);
    if total % regular != 0 {
      assert regular >= 2;
      WrapU32Same(total / regular + 1);
      WrapU32Same(total / regular);
    }
  }

  // ----- the encoder

  method EncodeInner(samples: seq<i32>, channels: u16, bits: u16, rate: u32, format: u16, prime: Priming)
    returns (r: Result<seq<u8>>)
    requires format == 1 || format == 2
    ensures r == Encoded(samples, channels, bits, rate, format, prime)
  {
    hide HeaderBody, SeekTableBytes, Crc32.Checksum, Crc32.WordBytes, FrameBlob, Chunks, Concat, Kept;
    var checked := Checked(samples, channels, bits, rate, format);
    if checked.Err? {
      return Err(checked.error);
    }
    var h := checked.value;
    var blobs := EncodeFrames(Kept(samples, h), h, prime);
    assert blobs[..0] == [];
    ConcatNone<u8>();
    var file := HeaderBytes(h) + SeekTableBytes(Lengths(blobs));
    ghost var head := file;
    for i := 0 to |blobs|
      invariant file == head + Concat(blobs[..i])
    {
      ConcatAppend(blobs[..i], [blobs[i]]);
      ConcatOne(blobs[i]);
      assert blobs[..i] + [blobs[i]] == blobs[..i + 1];
      file := file + blobs[i];
    }
    assert blobs[..|blobs|] == blobs;
    r := Ok(file);
  }

  /** The frame loop. */
  method EncodeFrames(samples: seq<i32>, h: StreamHeader, prime: Priming) returns (blobs: seq<seq<u8>>)
    requires h.InScope() && WholeSlots(samples, h.channels)
    requires |samples| == h.totalSamples * h.channels
    ensures blobs == FrameBlobs(samples, h, prime)
  {
    hide FrameBlob, Chunks, StreamHeader.FrameGeometry, StreamHeader.RegularFrameSamples, BlockSize;
    var (frameCount, lastSamples) := h.FrameGeometry();
    var regular := h.RegularFrameSamples();
    ghost var chunks := Chunks(samples, BlockSize(h));
    ChunksMatchGeometry(samples, h);
    ChunksWhole(samples, h);
    ConcatChunks(samples, BlockSize(h));
    blobs := [];
    var cursor := 0;
    assert chunks[..0] == [];
    for i := 0 to frameCount
      invariant cursor == |Concat(chunks[..i])|
      invariant blobs == Blobs(chunks, h, prime)[..i]
    {
      var isLast := i + 1 == frameCount;
      var n := (if isLast then lastSamples else regular) * h.channels;
      ChunkAt(chunks, i);
      var blob := EncodeOneFrame(samples[cursor..cursor + n], h.channels, h.BytesPerSample(), prime);
      blobs := blobs + [blob];
      cursor := cursor + n;
    }
  }

  /** Where block `i` lies in the concatenation. */
  lemma ChunkAt<T>(xs: seq<seq<T>>, i: nat)
    requires i < |xs|
    ensures var at := |Concat(xs[..i])|;
            && at + |xs[i]| <= |Concat(xs)|
            && Concat(xs)[at..at + |xs[i]|] == xs[i]
            && |Concat(xs[..i + 1])| == at + |xs[i]|
  {
    hide Concat;
    ConcatAppend(xs[..i], [xs[i]]);
    ConcatOne(xs[i]);
    assert xs[..i] + [xs[i]] == xs[..i + 1];
    ConcatAppend(xs[..i + 1], xs[i + 1..]);
    assert xs[..i + 1] + xs[i + 1..] == xs;
    var a, b, c := Concat(xs[..i]), xs[i], Concat(xs[i + 1..]);
    assert (a + b + c)[|a|..|a| + |b|] == b;
  }

  method Encode(samples: seq<i32>, channels: u16, bits: u16, rate: u32) returns (r: Result<seq<u8>>)
    ensures r == Encoded(samples, channels, bits, rate, 1, None)
  {
    r := EncodeInner(samples, channels, bits, rate, 1, None);
  }

  method EncodeWithPassword(samples: seq<i32>, channels: u16, bits: u16, rate: u32, password: seq<u8>)
    returns (r: Result<seq<u8>>)
    ensures r == Encoded(samples, channels, bits, rate, 2, Some(Password.Priming(password)))
  {
    var priming := Password.DeriveQmPriming(password);
    r := EncodeInner(samples, channels, bits, rate, 2, Some(priming));
  }
}
