/** Where everything lies, byte by byte and bit by bit, and which error each fault gives. */
module Layout {
  import opened Words
  import opened Bits
  import opened Results
  import opened Pipeline
  import opened Format
  import opened Frame
  import opened FrameTheorems
  import opened Encoder
  import opened Decoder
  import opened EndToEnd
  import Crc32
  import Password

  // ----- bits of bytes

  lemma {:induction false} BitsNatAppend(a: Bits, b: Bits)
    ensures BitsNat(a + b) == BitsNat(a) + Pow2(|a|) * BitsNat(b)
    decreases |a|
  {
    if a == [] {
      assert a + b == b;
    } else {
      hide BitsNat, Pow2;
      assert (a + b)[1..] == a[1..] + b;
      BitsNatAppend(a[1..], b);
      FirstBit(a);
      FirstBit(a + b);
      PowerUp(|a|);
      TwiceAsMuch(Pow2(|a| - 1), BitsNat(b));
    }
  }

  lemma FirstBit(s: Bits)
    requires s != []
    ensures BitsNat(s) == (if s[0] then 1 else 0) + 2 * BitsNat(s[1..])
  {
  }

  lemma PowerUp(n: nat)
    requires n > 0
    ensures Pow2(n) == 2 * Pow2(n - 1)
  {
  }

  lemma TwiceAsMuch(p: int, x: int)
    ensures 2 * (p * x) == (2 * p) * x
  {
  }

  lemma {:induction false} OneByte(b: u8)
    ensures BitsNat(BytesBits([b])) == b
  {
    assert [b][0..1] == [b];
    SingleByteBits([b], 0);
    Pow2Values();
    hide Pow2, NatBits, BitsNat, BytesBits;
    NatRoundTripBelow(b, 8);
  }

  lemma NextByte(b: u8, bs: seq<u8>)
    ensures BitsNat(BytesBits([b] + bs)) == b + 0x100 * BitsNat(BytesBits(bs))
  {
    hide BytesBits, BitsNat;
    BytesBitsAppend([b], bs);
    BitsNatAppend(BytesBits([b]), BytesBits(bs));
    OneByte(b);
    Pow2Values();
  }

  /** The first thirty-two bits of a body are its first four bytes as a little-endian
      number. */
  lemma FirstBits(body: seq<u8>)
    requires |body| >= 4
    ensures BitsNat(BytesBits(body)[..32]) == FromLe32(body[..4])
  {
    hide BytesBits, BitsNat, FromLe32;
    var s := body[..4];
    BytesBitsSlice(body, 0, 4);
    assert BytesBits(body)[0..32] == BytesBits(body)[..32] && body[0..4] == s;
    FourBytes(s);
  }

  lemma FourBytes(s: seq<u8>)
    requires |s| == 4
    ensures BitsNat(BytesBits(s)) == FromLe32(s)
  {
    hide BytesBits, BitsNat;
    assert s == [s[0]] + ([s[1]] + ([s[2]] + [s[3]]));
    NextByte(s[0], [s[1]] + ([s[2]] + [s[3]]));
    NextByte(s[1], [s[2]] + [s[3]]);
    NextByte(s[2], [s[3]]);
    OneByte(s[3]);
  }

  // ----- the header

  /** The twenty-two bytes of a header: the letters TTA1, five little-endian fields in
      their order, and the checksum of the eighteen bytes before it. */
  lemma HeaderLayout(h: StreamHeader)
    ensures var file, b: seq<int> := HeaderBytes(h), HeaderBytes(h);
            && |b| == 22
            && b[0] == 'T' as int && b[1] == 'T' as int && b[2] == 'A' as int && b[3] == '1' as int
            && h.format == b[4] + 0x100 * b[5]
            && h.channels == b[6] + 0x100 * b[7]
            && h.bitsPerSample == b[8] + 0x100 * b[9]
            && h.sampleRate == b[10] + 0x100 * b[11] + 0x1_0000 * b[12] + 0x100_0000 * b[13]
            && h.totalSamples == b[14] + 0x100 * b[15] + 0x1_0000 * b[16] + 0x100_0000 * b[17]
            && Crc32.LeWord(file[18..22]) == Crc32.Checksum(file[..18])
  {
    hide Crc32.Checksum, Crc32.LeWord, Crc32.WordBytes, Le16, Le32;
    var b, crc := HeaderBytes(h), Crc32.Checksum(HeaderBody(h));
    assert b[..18] == HeaderBody(h) && b[18..22] == Crc32.WordBytes(crc);
    Crc32.WordBytesLe(crc);
    TwoByteField(h.format);
    TwoByteField(h.channels);
    TwoByteField(h.bitsPerSample);
    FourByteField(h.sampleRate);
    FourByteField(h.totalSamples);
    HeaderFields(h);
  }

  lemma TwoByteField(x: u16)
    ensures var b: seq<int> := Le16(x); x == b[0] + 0x100 * b[1]
  {
  }

  lemma FourByteField(x: u32)
    ensures var b: seq<int> := Le32(x); x == b[0] + 0x100 * b[1] + 0x1_0000 * b[2] + 0x100_0000 * b[3]
  {
  }

  lemma HeaderFields(h: StreamHeader)
    ensures var b := HeaderBody(h);
            && b[0] == 'T' as int && b[1] == 'T' as int && b[2] == 'A' as int && b[3] == '1' as int
            && [b[4], b[5]] == Le16(h.format) && [b[6], b[7]] == Le16(h.channels)
            && [b[8], b[9]] == Le16(h.bitsPerSample)
            && [b[10], b[11], b[12], b[13]] == Le32(h.sampleRate)
            && [b[14], b[15], b[16], b[17]] == Le32(h.totalSamples)
  {
    hide Le16, Le32;
  }

  // ----- the encoder's errors

  /** The encoder refuses, in this order, a channel count outside 1 to 6, a depth outside
      16 to 24, a rate outside 1 to 0x7FFFFF and a buffer of incomplete slots, each with
      its own error; it accepts everything else. */
  lemma EncoderErrors(samples: seq<i32>, channels: u16, bits: u16, rate: u32, format: u16, prime: Priming)
    requires format == 1 || format == 2
    ensures var r := Encoded(samples, channels, bits, rate, format, prime);
            var channelsOk, bitsOk, rateOk := 1 <= channels <= 6, 16 <= bits <= 24, 1 <= rate <= 0x7F_FFFF;
            && (r == Err(UnsupportedChannelCount(channels)) <==> !channelsOk)
            && (r == Err(UnsupportedBitDepth(bits)) <==> channelsOk && !bitsOk)
            && (r == Err(UnsupportedSampleRate(rate)) <==> channelsOk && bitsOk && !rateOk)
            && (r == Err(InvalidSampleBuffer) <==> channelsOk && bitsOk && rateOk && |samples| % channels != 0)
            && (r.Ok? <==> channelsOk && bitsOk && rateOk && |samples| % channels == 0)
  {
    hide FrameBlobs, Kept, FileBytes;
  }

  // ----- the decoder's errors

  /** What a complete header with a good checksum is refused for. */
  lemma HeaderErrors(h: StreamHeader, rest: seq<u8>)
    ensures var r := ParseHeader(HeaderBytes(h) + rest);
            var formatOk, channelsOk := h.format == 1 || h.format == 2, 1 <= h.channels <= 6;
            var bitsOk, rateOk := 16 <= h.bitsPerSample <= 24, 1 <= h.sampleRate <= 0x7F_FFFF;
            && (!formatOk ==> r == Err(UnsupportedFormat(h.format)))
            && (formatOk && !channelsOk ==> r == Err(UnsupportedChannelCount(h.channels)))
            && (formatOk && channelsOk && !bitsOk ==> r == Err(UnsupportedBitDepth(h.bitsPerSample)))
            && (formatOk && channelsOk && bitsOk && !rateOk ==> r == Err(UnsupportedSampleRate(h.sampleRate)))
            && (formatOk && channelsOk && bitsOk && rateOk ==> r == Ok(h))
  {
    hide Crc32.LeWord, Crc32.WordBytes, Crc32.Checksum, Le16, Le32, FromLe16, FromLe32;
    var buf := HeaderBytes(h) + rest;
    Crc32.WordBytesLe(Crc32.Checksum(HeaderBody(h)));
    assert buf[..18] == HeaderBody(h) && buf[18..22] == Crc32.WordBytes(Crc32.Checksum(HeaderBody(h)));
    assert buf[0..4] == MAGIC;
    assert buf[4..6] == Le16(h.format) && buf[6..8] == Le16(h.channels) && buf[8..10] == Le16(h.bitsPerSample);
    assert buf[10..14] == Le32(h.sampleRate) && buf[14..18] == Le32(h.totalSamples);
    Le16RoundTrip(h.format);
    Le16RoundTrip(h.channels);
    Le16RoundTrip(h.bitsPerSample);
    Le32RoundTrip(h.sampleRate);
    Le32RoundTrip(h.totalSamples);
  }

  /** Faults before the fields: too short, then a wrong magic, then a wrong checksum. */
  lemma HeaderFaults(buf: seq<u8>)
    ensures |buf| < 22 <==> ParseHeader(buf) == Err(Truncated)
    ensures |buf| >= 22 && buf[..4] != [0x54, 0x54, 0x41, 0x31] <==> ParseHeader(buf) == Err(InvalidMagic)
    ensures |buf| >= 22 && buf[..4] == [0x54, 0x54, 0x41, 0x31] && Crc32.LeWord(buf[18..22]) != Crc32.Checksum(buf[..18])
            <==> ParseHeader(buf) == Err(Crc32Mismatch(HeaderRegion))
  {
    hide Crc32.LeWord, Crc32.Checksum;
  }

  /** A frame is cut short, or its bits run out, or its checksum is wrong, in this order. */
  lemma FrameErrors(h: StreamHeader, d: FrameDescriptor, bytes: seq<u8>, prime: Priming)
    requires h.InScope()
    ensures |bytes| < d.diskSize || d.diskSize < 4 ==> FrameResult(h, d, bytes, prime) == Err(Truncated)
    ensures (d.sampleCount * h.channels) % h.channels == 0
    ensures 4 <= d.diskSize <= |bytes| ==>
              var body, stored := bytes[..d.diskSize - 4], bytes[d.diskSize - 4..d.diskSize];
              match BodySamples(body, h.channels, h.BytesPerSample(), prime, d.sampleCount * h.channels)
              case None => FrameResult(h, d, bytes, prime) == Err(Truncated)
              case Some(pcm) =>
                FrameResult(h, d, bytes, prime) ==
                  if Crc32.LeWord(stored) == Crc32.Checksum(body) then Ok(pcm) else Err(Crc32Mismatch(FrameRegion))
  {
    hide BodySamples, Crc32.LeWord, Crc32.Checksum;
    SlotCount(d.sampleCount, h.channels);
    if 4 <= d.diskSize <= |bytes| {
      GateRejectsNothingDecodable(bytes[..d.diskSize - 4], h.channels, h.BytesPerSample(), prime, d.sampleCount * h.channels);
    }
  }

  /** A file encoded under a password is not decoded without one. */
  lemma PasswordNeeded(samples: seq<i32>, h: StreamHeader, prime: Priming)
    requires h.InScope() && h.format == 2 && WholeSlots(samples, h.channels)
    ensures Decoded(FileBytes(h, FrameBlobs(samples, h, prime))) == Err(PasswordRequired)
  {
    hide HeaderBytes, ParseHeader, SeekTableBytes, SkipId3v2Prefix, FrameBlobs, SeekTableOf;
    var blobs := FrameBlobs(samples, h, prime);
    var rest := SeekTableBytes(Lengths(blobs)) + Concat(blobs);
    assert FileBytes(h, blobs) == HeaderBytes(h) + rest;
    StartsWithMagic(h, rest);
    HeaderRoundTrip(h, rest);
    assert (HeaderBytes(h) + rest)[0..] == HeaderBytes(h) + rest;
  }

  /** A frame index past the table has its own error; a window past the end of the file is
      Truncated. */
  lemma WindowErrors(dec: Decoder, i: nat)
    requires dec.header.InScope()
    ensures i >= |dec.frames| ==> dec.FrameAt(i) == Err(FrameIndexOutOfRange)
    ensures i < |dec.frames| && dec.frames[i].fileOffset + dec.frames[i].diskSize > |dec.bytes| ==>
              dec.FrameAt(i) == Err(Truncated)
  {
    hide FrameResult;
  }

  /** Opening stops at the first fault of tag, header, password and table, in this order;
      a table cut short is Truncated. */
  lemma OpeningErrors(bytes: seq<u8>, prime: Priming)
    ensures SkipId3v2Prefix(bytes).Err? ==> Opened(bytes, prime) == Err(SkipId3v2Prefix(bytes).error)
    ensures SkipId3v2Prefix(bytes).Ok? ==>
              match ParseHeader(bytes[SkipId3v2Prefix(bytes).value..])
              case Err(e) => Opened(bytes, prime) == Err(e)
              case Ok(h) =>
                var tableEnd := SkipId3v2Prefix(bytes).value + 22 + 4 * h.FrameGeometry().0 + 4;
                if h.format == 2 && prime == None then Opened(bytes, prime) == Err(PasswordRequired)
                else if |bytes| < tableEnd then Opened(bytes, prime) == Err(Truncated)
                else Opened(bytes, prime).Ok? && Opened(bytes, prime).value.header == h
  {
    hide SkipId3v2Prefix, ParseHeader, TableOf, StreamHeader.FrameGeometry, StreamHeader.InScope;
  }

  /** Decoding a whole file fails as opening it does, or as its first bad frame does. */
  lemma DecodingErrors(bytes: seq<u8>, password: seq<u8>)
    ensures Opened(bytes, None).Err? ==> Decoded(bytes) == Err(Opened(bytes, None).error)
    ensures match Opened(bytes, None)
            case Err(_) => true
            case Ok(dec) => dec.header.InScope() && (dec.All().Err? ==> Decoded(bytes) == Err(dec.All().error))
    ensures var prime := Some(Password.Priming(password));
            Opened(bytes, prime).Err? ==> DecodedWithPassword(bytes, password) == Err(Opened(bytes, prime).error)
  {
    hide Opened, Decoder.FramesUpTo, Password.Priming;
  }

  /** The bytes of the entries from `i` up to `k`. */
  function Sizes(entries: seq<u32>, i: nat, k: nat): nat
    requires i <= k <= |entries|
    decreases k - i
  {
    if i == k then 0 else entries[i] + Sizes(entries, i + 1, k)
  }

  /** Frame `k` starts after all frames before it, or at 2^64 - 1 once they would reach
      that far. */
  lemma {:induction false} Offsets(entries: seq<u32>, h: StreamHeader, i: nat, k: nat, offset: nat)
    requires i <= k < |entries| && offset < TWO64
    ensures var at := offset + Sizes(entries, i, k);
            Descriptors(entries, h, i, offset)[k - i].fileOffset == if at < TWO64 then at else TWO64 - 1
    decreases k - i
  {
    hide StreamHeader.FrameGeometry, StreamHeader.RegularFrameSamples;
    NextDescriptor(entries, h, i, offset);
    if i < k {
      Offsets(entries, h, i + 1, k, SaturatingAdd(offset, entries[i]));
    }
  }
}
