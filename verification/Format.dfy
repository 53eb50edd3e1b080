/** Stream header, frame geometry and seek table (src/header.rs). */
module Format {
  import opened Words
  import opened Results
  import Crc32

  const MAX_NCH: u16 := 6
  const MAX_SAMPLE_RATE: u32 := 0x7F_FFFF
  const HEADER_LEN: nat := 22

  // ----- little-endian integers

  function Le16(x: u16): (r: seq<u8>)
    ensures |r| == 2
  {
    [x % 0x100, x / 0x100]
  }

  function Le32(x: u32): (r: seq<u8>)
    ensures |r| == 4
  {
    var x1 := x / 0x100;
    var x2 := x1 / 0x100;
    var x3 := x2 / 0x100;
    [x % 0x100, x1 % 0x100, x2 % 0x100, x3]
  }

  function FromLe16(s: seq<u8>): u16
    requires |s| == 2
  {
    var lo: int, hi: int := s[0], s[1];
    lo + 0x100 * hi
  }

  function FromLe32(s: seq<u8>): u32
    requires |s| == 4
  {
    var a: int, b: int, c: int, d: int := s[0], s[1], s[2], s[3];
    a + 0x100 * (b + 0x100 * (c + 0x100 * d))
  }

  lemma Le16RoundTrip(x: u16)
    ensures FromLe16(Le16(x)) == x
  {
  }

  lemma Le32RoundTrip(x: u32)
    ensures FromLe32(Le32(x)) == x
  {
  }

  lemma FromLe32RoundTrip(s: seq<u8>)
    requires |s| == 4
    ensures Le32(FromLe32(s)) == s
  {
    var a: int, b: int, c: int, d: int := s[0], s[1], s[2], s[3];
    var x2 := c + 0x100 * d;
    var x1 := b + 0x100 * x2;
    assert (a + 0x100 * x1) / 0x100 == x1 && (b + 0x100 * x2) / 0x100 == x2;
  }

  /** Little-endian conversion to a register and to an integer agree: both are undone by
      the same bytes, so stored words are equal as registers exactly when they are equal
      as integers. */
  lemma RegistersAreIntegers(s: seq<u8>, t: seq<u8>)
    requires |s| == 4 && |t| == 4
    ensures Crc32.WordBytes(Crc32.LeWord(s)) == Le32(FromLe32(s))
    ensures Crc32.LeWord(s) == Crc32.LeWord(t) <==> FromLe32(s) == FromLe32(t)
  {
    hide Crc32.LeWord, Crc32.WordBytes, Le32, FromLe32;
    Crc32.LeWordBytes(s);
    Crc32.LeWordBytes(t);
    FromLe32RoundTrip(s);
    FromLe32RoundTrip(t);
  }

  // ----- the stream header

  datatype StreamHeader = StreamHeader(
    format: u16, channels: u16, bitsPerSample: u16, sampleRate: u32, totalSamples: u32)
  {
    /** What the parser accepts. */
    predicate InScope() {
      && (format == 1 || format == 2)
      && 1 <= channels <= MAX_NCH
      && 16 <= bitsPerSample <= 24
      && 1 <= sampleRate <= MAX_SAMPLE_RATE
    }

    function BytesPerSample(): (n: nat)
      ensures InScope() ==> n == if bitsPerSample == 16 then 2 else 3
    {
      (bitsPerSample + 7) / 8
    }

    /** Per-channel samples of a frame other than the last. */
    function RegularFrameSamples(): (n: u32)
      ensures InScope() ==> 1 <= n == sampleRate * 256 / 245 <= 8_765_238
    {
      WrapU32(sampleRate * 256 / 245)
    }

    /** Frame count and per-channel samples of the last frame. */
    function FrameGeometry(): (u32, u32) {
      var regular := RegularFrameSamples();
      if regular == 0 || totalSamples == 0 then (0, 0)
      else if totalSamples % regular == 0 then (totalSamples / regular, regular)
      else (WrapU32(totalSamples / regular + 1), totalSamples % regular)
    }
  }

  const MAGIC: seq<u8> := [0x54, 0x54, 0x41, 0x31]

  /** The 18 bytes the header checksum covers. */
  function HeaderBody(h: StreamHeader): (r: seq<u8>)
    ensures |r| == 18
  {
    MAGIC + Le16(h.format) + Le16(h.channels) + Le16(h.bitsPerSample) + Le32(h.sampleRate) + Le32(h.totalSamples)
  }

  function HeaderBytes(h: StreamHeader): (r: seq<u8>)
    ensures |r| == HEADER_LEN
  {
    HeaderBody(h) + Crc32.WordBytes(Crc32.Checksum(HeaderBody(h)))
  }

  /** `parse_stream_header_with_crc`. */
  function ParseHeader(buf: seq<u8>): (r: Result<StreamHeader>)
    ensures r.Ok? ==> r.value.InScope() && HEADER_LEN <= |buf|
  {
    if |buf| < HEADER_LEN then Err(Truncated)
    else if buf[0..4] != MAGIC then Err(InvalidMagic)
    else if Crc32.LeWord(buf[18..22]) != Crc32.Checksum(buf[..18]) then Err(Crc32Mismatch(HeaderRegion))
    else
      var format := FromLe16(buf[4..6]);
      var channels := FromLe16(buf[6..8]);
      var bits := FromLe16(buf[8..10]);
      var rate := FromLe32(buf[10..14]);
      var total := FromLe32(buf[14..18]);
      if format != 1 && format != 2 then Err(UnsupportedFormat(format))
      else if channels == 0 || channels > MAX_NCH then Err(UnsupportedChannelCount(channels))
      else if bits < 16 || bits > 24 then Err(UnsupportedBitDepth(bits))
      else if rate == 0 || rate > MAX_SAMPLE_RATE then Err(UnsupportedSampleRate(rate))
      else Ok(StreamHeader(format, channels, bits, rate, total))
  }

  /** Every in-scope header is parsed back from its own bytes, whatever follows. */
  lemma HeaderRoundTrip(h: StreamHeader, rest: seq<u8>)
    requires h.InScope()
    ensures ParseHeader(HeaderBytes(h) + rest) == Ok(h)
  {
    hide Crc32.LeWord, Crc32.WordBytes, Crc32.Checksum, Le16, Le32, FromLe16, FromLe32;
    var buf := HeaderBytes(h) + rest;
    Crc32.WordBytesLe(Crc32.Checksum(HeaderBody(h)));
    assert buf[..18] == HeaderBody(h) && buf[18..22] == Crc32.WordBytes(Crc32.Checksum(HeaderBody(h)));
    assert buf[0..4] == MAGIC;
    assert buf[4..6] == Le16(h.format) && buf[6..8] == Le16(h.channels) && buf[8..10] == Le16(h.bitsPerSample);
    assert buf[10..14] == Le32(h.sampleRate) && buf[14..18] == Le32(h.totalSamples);
    Le16RoundTrip(h.format);
    Le16RoundTrip(h.channels);
    Le16RoundTrip(h.bitsPerSample);
    Le32RoundTrip(h.sampleRate);
    Le32RoundTrip(h.totalSamples);
  }

  /** A header changed anywhere inside one four-byte window of its checked bytes
      4 to 21 is never accepted. */
  lemma HeaderBurstRejected(buf: seq<u8>, buf': seq<u8>, at: nat)
    requires ParseHeader(buf).Ok?
    requires |buf'| >= HEADER_LEN && 4 <= at <= 18
    requires Crc32.DifferInWindow(buf[..22], buf'[..22], at)
    ensures ParseHeader(buf') == Err(Crc32Mismatch(HeaderRegion))
  {
    hide Crc32.LeWord, Crc32.Checksum;
    assert buf[..22] == buf[..18] + buf[18..22] && buf'[..22] == buf'[..18] + buf'[18..22];
    Crc32.BurstDetected(buf[..18], buf[18..22], buf'[..18], buf'[18..22], at);
    assert buf'[0..4] == buf'[..22][..at][0..4] == buf[..22][..at][0..4] == buf[0..4];
  }

  // ----- frame geometry

  /** The geometry tiles the stream: the last frame is non-empty and no longer than a
      regular one, and the frames together hold every sample. */
  lemma GeometryTiles(h: StreamHeader)
    requires h.InScope()
    ensures var (count, last) := h.FrameGeometry();
            var regular := h.RegularFrameSamples();
            && (count == 0 <==> h.totalSamples == 0)
            && (count > 0 ==> 1 <= last <= regular && (count - 1) * regular + last == h.totalSamples)
  {
    hide StreamHeader.RegularFrameSamples, WrapU32;
    var total: int, regular: int := h.totalSamples, h.RegularFrameSamples();
    var q: int := total / regular;
    QuotientBounds(total, regular);
    assert (q - 1) * regular + regular == regular * q;
    if total % regular != 0 {
      assert regular >= 2 by { ModOne(total); }
      WrapU32Same(q + 1);
    } else if total > 0 {
      assert q >= 1 by { MulAtLeast(regular, q); }
    }
  }

  lemma ModOne(x: int)
    ensures x % 1 == 0
  {
  }

  // ----- the seek table

  datatype FrameDescriptor = FrameDescriptor(fileOffset: nat, diskSize: u32, sampleCount: u32, isLast: bool)

  /** Descriptors of the entries from index `i` on, the first starting at `offset`. */
  function Descriptors(entries: seq<u32>, h: StreamHeader, i: nat, offset: nat): (r: seq<FrameDescriptor>)
    requires i <= |entries|
    ensures |r| == |entries| - i
    decreases |entries| - i
  {
    if i == |entries| then []
    else
      var isLast := i + 1 == |entries|;
      var count := if isLast then h.FrameGeometry().1 else h.RegularFrameSamples();
      [FrameDescriptor(offset, entries[i], count, isLast)]
      + Descriptors(entries, h, i + 1, SaturatingAdd(offset, entries[i]))
  }

  /** `u64::saturating_add`. */
  function SaturatingAdd(x: nat, y: nat): nat {
    if x + y < TWO64 then x + y else TWO64 - 1
  }

  function EntryBytes(entries: seq<u32>): (r: seq<u8>)
    ensures |r| == 4 * |entries|
  {
    if entries == [] then [] else Le32(entries[0]) + EntryBytes(entries[1..])
  }

  function Entries(bytes: seq<u8>): (r: seq<u32>)
    requires |bytes| % 4 == 0
    ensures |r| == |bytes| / 4
  {
    seq(|bytes| / 4, i requires 0 <= i < |bytes| / 4 => FromLe32(bytes[4 * i..4 * i + 4]))
  }

  lemma {:induction false} EntriesRoundTrip(entries: seq<u32>)
    ensures Entries(EntryBytes(entries)) == entries
  {
    hide Le32, FromLe32;
    var bytes := EntryBytes(entries);
    if entries != [] {
      EntriesRoundTrip(entries[1..]);
      var tail := EntryBytes(entries[1..]);
      forall i | 0 <= i < |entries|
        ensures Entries(bytes)[i] == entries[i]
      {
        if i == 0 {
          assert bytes[0..4] == Le32(entries[0]);
          Le32RoundTrip(entries[0]);
        } else {
          assert bytes[4 * i..4 * i + 4] == tail[4 * (i - 1)..4 * (i - 1) + 4];
          assert Entries(tail)[i - 1] == entries[1..][i - 1];
        }
      }
    }
  }

  function SeekTableBytes(entries: seq<u32>): (r: seq<u8>)
    ensures |r| == 4 * |entries| + 4
  {
    EntryBytes(entries) + Crc32.WordBytes(Crc32.Checksum(EntryBytes(entries)))
  }

  datatype SeekTable = SeekTable(frames: seq<FrameDescriptor>, crcOk: bool)

  /** The table of `count` entries at the start of `buf`. */
  function TableOf(buf: seq<u8>, count: nat, h: StreamHeader, frameDataStart: nat): SeekTable
    requires 4 * count + 4 <= |buf|
  {
    var n := 4 * count;
    SeekTable(Descriptors(Entries(buf[..n]), h, 0, frameDataStart),
              Crc32.LeWord(buf[n..n + 4]) == Crc32.Checksum(buf[..n]))
  }

  /** What `parse_seek_table` returns. */
  function SeekTableOf(buf: seq<u8>, h: StreamHeader, frameDataStart: nat): Result<SeekTable> {
    var count := h.FrameGeometry().0;
    if |buf| < 4 * count + 4 then Err(Truncated) else Ok(TableOf(buf, count, h, frameDataStart))
  }

  lemma NextDescriptor(entries: seq<u32>, h: StreamHeader, i: nat, offset: nat)
    requires i < |entries|
    ensures var isLast := i + 1 == |entries|;
            var count := if isLast then h.FrameGeometry().1 else h.RegularFrameSamples();
            Descriptors(entries, h, i, offset) == [FrameDescriptor(offset, entries[i], count, isLast)]
              + Descriptors(entries, h, i + 1, SaturatingAdd(offset, entries[i]))
  {
  }

  lemma {:induction false} NoDescriptors(entries: seq<u32>, h: StreamHeader, offset: nat)
    ensures Descriptors(entries, h, |entries|, offset) == []
  {
  }

  lemma EntryAt(buf: seq<u8>, n: nat, i: nat)
    requires 4 * n <= |buf| && i < n
    ensures Entries(buf[..4 * n])[i] == FromLe32(buf[4 * i..4 * i + 4])
  {
    hide FromLe32;
    assert buf[..4 * n][4 * i..4 * i + 4] == buf[4 * i..4 * i + 4];
  }

  method ParseSeekTable(buf: seq<u8>, h: StreamHeader, frameDataStart: nat) returns (r: Result<SeekTable>)
    ensures r == SeekTableOf(buf, h, frameDataStart)
  {
    hide Crc32.LeWord, Crc32.Checksum, FromLe32, Descriptors, Entries, SaturatingAdd, StreamHeader.FrameGeometry, StreamHeader.RegularFrameSamples;
    var (frameCount, lastSamples) := h.FrameGeometry();
    var entriesBytes := frameCount * 4;
    if |buf| < entriesBytes + 4 {
      return Err(Truncated);
    }
    var computed := Crc32.ComputeChecksum(buf[..entriesBytes]);
    var stored := Crc32.LeWord(buf[entriesBytes..entriesBytes + 4]);
    var regular := h.RegularFrameSamples();
    var frames: seq<FrameDescriptor> := [];
    var offset := frameDataStart;
    ghost var entries := Entries(buf[..entriesBytes]);
    for i := 0 to frameCount
      invariant Descriptors(entries, h, 0, frameDataStart) == frames + Descriptors(entries, h, i, offset)
    {
      EntryAt(buf, frameCount, i);
      NextDescriptor(entries, h, i, offset);
      var diskSize := FromLe32(buf[4 * i..4 * i + 4]);
      var isLast := i + 1 == frameCount;
      var sampleCount := if isLast then lastSamples else regular;
      frames := frames + [FrameDescriptor(offset, diskSize, sampleCount, isLast)];
      offset := SaturatingAdd(offset, diskSize);
    }
    NoDescriptors(entries, h, offset);
    assert |entries| == frameCount && frames + [] == frames;
    r := Ok(SeekTable(frames, computed == stored));
  }

  /** The seek table is parsed back from its own bytes, whatever follows. */
  lemma {:induction false} SeekTableRoundTrip(entries: seq<u32>, h: StreamHeader, start: nat, rest: seq<u8>)
    requires |entries| == h.FrameGeometry().0
    ensures SeekTableOf(SeekTableBytes(entries) + rest, h, start)
         == Ok(SeekTable(Descriptors(entries, h, 0, start), true))
  {
    hide Crc32.LeWord, Crc32.WordBytes, Crc32.Checksum, Entries, EntryBytes, Descriptors;
    var buf, n := SeekTableBytes(entries) + rest, 4 * |entries|;
    var crc := Crc32.Checksum(EntryBytes(entries));
    assert buf[..n] == EntryBytes(entries) && buf[n..n + 4] == Crc32.WordBytes(crc);
    Crc32.WordBytesLe(crc);
    EntriesRoundTrip(entries);
  }

  /** A change inside one four-byte window of a good seek table is reported. */
  lemma SeekTableBurstFlagged(buf: seq<u8>, buf': seq<u8>, h: StreamHeader, start: nat, at: nat)
    requires SeekTableOf(buf, h, start).Ok? && SeekTableOf(buf, h, start).value.crcOk
    requires var n := 4 * h.FrameGeometry().0 + 4;
             |buf'| >= n && Crc32.DifferInWindow(buf[..n], buf'[..n], at)
    ensures SeekTableOf(buf', h, start).Ok? && !SeekTableOf(buf', h, start).value.crcOk
  {
    hide Crc32.LeWord, Crc32.Checksum, Entries, Descriptors;
    var n := 4 * h.FrameGeometry().0;
    assert buf[..n + 4] == buf[..n] + buf[n..n + 4] && buf'[..n + 4] == buf'[..n] + buf'[n..n + 4];
    Crc32.BurstDetected(buf[..n], buf[n..n + 4], buf'[..n], buf'[n..n + 4], at);
  }
}
