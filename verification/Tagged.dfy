/** An ID3v2 tag in front of a file: it is skipped, and changes nothing but the offsets. */
module Tagged {
  import opened Words
  import opened Results
  import opened Format
  import opened Frame
  import opened Decoder
  import opened Demuxer
  import Crc32

  /** The tag's own length field: four bytes of seven bits, high byte first. */
  function TagSize(tag: seq<u8>): (n: nat)
    requires |tag| >= 10
  {
    var b: seq<int> := tag;
    0x20_0000 * (b[6] % 128) + 0x4000 * (b[7] % 128) + 0x80 * (b[8] % 128) + b[9] % 128
  }

  /** A complete tag: the letters ID3, a header of ten bytes, as many more as its length
      field says, and ten more if bit 4 of its flags announces a footer. */
  predicate IsTag(tag: seq<u8>) {
    && |tag| >= 10 && tag[0] == 'I' as int && tag[1] == 'D' as int && tag[2] == '3' as int
    && |tag| == 10 + TagSize(tag) + (if tag[5] / 16 % 2 == 1 then 10 else 0)
  }

  lemma TagIsSkipped(tag: seq<u8>, file: seq<u8>)
    requires IsTag(tag)
    ensures SkipId3v2Prefix(tag + file) == Ok(|tag|)
  {
    var buf := tag + file;
    assert forall i :: 0 <= i < 10 ==> buf[i] == tag[i];
    assert buf[..3] == [buf[0], buf[1], buf[2]];
  }

  /** A tag that is longer than what is there is Truncated. */
  lemma CutTag(tag: seq<u8>, n: nat)
    requires IsTag(tag) && 10 <= n < |tag|
    ensures SkipId3v2Prefix(tag[..n]) == Err(Truncated)
  {
    var buf := tag[..n];
    assert forall i :: 0 <= i < 10 ==> buf[i] == tag[i];
    assert buf[..3] == [buf[0], buf[1], buf[2]];
  }

  /** A descriptor moved up by `k` bytes. */
  function Moved(frames: seq<FrameDescriptor>, k: nat): (r: seq<FrameDescriptor>)
    ensures |r| == |frames|
  {
    seq(|frames|, i requires 0 <= i < |frames| => frames[i].(fileOffset := frames[i].fileOffset + k))
  }

  lemma MovedCons(d: FrameDescriptor, rest: seq<FrameDescriptor>, k: nat)
    ensures Moved([d] + rest, k) == [d.(fileOffset := d.fileOffset + k)] + Moved(rest, k)
  {
  }

  lemma NothingMoves(k: nat)
    ensures Moved([], k) == []
  {
  }

  lemma NoSaturation(offset: nat, size: nat, k: nat)
    requires offset + size + k < TWO64
    ensures SaturatingAdd(offset, size) + k == SaturatingAdd(offset + k, size)
  {
  }

  /** As long as no offset saturates, the whole table moves. */
  lemma {:induction false} DescriptorsMove(entries: seq<u32>, h: StreamHeader, i: nat, offset: nat, k: nat)
    requires i <= |entries|
    requires forall d :: d in Descriptors(entries, h, i, offset) ==> d.fileOffset + d.diskSize + k < TWO64
    ensures Descriptors(entries, h, i, offset + k) == Moved(Descriptors(entries, h, i, offset), k)
    decreases |entries| - i
  {
    hide StreamHeader.FrameGeometry, StreamHeader.RegularFrameSamples, SaturatingAdd, Moved;
    if i == |entries| {
      NothingMoves(k);
    } else {
      NextDescriptor(entries, h, i, offset);
      NextDescriptor(entries, h, i, offset + k);
      var ds := Descriptors(entries, h, i, offset);
      assert ds[0] in ds && ds[0].diskSize == entries[i] && ds[0].fileOffset == offset;
      assert forall d :: d in ds[1..] ==> d in ds;
      NoSaturation(offset, entries[i], k);
      DescriptorsMove(entries, h, i + 1, SaturatingAdd(offset, entries[i]), k);
      MovedCons(ds[0], ds[1..], k);
    }
  }

  /** What opening the tagged file gives. */
  function Behind(dec: Decoder, tag: seq<u8>): Decoder {
    dec.(frames := Moved(dec.frames, |tag|), bytes := tag + dec.bytes)
  }

  /** Opening a file whose header starts at `id3`; `rest` is what is there. */
  function OpenedBehind(bytes: seq<u8>, rest: seq<u8>, id3: nat, prime: Priming): Result<Decoder> {
    match ParseHeader(rest)
    case Err(e) => Err(e)
    case Ok(h) =>
      if h.format == 2 && prime.None? then Err(PasswordRequired)
      else
        match SeekTableOf(rest[HEADER_LEN..], h, id3 + DataStart(h))
        case Err(e) => Err(e)
        case Ok(table) => Ok(Decoder(h, table.frames, table.crcOk, bytes, prime))
  }

  function DataStart(h: StreamHeader): nat {
    HEADER_LEN + 4 * h.FrameGeometry().0 + 4
  }

  lemma OpensBehind(bytes: seq<u8>, prime: Priming, id3: nat)
    requires SkipId3v2Prefix(bytes) == Ok(id3)
    ensures id3 <= |bytes| && Opened(bytes, prime) == OpenedBehind(bytes, bytes[id3..], id3, prime)
  {
    hide SkipId3v2Prefix, ParseHeader, SeekTableOf, StreamHeader.FrameGeometry, StreamHeader.InScope;
    if ParseHeader(bytes[id3..]).Ok? {
      assert bytes[id3..][HEADER_LEN..] == bytes[id3 + HEADER_LEN..];
    }
  }

  lemma TableMoves(buf: seq<u8>, h: StreamHeader, start: nat, k: nat)
    requires SeekTableOf(buf, h, start).Ok?
    requires forall d :: d in SeekTableOf(buf, h, start).value.frames ==> d.fileOffset + d.diskSize + k < TWO64
    ensures var table := SeekTableOf(buf, h, start).value;
            SeekTableOf(buf, h, start + k) == Ok(SeekTable(Moved(table.frames, k), table.crcOk))
  {
    hide Entries, Descriptors, Crc32.LeWord, Crc32.Checksum, StreamHeader.FrameGeometry, Moved;
    DescriptorsMove(Entries(buf[..4 * h.FrameGeometry().0]), h, 0, start, k);
  }

  lemma FramesBelow(dec: Decoder, k: nat)
    requires WindowsInside(dec) && |dec.bytes| + k < TWO64
    ensures forall d :: d in dec.frames ==> d.fileOffset + d.diskSize + k < TWO64
  {
    forall d | d in dec.frames
      ensures d.fileOffset + d.diskSize + k < TWO64
    {
      var i :| 0 <= i < |dec.frames| && dec.frames[i] == d;
    }
  }

  lemma BehindMoves(tag: seq<u8>, file: seq<u8>, prime: Priming)
    requires OpenedBehind(file, file, 0, prime).Ok?
    requires forall d :: d in OpenedBehind(file, file, 0, prime).value.frames ==> d.fileOffset + d.diskSize + |tag| < TWO64
    ensures OpenedBehind(tag + file, file, |tag|, prime) == Ok(Behind(OpenedBehind(file, file, 0, prime).value, tag))
  {
    hide ParseHeader, SeekTableOf, StreamHeader.FrameGeometry, StreamHeader.InScope, Moved;
    var h := ParseHeader(file).value;
    TableMoves(file[HEADER_LEN..], h, DataStart(h), |tag|);
  }

  lemma TaggedOpens(tag: seq<u8>, file: seq<u8>, prime: Priming)
    requires IsTag(tag) && SkipId3v2Prefix(file) == Ok(0) && Opened(file, prime).Ok?
    requires WindowsInside(Opened(file, prime).value) && |tag| + |file| < TWO64
    ensures Opened(tag + file, prime) == Ok(Behind(Opened(file, prime).value, tag))
  {
    hide SkipId3v2Prefix, IsTag, Opened, OpenedBehind, Behind, WindowsInside;
    TagIsSkipped(tag, file);
    OpensBehind(file, prime, 0);
    OpensBehind(tag + file, prime, |tag|);
    assert (tag + file)[|tag|..] == file && file[0..] == file;
    FramesBelow(Opened(file, prime).value, |tag|);
    BehindMoves(tag, file, prime);
  }

  lemma SameFrames(dec: Decoder, tag: seq<u8>, i: nat)
    requires dec.header.InScope()
    ensures Behind(dec, tag).FrameAt(i) == dec.FrameAt(i)
  {
    hide CheckedSamples, StreamHeader.InScope;
    if i < |dec.frames| {
      var d := dec.frames[i];
      var from, to := d.fileOffset, d.fileOffset + d.diskSize;
      if to <= |dec.bytes| {
        assert (tag + dec.bytes)[|tag| + from..|tag| + to] == dec.bytes[from..to];
      }
    }
  }

  lemma {:induction false} SameFromHere(dec: Decoder, tag: seq<u8>, i: nat, end: nat)
    requires dec.header.InScope()
    ensures Behind(dec, tag).FramesUpTo(i, end) == dec.FramesUpTo(i, end)
    decreases end - i
  {
    hide Decoder.FrameAt, StreamHeader.InScope, Moved;
    if i < end {
      SameFrames(dec, tag, i);
      SameFromHere(dec, tag, i + 1, end);
    }
  }

  /** A tagged file opens with the same header and seekability, its frames moved by the
      length of the tag, and decodes to the same samples or the same error. */
  lemma TagChangesNothing(tag: seq<u8>, file: seq<u8>, prime: Priming)
    requires IsTag(tag) && SkipId3v2Prefix(file) == Ok(0) && Opened(file, prime).Ok?
    requires WindowsInside(Opened(file, prime).value) && |tag| + |file| < TWO64
    ensures Opened(tag + file, prime) == Ok(Behind(Opened(file, prime).value, tag))
    ensures Opened(tag + file, prime).value.All() == Opened(file, prime).value.All()
    ensures forall i :: Opened(tag + file, prime).value.FrameAt(i) == Opened(file, prime).value.FrameAt(i)
  {
    TaggedOpens(tag, file, prime);
    hide Opened, IsTag, SkipId3v2Prefix, Behind, Decoder.FrameAt, Decoder.FramesUpTo, WindowsInside;
    var dec := Opened(file, prime).value;
    SameFromHere(dec, tag, 0, |dec.frames|);
    SameCount(dec, tag);
    forall i: nat
      ensures Behind(dec, tag).FrameAt(i) == dec.FrameAt(i)
    {
      SameFrames(dec, tag, i);
    }
  }

  lemma SameCount(dec: Decoder, tag: seq<u8>)
    ensures |Behind(dec, tag).frames| == |dec.frames|
  {
  }
}
