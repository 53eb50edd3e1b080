/** The container demuxer (src/registry.rs, `TtaDemuxer`): one packet per frame, each a
    complete one-frame file, and seeking by presentation time. */
module Demuxer {
  import opened Words
  import opened Results
  import opened Format
  import opened Frame
  import opened Decoder
  import opened Encoder
  import opened EndToEnd
  import Crc32
  import Lms
  import Ranges

  /** The self-contained file around one frame. */
  function MiniFile(h: StreamHeader, d: FrameDescriptor, blob: seq<u8>): seq<u8> {
    HeaderBytes(h.(totalSamples := d.sampleCount)) + SeekTableBytes([d.diskSize]) + blob
  }

  ghost predicate WindowsInside(dec: Decoder) {
    forall i :: 0 <= i < |dec.frames| ==> dec.frames[i].fileOffset + dec.frames[i].diskSize <= |dec.bytes|
  }

  function BlobOf(dec: Decoder, i: nat): seq<u8>
    requires i < |dec.frames| && dec.frames[i].fileOffset + dec.frames[i].diskSize <= |dec.bytes|
  {
    dec.bytes[dec.frames[i].fileOffset..dec.frames[i].fileOffset + dec.frames[i].diskSize]
  }

  // ----- a mini-file decodes like its frame

  lemma FrameCounts(dec: Decoder, i: nat)
    requires dec.Valid() && i < |dec.frames|
    ensures 1 <= dec.frames[i].sampleCount <= dec.header.RegularFrameSamples()
  {
    GeometryTiles(dec.header);
    hide StreamHeader.RegularFrameSamples, StreamHeader.FrameGeometry;
  }

  lemma MiniFileOpens(h: StreamHeader, d: FrameDescriptor, blob: seq<u8>, prime: Priming)
    requires h.InScope() && 1 <= d.sampleCount <= h.RegularFrameSamples() && |blob| == d.diskSize
    requires h.format == 2 ==> prime.Some?
    ensures var mini := h.(totalSamples := d.sampleCount);
            Opened(MiniFile(h, d, blob), prime) ==
            Ok(Decoder(mini, [FrameDescriptor(DataStart(1), d.diskSize, d.sampleCount, true)], true,
                       MiniFile(h, d, blob), prime))
  {
    var mini := h.(totalSamples := d.sampleCount);
    ShortGeometry(mini);
    hide StreamHeader.FrameGeometry, StreamHeader.RegularFrameSamples, Opened, Descriptors, Lengths, Concat;
    hide HeaderBytes, SeekTableBytes;
    ConcatOne(blob);
    LengthAt([blob], 0);
    assert Lengths([blob]) == [d.diskSize];
    OneDescriptor(d.diskSize, mini, DataStart(1));
    OpensEncoded(mini, [blob], prime);
    assert MiniFile(h, d, blob) == FileBytes(mini, [blob]);
  }

  lemma {:induction false} OneDescriptor(size: u32, h: StreamHeader, start: nat)
    ensures Descriptors([size], h, 0, start) == [FrameDescriptor(start, size, h.FrameGeometry().1, true)]
  {
    hide StreamHeader.FrameGeometry, StreamHeader.RegularFrameSamples, SaturatingAdd;
    NextDescriptor([size], h, 0, start);
    NoDescriptors([size], h, SaturatingAdd(start, size));
  }

  /** The frame result depends on the header's channel count and width and on the
      descriptor's sizes only. */
  lemma SameFrameResult(h: StreamHeader, h': StreamHeader, d: FrameDescriptor, d': FrameDescriptor, blob: seq<u8>, prime: Priming)
    requires h.InScope() && h'.InScope()
    requires h.channels == h'.channels && h.bitsPerSample == h'.bitsPerSample
    requires d.diskSize == d'.diskSize && d.sampleCount == d'.sampleCount
    ensures FrameResult(h, d, blob, prime) == FrameResult(h', d', blob, prime)
  {
    hide BodySamples, Crc32.Checksum, Crc32.LeWord;
  }

  /** With any priming that suits the format, a frame's mini-file decodes to the same
      samples or the same error as the frame in place. */
  lemma MiniFileDecodes(dec: Decoder, i: nat)
    requires dec.Valid() && WindowsInside(dec) && i < |dec.frames|
    requires dec.header.format == 2 ==> dec.qmPriming.Some?
    ensures var file := MiniFile(dec.header, dec.frames[i], BlobOf(dec, i));
            && Opened(file, dec.qmPriming).Ok?
            && Opened(file, dec.qmPriming).value.header == dec.header.(totalSamples := dec.frames[i].sampleCount)
            && Opened(file, dec.qmPriming).value.All() == dec.FrameAt(i)
  {
    FrameCounts(dec, i);
    hide StreamHeader.FrameGeometry, StreamHeader.RegularFrameSamples, Opened, MiniFile, FrameResult;
    var blob, d := BlobOf(dec, i), dec.frames[i];
    var file := MiniFile(dec.header, d, blob);
    MiniFileOpens(dec.header, d, blob, dec.qmPriming);
    MiniFileEnd(dec.header, d, blob);
    var mini := Opened(file, dec.qmPriming).value;
    SameFrameResult(dec.header, mini.header, d, mini.frames[0], blob, dec.qmPriming);
    assert mini.FrameAt(0) == dec.FrameAt(i);
    OnlyFrame(mini);
  }

  lemma MiniFileEnd(h: StreamHeader, d: FrameDescriptor, blob: seq<u8>)
    requires |blob| == d.diskSize
    ensures |MiniFile(h, d, blob)| == DataStart(1) + d.diskSize
    ensures MiniFile(h, d, blob)[DataStart(1)..DataStart(1) + d.diskSize] == blob
  {
    hide HeaderBytes, SeekTableBytes;
  }

  /** For format 1, decoding the packet of frame `i` is decoding frame `i`. */
  lemma PacketDecodesLikeFrame(dec: Decoder, i: nat)
    requires dec.Valid() && WindowsInside(dec) && i < |dec.frames|
    requires dec.header.format == 1 && dec.qmPriming == None
    ensures Decoded(MiniFile(dec.header, dec.frames[i], BlobOf(dec, i))) ==
            match dec.FrameAt(i)
            case Err(e) => Err(e)
            case Ok(pcm) => Ok((dec.header.(totalSamples := dec.frames[i].sampleCount), pcm))
  {
    MiniFileDecodes(dec, i);
    hide Opened, MiniFile, Decoder.All, Decoder.FrameAt, Decoder.Valid;
  }

  // ----- the demuxer

  datatype CoreError = Invalid | Unsupported | Eof

  datatype CoreResult<+T> = Done(value: T) | Failed(error: CoreError)

  datatype Packet = Packet(pts: int, duration: nat, data: seq<u8>)

  /** The durations of a list of packets, added up. */
  function Durations(packets: seq<Packet>): nat {
    if packets == [] then 0 else Durations(packets[..|packets| - 1]) + packets[|packets| - 1].duration
  }

  /** Each packet starts when those before it are over, and together they last as long as
      the stream. */
  ghost predicate Timeline(packets: seq<Packet>, total: nat) {
    && Durations(packets) == total
    && forall k :: 0 <= k < |packets| ==> packets[k].pts == Durations(packets[..k])
  }

  /** A decoder that announces `n` samples and yields so many of each channel, if any. */
  ghost predicate Holds(dec: Decoder, h: StreamHeader, n: u32) {
    && dec.header == h.(totalSamples := n) && dec.header.InScope()
    && (dec.All().Ok? ==> |dec.All().value| == n * h.channels)
  }

  /** Whatever priming it is opened with, the packet's file announces the packet's duration
      and, if it decodes, holds so many samples of each channel. */
  ghost predicate HoldsItsDuration(p: Packet, h: StreamHeader) {
    forall prime: Priming :: (h.format == 2 ==> prime.Some?) ==>
      p.duration < TWO32 && match Opened(p.data, prime) case Err(_) => false case Ok(dec) => Holds(dec, h, p.duration)
  }

  class TtaDemuxer {
    const source: Decoder
    const regularSamples: nat
    var currentFrame: nat
    var nextPts: int

    /** Kept by every operation: in particular the next packet's time is the first
        sample of the next frame. */
    ghost predicate Valid()
      reads this
    {
      && source.Valid() && WindowsInside(source)
      && regularSamples == source.header.RegularFrameSamples()
      && currentFrame <= |source.frames|
      && nextPts == currentFrame * regularSamples
    }

    /** The packet of frame `i`. */
    ghost function PacketOf(i: nat): Packet
      requires WindowsInside(source) && i < |source.frames|
    {
      Packet(i * regularSamples, source.frames[i].sampleCount, MiniFile(source.header, source.frames[i], BlobOf(source, i)))
    }

    constructor (source: Decoder)
      requires source.Valid() && WindowsInside(source)
      ensures Valid() && this.source == source && currentFrame == 0
    {
      this.source := source;
      regularSamples := source.header.RegularFrameSamples();
      currentFrame := 0;
      nextPts := 0;
    }

    method BuildSingleFrameFile(i: nat) returns (out: seq<u8>)
      requires WindowsInside(source) && i < |source.frames|
      ensures out == MiniFile(source.header, source.frames[i], BlobOf(source, i))
    {
      hide Crc32.Checksum, Crc32.WordBytes, Le16, Le32;
      var frame := source.frames[i];
      var h := source.header.(totalSamples := frame.sampleCount);
      out := MAGIC;
      out := out + Le16(h.format);
      out := out + Le16(h.channels);
      out := out + Le16(h.bitsPerSample);
      out := out + Le32(h.sampleRate);
      out := out + Le32(h.totalSamples);
      var headerCrc := Crc32.ComputeChecksum(out[..18]);
      assert out == HeaderBody(h) && out[..18] == out;
      out := out + Crc32.WordBytes(headerCrc);
      ghost var head := out;
      var seekStart := |out|;
      out := out + Le32(frame.diskSize);
      OneEntry(frame.diskSize);
      assert out[seekStart..seekStart + 4] == EntryBytes([frame.diskSize]);
      var seekCrc := Crc32.ComputeChecksum(out[seekStart..seekStart + 4]);
      out := out + Crc32.WordBytes(seekCrc);
      assert out == head + SeekTableBytes([frame.diskSize]);
      out := out + source.bytes[frame.fileOffset..frame.fileOffset + frame.diskSize];
    }

    method NextPacket() returns (r: CoreResult<Packet>)
      requires Valid()
      modifies this
      ensures Valid()
      ensures if old(currentFrame) < |source.frames| then
                r == Done(PacketOf(old(currentFrame))) && currentFrame == old(currentFrame) + 1
              else
                r == Failed(Eof) && currentFrame == old(currentFrame)
    {
      hide Decoder.Valid, StreamHeader.RegularFrameSamples, MiniFile;
      if currentFrame >= |source.frames| {
        return Failed(Eof);
      }
      var data := BuildSingleFrameFile(currentFrame);
      r := Done(Packet(nextPts, source.frames[currentFrame].sampleCount, data));
      assert (currentFrame + 1) * regularSamples == currentFrame * regularSamples + regularSamples;
      currentFrame := currentFrame + 1;
      nextPts := nextPts + regularSamples;
    }

    /** The frame a seek to `pts` lands on: the one that plays then, clamped to the
        first and the last. */
    ghost function Landing(pts: int): int
      requires regularSamples >= 1
    {
      var f := (if pts < 0 then 0 else pts) / regularSamples;
      if f >= |source.frames| then |source.frames| - 1 else f
    }

    method SeekTo(streamIndex: nat, pts: int) returns (r: CoreResult<int>)
      requires Valid()
      modifies this
      ensures Valid()
      ensures if streamIndex != 0 then r == Failed(Invalid) && currentFrame == old(currentFrame)
              else if !source.seekTableCrcOk || source.frames == [] then
                r == Failed(Unsupported) && currentFrame == old(currentFrame)
              else
                && regularSamples >= 1 && currentFrame == Landing(pts)
                && r == Done(currentFrame * regularSamples)
    {
      hide Decoder.Valid, WindowsInside;
      if streamIndex != 0 {
        return Failed(Invalid);
      }
      if !source.seekTableCrcOk {
        return Failed(Unsupported);
      }
      RegularPositive(source);
      if source.frames == [] || regularSamples == 0 {
        return Failed(Unsupported);
      }
      var raw := if pts < 0 then 0 else pts;
      QuotientBounds(raw, regularSamples);
      var target := raw / regularSamples;
      if target >= |source.frames| {
        target := |source.frames| - 1;
      }
      currentFrame := target;
      nextPts := target * regularSamples;
      r := Done(nextPts);
    }

    /** Playing on to the end: the packets of the remaining frames, in order. */
    method Drain() returns (packets: seq<Packet>)
      requires Valid()
      modifies this
      ensures Valid() && currentFrame == |source.frames|
      ensures |packets| == |source.frames| - old(currentFrame)
      ensures forall k :: 0 <= k < |packets| ==> packets[k] == PacketOf(old(currentFrame) + k)
      ensures old(currentFrame) == 0 ==> Timeline(packets, source.header.totalSamples)
      ensures forall k :: 0 <= k < |packets| ==> HoldsItsDuration(packets[k], source.header)
    {
      hide Decoder.Valid, MiniFile;
      packets := [];
      while true
        invariant Valid() && |packets| == currentFrame - old(currentFrame)
        invariant forall k :: 0 <= k < |packets| ==> packets[k] == PacketOf(old(currentFrame) + k)
        decreases |source.frames| - currentFrame
      {
        var p := NextPacket();
        if p.Failed? {
          Drained(this, old(currentFrame), packets);
          return;
        }
        packets := packets + [p.value];
      }
    }
  }

  lemma PacketHolds(demuxer: TtaDemuxer, i: nat)
    requires demuxer.Valid() && i < |demuxer.source.frames|
    ensures HoldsItsDuration(demuxer.PacketOf(i), demuxer.source.header)
  {
    hide Holds, Opened, Decoder.Valid, MiniFile;
    var source, p := demuxer.source, demuxer.PacketOf(i);
    forall prime: Priming | source.header.format == 2 ==> prime.Some?
      ensures p.duration < TWO32
      ensures match Opened(p.data, prime) case Err(_) => false case Ok(dec) => Holds(dec, source.header, p.duration)
    {
      PrimedPacket(demuxer, i, prime);
    }
  }

  lemma PrimedPacket(demuxer: TtaDemuxer, i: nat, prime: Priming)
    requires demuxer.Valid() && i < |demuxer.source.frames|
    requires demuxer.source.header.format == 2 ==> prime.Some?
    ensures var p, h := demuxer.PacketOf(i), demuxer.source.header;
            && p.duration < TWO32
            && match Opened(p.data, prime) case Err(_) => false case Ok(dec) => Holds(dec, h, p.duration)
  {
    var primed := demuxer.source.(qmPriming := prime);
    assert primed.Valid() && WindowsInside(primed);
    assert BlobOf(primed, i) == BlobOf(demuxer.source, i);
    hide Opened, MiniFile, Decoder.FrameAt, Decoder.FramesUpTo, StreamHeader.FrameGeometry, StreamHeader.RegularFrameSamples;
    MiniFileDecodes(primed, i);
    Ranges.FrameLength(primed, i);
  }

  /** While all frames are regular, durations add up to the time reached. */
  lemma {:induction false} RegularTimes(demuxer: TtaDemuxer, packets: seq<Packet>, n: nat)
    requires demuxer.Valid() && n <= |packets| <= |demuxer.source.frames| && n < |demuxer.source.frames|
    requires forall k :: 0 <= k < |packets| ==> packets[k] == demuxer.PacketOf(k)
    ensures Durations(packets[..n]) == n * demuxer.regularSamples
    decreases n
  {
    hide StreamHeader.FrameGeometry, StreamHeader.RegularFrameSamples, MiniFile;
    if n > 0 {
      RegularTimes(demuxer, packets, n - 1);
      assert packets[..n][..n - 1] == packets[..n - 1];
      assert packets[n - 1].duration == demuxer.regularSamples;
      assert n * demuxer.regularSamples == (n - 1) * demuxer.regularSamples + demuxer.regularSamples;
    }
  }

  lemma WholeTimeline(demuxer: TtaDemuxer, packets: seq<Packet>)
    requires demuxer.Valid() && |packets| == |demuxer.source.frames|
    requires forall k :: 0 <= k < |packets| ==> packets[k] == demuxer.PacketOf(k)
    ensures Timeline(packets, demuxer.source.header.totalSamples)
  {
    var n := |packets|;
    GeometryTiles(demuxer.source.header);
    hide StreamHeader.FrameGeometry, StreamHeader.RegularFrameSamples, MiniFile;
    forall k | 0 <= k < n
      ensures packets[k].pts == Durations(packets[..k])
    {
      RegularTimes(demuxer, packets, k);
    }
    if n > 0 {
      RegularTimes(demuxer, packets, n - 1);
    }
  }

  /** What all packets from `first` on have in common. */
  lemma Drained(demuxer: TtaDemuxer, first: nat, packets: seq<Packet>)
    requires demuxer.Valid() && first <= |demuxer.source.frames| && |packets| == |demuxer.source.frames| - first
    requires forall k :: 0 <= k < |packets| ==> packets[k] == demuxer.PacketOf(first + k)
    ensures first == 0 ==> Timeline(packets, demuxer.source.header.totalSamples)
    ensures forall k :: 0 <= k < |packets| ==> HoldsItsDuration(packets[k], demuxer.source.header)
  {
    hide HoldsItsDuration, Timeline, MiniFile, Decoder.Valid;
    forall k | 0 <= k < |packets|
      ensures HoldsItsDuration(packets[k], demuxer.source.header)
    {
      PacketHolds(demuxer, first + k);
    }
    if first == 0 {
      WholeTimeline(demuxer, packets);
    }
  }

  lemma OneEntry(x: u32)
    ensures EntryBytes([x]) == Le32(x)
  {
    assert [x][1..] == [];
    assert Le32(x) + [] == Le32(x);
  }

  lemma RegularPositive(dec: Decoder)
    requires dec.Valid()
    ensures dec.header.RegularFrameSamples() >= 1
  {
  }

  /** A seek to a time inside the stream lands on the frame that plays then. */
  lemma LandsOnPlayingFrame(demuxer: TtaDemuxer, pts: nat)
    requires demuxer.Valid() && pts < demuxer.source.header.totalSamples
    ensures demuxer.regularSamples >= 1
    ensures var f := demuxer.Landing(pts);
            && 0 <= f < |demuxer.source.frames|
            && f * demuxer.regularSamples <= pts < f * demuxer.regularSamples + demuxer.source.frames[f].sampleCount
  {
    var h := demuxer.source.header;
    GeometryTiles(h);
    RegularPositive(demuxer.source);
    hide StreamHeader.FrameGeometry, StreamHeader.RegularFrameSamples;
    Ranges.Locate(pts, demuxer.regularSamples, |demuxer.source.frames|, h.FrameGeometry().1);
  }

  /** A seek before the start lands on the first frame, one past the end on the last. */
  lemma LandsAtTheEnds(demuxer: TtaDemuxer, pts: int)
    requires demuxer.Valid() && demuxer.source.frames != []
    ensures demuxer.regularSamples >= 1
    ensures pts < 0 ==> demuxer.Landing(pts) == 0
    ensures pts >= demuxer.source.header.totalSamples ==> demuxer.Landing(pts) == |demuxer.source.frames| - 1
  {
    var h, n, r: int := demuxer.source.header, |demuxer.source.frames|, demuxer.regularSamples;
    GeometryTiles(h);
    RegularPositive(demuxer.source);
    hide StreamHeader.FrameGeometry, StreamHeader.RegularFrameSamples;
    if pts < 0 {
      DivModUnique(0, r, 0, 0);
    } else if pts >= h.totalSamples {
      PastTheEnd(pts, r, n, h.FrameGeometry().1);
    }
  }

  lemma PastTheEnd(pts: nat, r: int, n: nat, last: int)
    requires 1 <= last <= r && n >= 1 && pts >= (n - 1) * r + last
    ensures pts / r >= n - 1
  {
    assert pts == r * (pts / r) + pts % r;
    assert r * (pts / r - (n - 1)) == r * (pts / r) - (n - 1) * r;
    MulAtLeast(r, pts / r - (n - 1));
  }

  /** Times stay far below the 64 bits the program keeps them in, the one after the last
      packet included. */
  lemma TimesFit(demuxer: TtaDemuxer)
    requires demuxer.Valid()
    ensures 0 <= demuxer.nextPts <= |demuxer.source.frames| * demuxer.regularSamples < 0x2_0000_0000
  {
    var h := demuxer.source.header;
    GeometryTiles(h);
    hide StreamHeader.FrameGeometry, StreamHeader.RegularFrameSamples;
    if demuxer.source.frames != [] {
      CountFits(|demuxer.source.frames|, demuxer.currentFrame, demuxer.regularSamples, h.FrameGeometry().1, h.totalSamples);
    }
  }

  lemma CountFits(count: nat, current: nat, r: int, last: int, total: u32)
    requires 1 <= last <= r < TWO32 && current <= count && count >= 1 && (count - 1) * r + last == total
    ensures 0 <= current * r <= count * r < 0x2_0000_0000
  {
    MulNonNegative(current, r);
    MulMono(current, count, r);
    assert count * r == (count - 1) * r + r;
  }

  /** `open_demuxer`: parses without needing a password and refuses a file whose seek
      table points outside it. */
  method OpenDemuxer(all: seq<u8>) returns (r: CoreResult<TtaDemuxer>)
    ensures match Opened(all, Some(Lms.NO_TAPS))
            case Err(_) => r == Failed(Invalid)
            case Ok(dec) =>
              if WindowsInside(dec) then
                r.Done? && fresh(r.value) && r.value.Valid() && r.value.currentFrame == 0
                && r.value.source == dec.(qmPriming := None)
              else r == Failed(Invalid)
  {
    hide Opened, Decoder.Valid;
    var dec := NewWithPriming(all, Some(Lms.NO_TAPS));
    if dec.Err? {
      return Failed(Invalid);
    }
    OpenedValid(all, Some(Lms.NO_TAPS));
    var source := dec.value.(qmPriming := None);
    for i := 0 to |source.frames|
      invariant forall j :: 0 <= j < i ==> source.frames[j].fileOffset + source.frames[j].diskSize <= |all|
    {
      if source.frames[i].fileOffset + source.frames[i].diskSize > |all| {
        return Failed(Invalid);
      }
    }
    UnprimedValid(dec.value);
    var d := new TtaDemuxer(source);
    r := Done(d);
  }

  lemma UnprimedValid(dec: Decoder)
    requires dec.Valid()
    ensures dec.(qmPriming := None).Valid()
  {
  }
}
