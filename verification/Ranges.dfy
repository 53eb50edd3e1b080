/** Random access (src/decoder.rs): seeking by sample, the three nested lazy iterators,
    and their agreement with the eager decode. */
module Ranges {
  import opened Words
  import opened Results
  import opened Format
  import opened Frame
  import opened Decoder
  import EndToEnd

  datatype SeekPoint = SeekPoint(frameIndex: nat, sampleOffsetInFrame: nat)

  /** `seek_to_sample`. */
  function SeekToSample(dec: Decoder, sample: nat): Result<SeekPoint> {
    if !dec.seekTableCrcOk then Err(SeekTableUnreliable)
    else if sample >= dec.header.totalSamples then Err(SampleIndexOutOfRange)
    else
      var regular := dec.header.RegularFrameSamples();
      if regular == 0 then Err(SampleIndexOutOfRange)
      else
        QuotientBounds(sample, regular);
        if sample / regular >= |dec.frames| then Err(SampleIndexOutOfRange)
        else Ok(SeekPoint(sample / regular, sample % regular))
  }

  lemma Locate(sample: nat, regular: int, n: nat, last: int)
    requires 1 <= last <= regular && n >= 1 && sample < (n - 1) * regular + last
    ensures var f, o := sample / regular, sample % regular;
            0 <= f < n && f * regular + o == sample && 0 <= o < regular && (f + 1 == n ==> o < last)
  {
    var f, o := sample / regular, sample % regular;
    QuotientBounds(sample, regular);
    assert regular * (f - (n - 1)) == f * regular - (n - 1) * regular;
    MulAtLeast(regular, f - (n - 1));
  }

  /** On an opened, seekable decoder a seek finds exactly the samples of the stream,
      each in the frame that holds it. */
  lemma SeekFinds(dec: Decoder, sample: nat)
    requires dec.Valid() && dec.seekTableCrcOk
    ensures SeekToSample(dec, sample).Ok? <==> sample < dec.header.totalSamples
    ensures match SeekToSample(dec, sample)
            case Err(e) => e == SampleIndexOutOfRange
            case Ok(p) =>
              && p.frameIndex < |dec.frames|
              && p.frameIndex * dec.header.RegularFrameSamples() + p.sampleOffsetInFrame == sample
              && p.sampleOffsetInFrame < dec.frames[p.frameIndex].sampleCount
  {
    var h := dec.header;
    GeometryTiles(h);
    hide StreamHeader.FrameGeometry;
    if sample < h.totalSamples {
      Locate(sample, h.RegularFrameSamples(), |dec.frames|, h.FrameGeometry().1);
    }
  }

  /** No sample has a second place: any frame and offset that stand for it are the seek
      point. */
  lemma SeekIsUnique(dec: Decoder, sample: nat, f: nat, o: nat)
    requires dec.Valid() && dec.seekTableCrcOk
    requires f < |dec.frames| && o < dec.frames[f].sampleCount
    requires f * dec.header.RegularFrameSamples() + o == sample < dec.header.totalSamples
    ensures SeekToSample(dec, sample) == Ok(SeekPoint(f, o))
  {
    var regular: int := dec.header.RegularFrameSamples();
    GeometryTiles(dec.header);
    SeekFinds(dec, sample);
    hide StreamHeader.FrameGeometry;
    DivModUnique(sample, regular, f, o);
  }

  // ----- the iterators

  /** Lazy frame-by-frame decoding; `calls` records the frames decoded. */
  class FrameIter {
    const decoder: Decoder
    var nextIdx: nat
    ghost var calls: seq<nat>

    constructor (decoder: Decoder, start: nat)
      ensures this.decoder == decoder && calls == []
      ensures nextIdx == if start < |decoder.frames| then start else |decoder.frames|
    {
      this.decoder := decoder;
      nextIdx := if start < |decoder.frames| then start else |decoder.frames|;
      calls := [];
    }

    method Next() returns (r: Option<Result<seq<i32>>>)
      requires decoder.header.InScope()
      modifies this
      ensures if old(nextIdx) >= |decoder.frames| then r == None && nextIdx == old(nextIdx) && calls == old(calls)
              else
                && r == Some(decoder.FrameAt(old(nextIdx)))
                && nextIdx == (if r.value.Ok? then old(nextIdx) + 1 else |decoder.frames|)
                && calls == old(calls) + [old(nextIdx)]
    {
      if nextIdx >= |decoder.frames| {
        return None;
      }
      var idx := nextIdx;
      nextIdx := nextIdx + 1;
      calls := calls + [idx];
      var res := decoder.DecodeFrameAt(idx);
      if res.Err? {
        nextIdx := |decoder.frames|;
      }
      r := Some(res);
    }
  }

  function Min(x: nat, y: nat): nat {
    if x < y then x else y
  }

  /** Drops a prefix of the first frame it yields. */
  class SampleSkipIter {
    const inner: FrameIter
    var prefixToSkip: nat

    constructor (inner: FrameIter, skip: nat)
      ensures this.inner == inner && prefixToSkip == skip
    {
      this.inner := inner;
      prefixToSkip := skip;
    }

    method Next() returns (r: Option<Result<seq<i32>>>)
      requires inner.decoder.header.InScope()
      modifies this, inner
      ensures if old(inner.nextIdx) >= |inner.decoder.frames| then
                r == None && inner.nextIdx == old(inner.nextIdx) && inner.calls == old(inner.calls)
              else
                && inner.calls == old(inner.calls) + [old(inner.nextIdx)]
                && prefixToSkip == 0
                && match inner.decoder.FrameAt(old(inner.nextIdx))
                   case Err(e) => r == Some(Err(e)) && inner.nextIdx == |inner.decoder.frames|
                   case Ok(pcm) =>
                     r == Some(Ok(pcm[Min(old(prefixToSkip), |pcm|)..])) && inner.nextIdx == old(inner.nextIdx) + 1
    {
      var nxt := inner.Next();
      if nxt.None? || prefixToSkip == 0 {
        return nxt;
      }
      match nxt.value {
        case Ok(pcm) =>
          var skip := Min(prefixToSkip, |pcm|);
          prefixToSkip := 0;
          r := if skip == 0 then Some(Ok(pcm)) else Some(Ok(pcm[skip..]));
        case Err(e) =>
          prefixToSkip := 0;
          r := Some(Err(e));
      }
    }
  }

  /** Stops after a fixed number of entries, trimming the last frame. */
  class SampleRangeIter {
    const inner: SampleSkipIter
    var remaining: nat

    constructor (inner: SampleSkipIter, remaining: nat)
      ensures this.inner == inner && this.remaining == remaining
    {
      this.inner := inner;
      this.remaining := remaining;
    }

    /** What is left to come, and the frames it takes. */
    ghost function Ahead(): (Result<seq<i32>>, seq<nat>)
      reads this, inner, inner.inner
      requires inner.inner.decoder.header.InScope()
    {
      Drain(inner.inner.decoder, inner.inner.nextIdx, inner.prefixToSkip, remaining)
    }

    method Next() returns (r: Option<Result<seq<i32>>>)
      requires inner.inner.decoder.header.InScope()
      modifies this, inner, inner.inner
      ensures match r
              case None => old(Ahead()) == (Ok([]), []) && inner.inner.calls == old(inner.inner.calls)
              case Some(Err(e)) =>
                && old(Ahead()) == (Err(e), [old(inner.inner.nextIdx)])
                && remaining == 0 && Ahead() == (Ok([]), [])
                && inner.inner.calls == old(inner.inner.calls) + [old(inner.inner.nextIdx)]
              case Some(Ok(pcm)) =>
                && old(inner.inner.nextIdx) < inner.inner.nextIdx <= |inner.inner.decoder.frames|
                && old(Ahead()) == (Continued(pcm, Ahead().0), [old(inner.inner.nextIdx)] + Ahead().1)
                && inner.inner.calls == old(inner.inner.calls) + [old(inner.inner.nextIdx)]
    {
      hide Decoder.FrameAt;
      if remaining == 0 {
        return None;
      }
      var nxt := inner.Next();
      if nxt.None? {
        return None;
      }
      match nxt.value {
        case Ok(whole) =>
          var pcm := if |whole| > remaining then whole[..remaining] else whole;
          assert pcm == whole[..Min(remaining, |whole|)];
          remaining := remaining - |pcm|;
          r := Some(Ok(pcm));
        case Err(e) =>
          remaining := 0;
          r := Some(Err(e));
      }
    }
  }

  /** Draining from frame `next`, dropping `skip` entries of it, up to `remaining`
      entries in all: the entries or the first error, and the frames decoded. */
  function Drain(dec: Decoder, next: nat, skip: nat, remaining: nat): (Result<seq<i32>>, seq<nat>)
    requires dec.header.InScope()
    decreases |dec.frames| - next
  {
    if remaining == 0 || next >= |dec.frames| then (Ok([]), [])
    else
      match dec.FrameAt(next)
      case Err(e) => (Err(e), [next])
      case Ok(pcm) =>
        var tail := pcm[Min(skip, |pcm|)..];
        var part := tail[..Min(remaining, |tail|)];
        var (rest, calls) := Drain(dec, next + 1, 0, remaining - |part|);
        (Continued(part, rest), [next] + calls)
  }

  /** Interleaved entries of a number of per-channel samples. */
  function EntryCount(dec: Decoder, samples: nat): (n: nat) {
    MulNonNegative(samples, dec.header.channels);
    samples * dec.header.channels
  }

  lemma EntriesAdd(dec: Decoder, a: nat, b: nat)
    ensures EntryCount(dec, a + b) == EntryCount(dec, a) + EntryCount(dec, b)
  {
    assert (a + b) * dec.header.channels == a * dec.header.channels + b * dec.header.channels;
  }

  lemma EntriesMono(dec: Decoder, a: nat, b: nat)
    requires dec.header.channels >= 1 && a <= b
    ensures EntryCount(dec, a) <= EntryCount(dec, b)
    ensures a < b ==> EntryCount(dec, a) < EntryCount(dec, b)
    ensures EntryCount(dec, 0) == 0
  {
    EntriesAdd(dec, a, b - a);
    MulGrows(dec.header.channels, b - a);
  }

  /** `frame_iter_sample_range`: the state to drain, or why the range is refused. */
  function RangeStart(dec: Decoder, start: nat, end: nat): Result<(nat, nat, nat)> {
    if start > end || end > dec.header.totalSamples then Err(SampleIndexOutOfRange)
    else if start == end then Ok((|dec.frames|, 0, 0))
    else
      match SeekToSample(dec, start)
      case Err(e) => Err(e)
      case Ok(p) => Ok((p.frameIndex, EntryCount(dec, p.sampleOffsetInFrame), EntryCount(dec, end - start)))
  }

  /** The result of draining a sample range, and the frames decoded for it. */
  function RangeResult(dec: Decoder, start: nat, end: nat): (Result<seq<i32>>, seq<nat>)
    requires dec.header.InScope()
  {
    match RangeStart(dec, start, end)
    case Err(e) => (Err(e), [])
    case Ok((next, skip, remaining)) => Drain(dec, next, skip, remaining)
  }

  /** `decode_sample_range`: drains the lazy iterator. */
  method DecodeSampleRange(dec: Decoder, start: nat, end: nat) returns (r: Result<seq<i32>>, ghost calls: seq<nat>)
    requires dec.header.InScope()
    ensures r == RangeResult(dec, start, end).0
    ensures calls == RangeResult(dec, start, end).1
  {
    hide Decoder.FrameAt, SeekToSample, Drain;
    calls := [];
    var from := RangeStart(dec, start, end);
    if from.Err? {
      return Err(from.error), calls;
    }
    var (next, skip, remaining) := from.value;
    StartWithinFrames(dec, start, end);
    var frames := new FrameIter(dec, next);
    var skipping := new SampleSkipIter(frames, skip);
    var iter := new SampleRangeIter(skipping, remaining);
    var out: seq<i32> := [];
    Continue(iter.Ahead().0);
    assert [] + iter.Ahead().1 == iter.Ahead().1;
    while true
      invariant iter.inner == skipping && skipping.inner == frames && frames.decoder == dec
      invariant RangeResult(dec, start, end) == (Continued(out, iter.Ahead().0), frames.calls + iter.Ahead().1)
      decreases |dec.frames| - frames.nextIdx
    {
      ghost var before, ahead := frames.calls, iter.Ahead();
      var nxt := iter.Next();
      if nxt.None? {
        assert out + [] == out && before + [] == before;
        return Ok(out), frames.calls;
      }
      if nxt.value.Err? {
        return Err(nxt.value.error), frames.calls;
      }
      ContinueTwice(out, nxt.value.value, iter.Ahead().0);
      assert before + ahead.1 == frames.calls + iter.Ahead().1;
      out := out + nxt.value.value;
    }
  }

  lemma StartWithinFrames(dec: Decoder, start: nat, end: nat)
    ensures RangeStart(dec, start, end).Ok? ==> RangeStart(dec, start, end).value.0 <= |dec.frames|
  {
  }

  /** Where no frame is decoded: a range turned round or past the end is refused, an empty
      one gives nothing even if the stream is unseekable, and any other range of an
      unseekable stream is refused. */
  lemma RangeEdges(dec: Decoder, start: nat, end: nat)
    requires dec.header.InScope()
    ensures start > end || end > dec.header.totalSamples ==>
              RangeResult(dec, start, end) == (Err(SampleIndexOutOfRange), [])
    ensures start == end <= dec.header.totalSamples ==> RangeResult(dec, start, end) == (Ok([]), [])
    ensures start < end <= dec.header.totalSamples && !dec.seekTableCrcOk ==>
              RangeResult(dec, start, end) == (Err(SeekTableUnreliable), [])
  {
  }

  // ----- agreement with the eager decode

  /** Interleaved entries of frames `i` up to `end`. */
  function LengthUpTo(dec: Decoder, i: nat, end: nat): nat
    requires end <= |dec.frames|
    decreases end - i
  {
    if i >= end then 0 else EntryCount(dec, dec.frames[i].sampleCount) + LengthUpTo(dec, i + 1, end)
  }

  lemma FrameLength(dec: Decoder, i: nat)
    requires dec.header.InScope() && i < |dec.frames|
    ensures match dec.FrameAt(i)
            case Err(_) => true
            case Ok(pcm) => |pcm| == EntryCount(dec, dec.frames[i].sampleCount)
  {
    hide FrameResult;
    var f := dec.frames[i];
    if f.fileOffset + f.diskSize <= |dec.bytes| {
      EndToEnd.FrameResultLength(dec.header, f, dec.bytes[f.fileOffset..f.fileOffset + f.diskSize], dec.qmPriming);
    }
  }

  lemma {:induction false} FramesLength(dec: Decoder, i: nat, end: nat)
    requires dec.header.InScope() && end <= |dec.frames|
    ensures match dec.FramesUpTo(i, end)
            case Err(_) => true
            case Ok(pcm) => |pcm| == LengthUpTo(dec, i, end)
    decreases end - i
  {
    hide Decoder.FrameAt, EntryCount;
    if i < end {
      FrameLength(dec, i);
      FramesLength(dec, i + 1, end);
    }
  }

  /** One frame of a drain: all that is wanted, or all that is left of it. */
  lemma DrainFrame(dec: Decoder, i: nat, skip: nat, remaining: nat)
    requires dec.header.InScope() && i < |dec.frames| && remaining > 0
    ensures match dec.FrameAt(i)
            case Err(e) => Drain(dec, i, skip, remaining) == (Err(e), [i])
            case Ok(pcm) =>
              skip <= |pcm| ==>
                if skip + remaining <= |pcm| then
                  Drain(dec, i, skip, remaining) == (Ok(pcm[skip..skip + remaining]), [i])
                else
                  var (rest, calls) := Drain(dec, i + 1, 0, skip + remaining - |pcm|);
                  Drain(dec, i, skip, remaining) == (Continued(pcm[skip..], rest), [i] + calls)
  {
    hide Decoder.FrameAt;
    if dec.FrameAt(i).Ok? && skip <= |dec.FrameAt(i).value| {
      var pcm := dec.FrameAt(i).value;
      var tail := pcm[skip..];
      if skip + remaining <= |pcm| {
        assert tail[..remaining] == pcm[skip..skip + remaining] == pcm[skip..skip + remaining] + [];
        assert Drain(dec, i + 1, 0, 0) == (Ok([]), []);
        assert [i] + [] == [i];
      } else {
        assert tail[..|tail|] == tail;
      }
    }
  }

  /** Draining from frame `i` when the wanted entries end inside frame `end - 1`: the
      wanted part of those frames, or their first error, and no frame past them. */
  lemma {:induction false} DrainIsSlice(dec: Decoder, i: nat, end: nat, skip: nat, remaining: nat)
    requires dec.header.InScope() && i < end <= |dec.frames|
    requires skip <= EntryCount(dec, dec.frames[i].sampleCount) && remaining > 0
    requires LengthUpTo(dec, i, end - 1) < skip + remaining <= LengthUpTo(dec, i, end)
    ensures match dec.FramesUpTo(i, end)
            case Err(e) => Drain(dec, i, skip, remaining).0 == Err(e)
            case Ok(pcm) =>
              && skip + remaining <= |pcm|
              && Drain(dec, i, skip, remaining).0 == Ok(pcm[skip..skip + remaining])
    ensures forall c :: c in Drain(dec, i, skip, remaining).1 ==> i <= c < end
    decreases end - i
  {
    hide Decoder.FrameAt, Drain, EntryCount, StreamHeader.InScope;
    FrameLength(dec, i);
    DrainFrame(dec, i, skip, remaining);
    if dec.FrameAt(i).Ok? {
      var pcm := dec.FrameAt(i).value;
      if end == i + 1 {
        assert dec.FramesUpTo(i + 1, end) == Ok([]);
        assert pcm + [] == pcm;
      } else {
        var left := skip + remaining - |pcm|;
        DrainIsSlice(dec, i + 1, end, 0, left);
        var rest := dec.FramesUpTo(i + 1, end);
        hide Decoder.FramesUpTo, LengthUpTo;
        if rest.Ok? {
          SliceAcross(pcm, rest.value, skip, remaining);
        }
      }
    }
  }

  lemma SliceAcross(a: seq<i32>, b: seq<i32>, skip: nat, len: nat)
    requires skip <= |a| < skip + len <= |a| + |b|
    ensures (a + b)[skip..skip + len] == a[skip..] + b[0..skip + len - |a|]
  {
  }

  lemma {:induction false} RegularLengths(dec: Decoder, i: nat, end: nat)
    requires dec.Valid() && i <= end < |dec.frames|
    ensures (end - i) * dec.header.RegularFrameSamples() >= 0
    ensures LengthUpTo(dec, i, end) == EntryCount(dec, (end - i) * dec.header.RegularFrameSamples())
    decreases end - i
  {
    EntriesMono(dec, 0, 0);
    hide StreamHeader.FrameGeometry, StreamHeader.RegularFrameSamples, EntryCount;
    var r: nat := dec.header.RegularFrameSamples();
    MulNonNegative(end - i, r);
    if i < end {
      RegularLengths(dec, i + 1, end);
      assert (end - i) * r == r + (end - (i + 1)) * r;
      MulNonNegative(end - (i + 1), r);
      EntriesAdd(dec, r, (end - (i + 1)) * r);
    }
  }

  lemma {:induction false} LengthSplits(dec: Decoder, i: nat, end: nat)
    requires i < end <= |dec.frames|
    ensures LengthUpTo(dec, i, end) == LengthUpTo(dec, i, end - 1) + EntryCount(dec, dec.frames[end - 1].sampleCount)
    decreases end - i
  {
    hide EntryCount;
    if i < end - 1 {
      LengthSplits(dec, i + 1, end);
    }
  }

  lemma SeekOrder(dec: Decoder, x: nat, y: nat)
    requires x <= y && SeekToSample(dec, x).Ok? && SeekToSample(dec, y).Ok?
    ensures SeekToSample(dec, x).value.frameIndex <= SeekToSample(dec, y).value.frameIndex
  {
    DivMono(x, y, dec.header.RegularFrameSamples());
  }

  /** The first and the last frame of a sample range, and how much of them is wanted. */
  lemma {:induction false} RangeFits(dec: Decoder, start: nat, end: nat)
    requires dec.Valid() && dec.seekTableCrcOk && start < end <= dec.header.totalSamples
    ensures SeekToSample(dec, start).Ok? && SeekToSample(dec, end - 1).Ok?
    ensures var first, last := SeekToSample(dec, start).value, SeekToSample(dec, end - 1).value;
            var skip, len := EntryCount(dec, first.sampleOffsetInFrame), EntryCount(dec, end - start);
            && first.frameIndex <= last.frameIndex < |dec.frames|
            && skip <= EntryCount(dec, dec.frames[first.frameIndex].sampleCount) && len > 0
            && LengthUpTo(dec, first.frameIndex, last.frameIndex) < skip + len
            && skip + len <= LengthUpTo(dec, first.frameIndex, last.frameIndex + 1)
  {
    hide StreamHeader.FrameGeometry, StreamHeader.RegularFrameSamples, EntryCount, SeekToSample, LengthUpTo, Decoder.Valid;
    ValidInScope(dec);
    SeekFinds(dec, start);
    SeekFinds(dec, end - 1);
    SeekOrder(dec, start, end - 1);
    var r: nat := dec.header.RegularFrameSamples();
    var first, last := SeekToSample(dec, start).value, SeekToSample(dec, end - 1).value;
    var f0, f1, o0, o1 := first.frameIndex, last.frameIndex, first.sampleOffsetInFrame, last.sampleOffsetInFrame;
    var count := dec.frames[f1].sampleCount;
    RegularLengths(dec, f0, f1);
    LengthSplits(dec, f0, f1 + 1);
    var w := (f1 - f0) * r;
    assert w == f1 * r - f0 * r;
    assert o0 + (end - start) == w + o1 + 1;
    EntriesAdd(dec, o0, end - start);
    EntriesMono(dec, w, w + o1 + 1);
    EntriesMono(dec, w + o1 + 1, w + count);
    EntriesAdd(dec, w, count);
    EntriesMono(dec, o0, dec.frames[f0].sampleCount);
    EntriesMono(dec, 0, end - start);
  }

  /** A sample range, lazily drained, is the wanted part of the frames that overlap it,
      or the first error among those frames; no other frame is decoded. */
  lemma RangeIsSlice(dec: Decoder, start: nat, end: nat)
    requires dec.Valid() && dec.seekTableCrcOk && start < end <= dec.header.totalSamples
    ensures SeekToSample(dec, start).Ok? && SeekToSample(dec, end - 1).Ok?
    ensures var first, last := SeekToSample(dec, start).value, SeekToSample(dec, end - 1).value;
            var (r, calls) := RangeResult(dec, start, end);
            var skip, len := EntryCount(dec, first.sampleOffsetInFrame), EntryCount(dec, end - start);
            && first.frameIndex <= last.frameIndex < |dec.frames|
            && (match dec.FramesUpTo(first.frameIndex, last.frameIndex + 1)
                case Err(e) => r == Err(e)
                case Ok(pcm) => skip + len <= |pcm| && r == Ok(pcm[skip..skip + len]))
            && forall c :: c in calls ==> first.frameIndex <= c <= last.frameIndex
  {
    hide EntryCount, SeekToSample, LengthUpTo, Drain, Decoder.FramesUpTo, Decoder.Valid;
    hide StreamHeader.FrameGeometry, StreamHeader.RegularFrameSamples, StreamHeader.InScope;
    RangeFits(dec, start, end);
    var first, last := SeekToSample(dec, start).value, SeekToSample(dec, end - 1).value;
    ValidInScope(dec);
    DrainIsSlice(dec, first.frameIndex, last.frameIndex + 1, EntryCount(dec, first.sampleOffsetInFrame), EntryCount(dec, end - start));
  }

  lemma ValidInScope(dec: Decoder)
    requires dec.Valid()
    ensures dec.header.InScope()
  {
  }

  lemma DivMono(x: int, y: int, d: int)
    requires x <= y && d >= 1
    ensures x / d <= y / d
  {
    var a, b := x / d, y / d;
    assert x == d * a + x % d && y == d * b + y % d;
    assert d * (a - b) == d * a - d * b;
    MulAtLeast(d, a - b);
  }

  // ----- and with the whole stream

  lemma {:induction false} FramesSplit(dec: Decoder, i: nat, j: nat, end: nat)
    requires dec.header.InScope() && i <= j <= end
    ensures dec.FramesUpTo(i, end) ==
            match dec.FramesUpTo(i, j)
            case Err(e) => Err(e)
            case Ok(pcm) => Continued(pcm, dec.FramesUpTo(j, end))
    decreases j - i
  {
    hide Decoder.FrameAt;
    if i == j {
      Continue(dec.FramesUpTo(j, end));
    } else {
      FramesSplit(dec, i + 1, j, end);
      if dec.FrameAt(i).Ok? && dec.FramesUpTo(i + 1, j).Ok? {
        ContinueTwice(dec.FrameAt(i).value, dec.FramesUpTo(i + 1, j).value, dec.FramesUpTo(j, end));
      }
    }
  }

  /** When the whole stream decodes, a sample range is the same slice of it. */
  lemma RangeIsSliceOfAll(dec: Decoder, start: nat, end: nat)
    requires dec.Valid() && dec.seekTableCrcOk && start < end <= dec.header.totalSamples
    requires dec.All().Ok?
    ensures EntryCount(dec, start) <= EntryCount(dec, end) <= |dec.All().value|
    ensures RangeResult(dec, start, end).0 == Ok(dec.All().value[EntryCount(dec, start)..EntryCount(dec, end)])
  {
    hide StreamHeader.FrameGeometry, StreamHeader.RegularFrameSamples, StreamHeader.InScope;
    hide Decoder.FramesUpTo, Decoder.Valid, RangeResult, SeekToSample, EntryCount, LengthUpTo;
    ValidInScope(dec);
    RangeIsSlice(dec, start, end);
    SeekFinds(dec, start);
    var first, last := SeekToSample(dec, start).value, SeekToSample(dec, end - 1).value;
    var f0, f1, n := first.frameIndex, last.frameIndex + 1, |dec.frames|;
    FramesSplit(dec, 0, f0, n);
    FramesSplit(dec, f0, f1, n);
    FramesLength(dec, 0, f0);
    RegularLengths(dec, 0, f0);
    EntriesAdd(dec, (f0 - 0) * dec.header.RegularFrameSamples(), first.sampleOffsetInFrame);
    EntriesAdd(dec, start, end - start);
    var pre, mid, post := dec.FramesUpTo(0, f0).value, dec.FramesUpTo(f0, f1).value, dec.FramesUpTo(f1, n).value;
    assert dec.All().value == pre + (mid + post);
    SliceInside(pre, mid, post, EntryCount(dec, first.sampleOffsetInFrame), EntryCount(dec, end - start));
  }

  lemma SliceInside(pre: seq<i32>, mid: seq<i32>, post: seq<i32>, skip: nat, len: nat)
    requires skip + len <= |mid|
    ensures (pre + (mid + post))[|pre| + skip..|pre| + skip + len] == mid[skip..skip + len]
  {
  }
}
