/** Decoding from a sample to the end of the stream (src/decoder.rs,
    `frame_iter_from_sample` and `decode_from_sample`). */
module Suffixes {
  import opened Words
  import opened Results
  import opened Format
  import opened Decoder
  import opened Ranges

  /** Draining from frame `next` to the end, dropping `skip` entries of the first frame:
      the entries or the first error, and the frames decoded. */
  function Tail(dec: Decoder, next: nat, skip: nat): (Result<seq<i32>>, seq<nat>)
    requires dec.header.InScope()
    decreases |dec.frames| - next
  {
    if next >= |dec.frames| then (Ok([]), [])
    else
      match dec.FrameAt(next)
      case Err(e) => (Err(e), [next])
      case Ok(pcm) =>
        var (rest, calls) := Tail(dec, next + 1, 0);
        (Continued(pcm[Min(skip, |pcm|)..], rest), [next] + calls)
  }

  /** What decoding from a sample gives, and the frames decoded for it. */
  function FromSample(dec: Decoder, sample: nat): (Result<seq<i32>>, seq<nat>)
    requires dec.header.InScope()
  {
    match SeekToSample(dec, sample)
    case Err(e) => (Err(e), [])
    case Ok(p) => Tail(dec, p.frameIndex, EntryCount(dec, p.sampleOffsetInFrame))
  }

  method DecodeFromSample(dec: Decoder, sample: nat) returns (r: Result<seq<i32>>, ghost calls: seq<nat>)
    requires dec.header.InScope()
    ensures r == FromSample(dec, sample).0
    ensures calls == FromSample(dec, sample).1
  {
    hide Decoder.FrameAt, EntryCount;
    calls := [];
    var seek := SeekToSample(dec, sample);
    if seek.Err? {
      return Err(seek.error), calls;
    }
    var next, skip := seek.value.frameIndex, EntryCount(dec, seek.value.sampleOffsetInFrame);
    var frames := new FrameIter(dec, next);
    var iter := new SampleSkipIter(frames, skip);
    var out: seq<i32> := [];
    ghost var whole := FromSample(dec, sample);
    assert whole == Tail(dec, next, skip);
    hide SeekToSample, FromSample;
    Continue(whole.0);
    assert [] + whole.1 == whole.1;
    while true
      invariant iter.inner == frames && frames.decoder == dec
      invariant whole.0 == Continued(out, Tail(dec, frames.nextIdx, iter.prefixToSkip).0)
      invariant whole.1 == frames.calls + Tail(dec, frames.nextIdx, iter.prefixToSkip).1
      decreases |dec.frames| - frames.nextIdx
    {
      ghost var before, at, ahead := frames.calls, frames.nextIdx, Tail(dec, frames.nextIdx, iter.prefixToSkip);
      var nxt := iter.Next();
      if nxt.None? {
        assert out + [] == out && before + [] == before;
        return Ok(out), frames.calls;
      }
      if nxt.value.Err? {
        return Err(nxt.value.error), frames.calls;
      }
      ContinueTwice(out, nxt.value.value, Tail(dec, frames.nextIdx, 0).0);
      assert before + ahead.1 == frames.calls + Tail(dec, frames.nextIdx, 0).1;
      out := out + nxt.value.value;
    }
  }

  /** Draining is eager decoding without the prefix, error for error. */
  lemma {:induction false} TailIsSuffix(dec: Decoder, next: nat, skip: nat)
    requires dec.header.InScope() && next <= |dec.frames|
    requires next < |dec.frames| ==> skip <= EntryCount(dec, dec.frames[next].sampleCount)
    requires next == |dec.frames| ==> skip == 0
    ensures match dec.FramesUpTo(next, |dec.frames|)
            case Err(e) => Tail(dec, next, skip).0 == Err(e)
            case Ok(pcm) => skip <= |pcm| && Tail(dec, next, skip).0 == Ok(pcm[skip..])
    decreases |dec.frames| - next
  {
    hide Decoder.FrameAt, EntryCount;
    if next < |dec.frames| {
      EntriesZero(dec);
      FrameLength(dec, next);
      TailIsSuffix(dec, next + 1, 0);
      if dec.FrameAt(next).Ok? && dec.FramesUpTo(next + 1, |dec.frames|).Ok? {
        var pcm, rest := dec.FrameAt(next).value, dec.FramesUpTo(next + 1, |dec.frames|).value;
        assert rest[0..] == rest && (pcm + rest)[skip..] == pcm[skip..] + rest;
      }
    }
  }

  lemma EntriesZero(dec: Decoder)
    ensures EntryCount(dec, 0) == 0
  {
  }

  /** Decoding from a sample decodes its frame and all later ones, and drops what comes
      before the sample; or it gives the first error among those frames. */
  lemma FromSampleIsSuffix(dec: Decoder, sample: nat)
    requires dec.Valid() && dec.seekTableCrcOk && sample < dec.header.totalSamples
    ensures SeekToSample(dec, sample).Ok?
    ensures var p := SeekToSample(dec, sample).value;
            match dec.FramesUpTo(p.frameIndex, |dec.frames|)
            case Err(e) => FromSample(dec, sample).0 == Err(e)
            case Ok(pcm) =>
              && EntryCount(dec, p.sampleOffsetInFrame) <= |pcm|
              && FromSample(dec, sample).0 == Ok(pcm[EntryCount(dec, p.sampleOffsetInFrame)..])
  {
    hide SeekToSample, EntryCount, Tail, Decoder.FramesUpTo, Decoder.Valid;
    SeekFinds(dec, sample);
    ValidInScope(dec);
    var p := SeekToSample(dec, sample).value;
    EntriesMono(dec, p.sampleOffsetInFrame, dec.frames[p.frameIndex].sampleCount);
    TailIsSuffix(dec, p.frameIndex, EntryCount(dec, p.sampleOffsetInFrame));
  }

  /** Where no frame is decoded: an unseekable stream, and a sample past the end. */
  lemma FromSampleEdges(dec: Decoder, sample: nat)
    requires dec.header.InScope()
    ensures !dec.seekTableCrcOk ==> FromSample(dec, sample) == (Err(SeekTableUnreliable), [])
    ensures dec.seekTableCrcOk && sample >= dec.header.totalSamples ==>
              FromSample(dec, sample) == (Err(SampleIndexOutOfRange), [])
  {
  }

  /** When the whole stream decodes, decoding from a sample is its suffix. */
  lemma FromSampleIsSuffixOfAll(dec: Decoder, sample: nat)
    requires dec.Valid() && dec.seekTableCrcOk && sample < dec.header.totalSamples
    requires dec.All().Ok?
    ensures EntryCount(dec, sample) <= |dec.All().value|
    ensures FromSample(dec, sample).0 == Ok(dec.All().value[EntryCount(dec, sample)..])
  {
    hide StreamHeader.FrameGeometry, StreamHeader.RegularFrameSamples, StreamHeader.InScope;
    hide Decoder.FramesUpTo, Decoder.Valid, FromSample, SeekToSample, EntryCount, LengthUpTo;
    ValidInScope(dec);
    SeekFinds(dec, sample);
    FromSampleIsSuffix(dec, sample);
    var p := SeekToSample(dec, sample).value;
    var f, n := p.frameIndex, |dec.frames|;
    FramesSplit(dec, 0, f, n);
    FramesLength(dec, 0, f);
    RegularLengths(dec, 0, f);
    EntriesAdd(dec, (f - 0) * dec.header.RegularFrameSamples(), p.sampleOffsetInFrame);
    var pre, post := dec.FramesUpTo(0, f).value, dec.FramesUpTo(f, n).value;
    assert dec.All().value == pre + post;
    assert (pre + post)[|pre| + EntryCount(dec, p.sampleOffsetInFrame)..] == post[EntryCount(dec, p.sampleOffsetInFrame)..];
  }
}
