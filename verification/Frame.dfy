/** One frame: `encode_one_frame` (src/encoder.rs) and `decode_frame_inner`
    (src/decoder.rs), with what they compute as functions. */
module Frame {
  import opened Words
  import opened Bits
  import opened Results
  import opened BitReader
  import opened BitWriter
  import opened Rice
  import opened Pipeline
  import opened ChannelSteps
  import opened Format
  import Lms
  import Decorr
  import Crc32

  type Priming = Option<Lms.Taps>

  /** All channels at frame entry, channel 0 first in turn. */
  function FrameQueue(nch: nat, bytesPerSample: nat, prime: Priming): (q: seq<Channel>)
    requires nch > 0 && 1 <= bytesPerSample <= 3
    ensures |q| == nch && ChannelsValid(q)
  {
    seq(nch, _ => FrameEntry(bytesPerSample, prime))
  }

  /** The bits of a frame body. */
  function FrameBits(pcm: seq<i32>, nch: nat, bytesPerSample: nat, prime: Priming): Bits
    requires WholeSlots(pcm, nch) && 1 <= bytesPerSample <= 3
  {
    EncodeRun(FrameQueue(nch, bytesPerSample, prime), ForwardAll(pcm, nch))
  }

  /** The frame as stored: packed body, then its checksum. */
  function FrameBlob(pcm: seq<i32>, nch: nat, bytesPerSample: nat, prime: Priming): seq<u8>
    requires WholeSlots(pcm, nch) && 1 <= bytesPerSample <= 3
  {
    var body := Pack(FrameBits(pcm, nch, bytesPerSample, prime));
    body + Crc32.WordBytes(Crc32.Checksum(body))
  }

  /** The frame's samples, if the body holds `n` of them. */
  function BodySamples(body: seq<u8>, nch: nat, bytesPerSample: nat, prime: Priming, n: nat): Option<seq<i32>>
    requires nch > 0 && 1 <= bytesPerSample <= 3 && n % nch == 0
  {
    match DecodeRun(FrameQueue(nch, bytesPerSample, prime), BytesBits(body), n)
    case None => None
    case Some(ds) => Some(InverseAll(ds, nch))
  }

  lemma SlotCount(samples: nat, nch: nat)
    requires nch > 0
    ensures (samples * nch) % nch == 0
  {
    assert samples * nch == nch * samples;
    DivModUnique(samples * nch, nch, samples, 0);
  }

  /** The samples of a body, once the size gate and the stored checksum allow them. */
  function CheckedSamples(body: seq<u8>, stored: seq<u8>, nch: nat, bytesPerSample: nat, prime: Priming, n: nat): Result<seq<i32>>
    requires nch > 0 && 1 <= bytesPerSample <= 3 && n % nch == 0
  {
    if n > 8 * |body| then Err(Truncated)
    else
      match BodySamples(body, nch, bytesPerSample, prime, n)
      case None => Err(Truncated)
      case Some(pcm) =>
        if Crc32.Checksum(body) != Crc32.LeWord(stored) then Err(Crc32Mismatch(FrameRegion)) else Ok(pcm)
  }

  /** What `decode_frame_inner` appends, or its error. */
  function FrameResult(h: StreamHeader, d: FrameDescriptor, bytes: seq<u8>, prime: Priming): Result<seq<i32>>
    requires h.InScope()
  {
    if |bytes| < d.diskSize || d.diskSize < 4 then Err(Truncated)
    else
      SlotCount(d.sampleCount, h.channels);
      CheckedSamples(bytes[..d.diskSize - 4], bytes[d.diskSize - 4..d.diskSize],
                     h.channels, h.BytesPerSample(), prime, d.sampleCount * h.channels)
  }

  // ----- the channel states as a queue

  ghost function Footprint(chans: seq<ChannelState>): set<object> {
    set i, o | 0 <= i < |chans| && o in chans[i].Repr() :: o
  }

  ghost predicate Separate(chans: seq<ChannelState>) {
    forall i, j :: 0 <= i < j < |chans| ==> chans[i].Repr() !! chans[j].Repr()
  }

  ghost predicate StatesValid(chans: seq<ChannelState>)
    reads Footprint(chans)
  {
    forall i :: 0 <= i < |chans| ==> chans[i].Valid()
  }

  ghost function Values(chans: seq<ChannelState>): (q: seq<Channel>)
    requires StatesValid(chans)
    reads Footprint(chans)
    ensures |q| == |chans| && ChannelsValid(q)
  {
    seq(|chans|, i requires 0 <= i < |chans| reads Footprint(chans) requires StatesValid(chans) => chans[i].Value())
  }

  /** The queue when it is channel `ch`'s turn. */
  function FromTurn(q: seq<Channel>, ch: nat): (r: seq<Channel>)
    requires ch <= |q|
    ensures |r| == |q|
  {
    q[ch..] + q[..ch]
  }

  lemma TurnOf(q: seq<Channel>, ch: nat, c: Channel)
    requires ch < |q|
    ensures FromTurn(q, ch)[0] == q[ch]
    ensures FromTurn(q[ch := c], ch + 1) == Turn(FromTurn(q, ch), c)
  {
  }

  lemma InFootprint(chans: seq<ChannelState>, i: nat)
    requires i < |chans|
    ensures chans[i].Repr() <= Footprint(chans)
  {
  }

  /** A channel separate from all the others joins them. */
  lemma JoinFootprint(chans: seq<ChannelState>, c: ChannelState)
    requires Separate(chans) && Footprint(chans) !! c.Repr()
    ensures Footprint(chans + [c]) == Footprint(chans) + c.Repr()
    ensures Separate(chans + [c])
  {
    hide ChannelState.Repr;
    var all := chans + [c];
    forall o | o in Footprint(chans)
      ensures o in Footprint(all)
    {
      var i :| 0 <= i < |chans| && o in chans[i].Repr();
      assert o in all[i].Repr();
    }
    forall o | o in c.Repr()
      ensures o in Footprint(all)
    {
      assert o in all[|chans|].Repr();
    }
    forall i, j | 0 <= i < j < |all|
      ensures all[i].Repr() !! all[j].Repr()
    {
      if j == |chans| {
        InFootprint(chans, i);
      }
    }
  }

  lemma JoinValues(chans: seq<ChannelState>, c: ChannelState)
    requires StatesValid(chans) && c.Valid()
    ensures StatesValid(chans + [c])
    ensures Values(chans + [c]) == Values(chans) + [c.Value()]
  {
    hide ChannelState.Valid, ChannelState.Value, ChannelState.Repr;
    var all := chans + [c];
    assert forall i :: 0 <= i < |chans| ==> all[i] == chans[i];
    assert all[|chans|] == c;
  }

  lemma NoChannels()
    ensures Separate([]) && StatesValid([]) && Footprint([]) == {} && Values([]) == []
  {
  }

  /** Fresh channel states for one frame. */
  method NewChannels(nch: nat, bytesPerSample: nat, prime: Priming) returns (chans: seq<ChannelState>)
    requires nch > 0 && 2 <= bytesPerSample <= 3
    ensures |chans| == nch && Separate(chans) && StatesValid(chans)
    ensures fresh(Footprint(chans))
    ensures Values(chans) == FrameQueue(nch, bytesPerSample, prime)
  {
    hide FrameEntry, ChannelState.Valid, ChannelState.Value, ChannelState.Repr;
    hide Footprint, Separate, StatesValid, Values;
    NoChannels();
    chans := [];
    for i := 0 to nch
      invariant |chans| == i && Separate(chans) && StatesValid(chans)
      invariant fresh(Footprint(chans)) && allocated(Footprint(chans))
      invariant Values(chans) == seq(i, _ => FrameEntry(bytesPerSample, prime))
    {
      var c := new ChannelState(bytesPerSample, prime);
      JoinFootprint(chans, c);
      JoinValues(chans, c);
      chans := chans + [c];
    }
  }

  /** One channel's step leaves all other channels as they were. */
  method DecodeChannel(reader: BitReader, chans: seq<ChannelState>, ch: nat) returns (r: Result<i32>)
    requires reader.Valid() && ch < |chans| && Separate(chans) && StatesValid(chans)
    requires reader !in Footprint(chans)
    modifies reader, chans[ch].Repr()
    ensures reader.Valid() && StatesValid(chans)
    ensures match DecodeStep(old(Values(chans))[ch], old(reader.Rest()))
            case None => r == Err(Truncated)
            case Some((d, c, rest)) =>
              r == Ok(d) && reader.Rest() == rest && Values(chans) == old(Values(chans))[ch := c]
  {
    hide DecodeStep, Sound, Unread;
    r := chans[ch].Decode(reader);
    forall i | 0 <= i < |chans| && i != ch
      ensures chans[i].Valid() && chans[i].Value() == old(chans[i].Value())
    {
      assert chans[i].Repr() !! chans[ch].Repr() && chans[i].Repr() <= Footprint(chans);
    }
  }

  method EncodeChannel(writer: BitWriter, chans: seq<ChannelState>, ch: nat, d: i32)
    requires writer.Valid() && ch < |chans| && Separate(chans) && StatesValid(chans)
    requires writer !in Footprint(chans)
    modifies writer, chans[ch].Repr()
    ensures writer.Valid() && StatesValid(chans)
    ensures var (bits, c) := EncodeStep(old(Values(chans))[ch], d);
            && writer.Contents() == old(writer.Contents()) + bits
            && Values(chans) == old(Values(chans))[ch := c]
  {
    hide EncodeStep, Pending, Written;
    chans[ch].Encode(writer, d);
    forall i | 0 <= i < |chans| && i != ch
      ensures chans[i].Valid() && chans[i].Value() == old(chans[i].Value())
    {
      assert chans[i].Repr() !! chans[ch].Repr() && chans[i].Repr() <= Footprint(chans);
    }
  }

  // ----- decoding a frame

  function Prepend(xs: seq<i32>, rest: Option<seq<i32>>): Option<seq<i32>> {
    match rest
    case None => None
    case Some(ys) => Some(xs + ys)
  }

  /** One channel's turn within a slot, in the terms of the whole run. */
  lemma {:induction false} DecodeTurn(v: seq<Channel>, ch: nat, s: Bits, left: nat)
    requires ch < |v| && ChannelsValid(v) && ChannelsValid(FromTurn(v, ch)) && left > 0
    ensures match DecodeStep(v[ch], s)
            case None => DecodeRun(FromTurn(v, ch), s, left) == None
            case Some((d, c, rest)) =>
              && ChannelsValid(FromTurn(v[ch := c], ch + 1))
              && DecodeRun(FromTurn(v, ch), s, left)
                 == Prepend([d], DecodeRun(FromTurn(v[ch := c], ch + 1), rest, left - 1))
  {
    hide DecodeStep;
    if DecodeStep(v[ch], s).Some? {
      TurnOf(v, ch, DecodeStep(v[ch], s).value.1);
    } else {
      TurnOf(v, ch, v[ch]);
    }
  }

  lemma PrependTwice(xs: seq<i32>, ys: seq<i32>, rest: Option<seq<i32>>)
    ensures Prepend(xs, Prepend(ys, rest)) == Prepend(xs + ys, rest)
  {
    if rest.Some? {
      assert xs + (ys + rest.value) == xs + ys + rest.value;
    }
  }

  lemma TurnEnds(v: seq<Channel>)
    ensures FromTurn(v, 0) == v && FromTurn(v, |v|) == v
  {
  }

  /** Decodes one sample slot, one channel after the other, into `out` from `base`; `more`
      samples are due after it. */
  method DecodeTurns(reader: BitReader, chans: seq<ChannelState>, out: array<i32>, base: nat, ghost more: nat)
    returns (r: Result<()>)
    requires reader.Valid() && chans != [] && Separate(chans) && StatesValid(chans)
    requires base + |chans| <= out.Length
    requires reader !in Footprint(chans) && out !in Footprint(chans)
    modifies reader, out, Footprint(chans)
    ensures reader.Valid() && StatesValid(chans)
    ensures r.Ok? || r == Err(Truncated)
    ensures DecodeRun(old(Values(chans)), old(reader.Rest()), |chans| + more) ==
            if r.Ok? then Prepend(out[base..base + |chans|], DecodeRun(Values(chans), reader.Rest(), more)) else None
    ensures forall j :: 0 <= j < out.Length && !(base <= j < base + |chans|) ==> out[j] == old(out[j])
  {
    hide DecodeStep, DecodeRun, Sound, Unread, ChannelState.Value, ChannelState.Valid, ChannelState.Repr;
    hide Separate, StatesValid, Values, FromTurn, ChannelsValid, Prepend, Footprint;
    ghost var target, nch := DecodeRun(Values(chans), reader.Rest(), |chans| + more), |chans|;
    TurnEnds(Values(chans));
    PrependNothing(target);
    assert out[base..base] == [];
    for ch := 0 to |chans|
      invariant reader.Valid() && StatesValid(chans) && ChannelsValid(FromTurn(Values(chans), ch))
      invariant target
             == Prepend(out[base..base + ch], DecodeRun(FromTurn(Values(chans), ch), reader.Rest(), nch - ch + more))
      invariant forall j :: 0 <= j < out.Length && !(base <= j < base + ch) ==> out[j] == old(out[j])
    {
      ghost var done, v, rest := out[base..base + ch], Values(chans), reader.Rest();
      InFootprint(chans, ch);
      DecodeTurn(v, ch, rest, nch - ch + more);
      var d := DecodeChannel(reader, chans, ch);
      if d.Err? {
        PrependNone(done);
        return Err(d.error);
      }
      PrependTwice(done, [d.value], DecodeRun(FromTurn(Values(chans), ch + 1), reader.Rest(), nch - ch - 1 + more));
      out[base + ch] := d.value;
      assert out[base..base + ch + 1] == done + [d.value];
    }
    TurnEnds(Values(chans));
    r := Ok(());
  }

  /** Decodes one sample slot and undoes its decorrelation in place. */
  method DecodeSlot(reader: BitReader, chans: seq<ChannelState>, out: array<i32>, base: nat, ghost more: nat)
    returns (r: Result<()>, ghost slot: seq<i32>)
    requires reader.Valid() && chans != [] && Separate(chans) && StatesValid(chans)
    requires base + |chans| <= out.Length
    requires reader !in Footprint(chans) && out !in Footprint(chans)
    modifies reader, out, Footprint(chans)
    ensures reader.Valid() && StatesValid(chans)
    ensures r.Ok? || r == Err(Truncated)
    ensures |slot| == |chans|
    ensures DecodeRun(old(Values(chans)), old(reader.Rest()), |chans| + more) ==
            if r.Ok? then Prepend(slot, DecodeRun(Values(chans), reader.Rest(), more)) else None
    ensures r.Ok? ==> out[..base + |chans|] == old(out[..base]) + Decorr.Inverse(slot)
  {
    hide DecodeRun, Sound, Unread, Separate, ChannelsValid, Prepend, Decorr.Inverse, Footprint;
    hide ChannelState.Value, ChannelState.Valid, ChannelState.Repr, Values, StatesValid;
    r := DecodeTurns(reader, chans, out, base, more);
    slot := out[base..base + |chans|];
    if r.Ok? {
      UndoSlot(chans, out, base);
      assert out[..base + |chans|] == out[..base] + out[base..base + |chans|];
    }
  }

  /** Undoes one slot's decorrelation; no channel state lies in the buffer. */
  method UndoSlot(chans: seq<ChannelState>, out: array<i32>, base: nat)
    requires StatesValid(chans) && base + |chans| <= out.Length && out !in Footprint(chans)
    modifies out
    ensures out[base..base + |chans|] == Decorr.Inverse(old(out[base..base + |chans|]))
    ensures forall j :: 0 <= j < out.Length && !(base <= j < base + |chans|) ==> out[j] == old(out[j])
    ensures StatesValid(chans) && Values(chans) == old(Values(chans))
  {
    hide Decorr.Inverse, ChannelsValid, Footprint;
    Decorr.InverseInPlace(out, base, |chans|);
    forall i | 0 <= i < |chans|
      ensures chans[i].Valid() && chans[i].Value() == old(chans[i].Value())
    {
      InFootprint(chans, i);
    }
  }

  lemma PrependNothing(rest: Option<seq<i32>>)
    ensures Prepend([], rest) == rest
  {
    if rest.Some? {
      assert [] + rest.value == rest.value;
    }
  }

  lemma PrependNone(xs: seq<i32>)
    ensures Prepend(xs, None) == None
  {
  }

  // ----- the frame decoder

  lemma {:induction false} InverseAllAppend(a: seq<i32>, slot: seq<i32>, nch: nat)
    requires WholeSlots(a, nch) && |slot| == nch
    ensures WholeSlots(a + slot, nch)
    ensures InverseAll(a + slot, nch) == InverseAll(a, nch) + Decorr.Inverse(slot)
    decreases |a|
  {
    SlotAppend(|a|, nch);
    var all := a + slot;
    if a == [] {
      assert all[..nch] == slot && all[nch..] == [];
    } else {
      DropSlot(a, nch);
      InverseAllAppend(a[nch..], slot, nch);
      assert all[..nch] == a[..nch] && all[nch..] == a[nch..] + slot;
    }
  }

  lemma SlotAppend(n: nat, nch: nat)
    requires nch > 0 && n % nch == 0
    ensures (n + nch) % nch == 0
  {
    var k := n / nch;
    assert n + nch == nch * (k + 1);
    DivModUnique(n + nch, nch, k + 1, 0);
  }

  /** What is not yet decoded is a whole number of slots. */
  lemma SlotsLeft(n: nat, base: nat, nch: nat)
    requires nch > 0 && n % nch == 0 && base % nch == 0 && base < n
    ensures base + nch <= n
  {
    var k, j := n / nch, base / nch;
    assert nch * k == n && nch * j == base;
    assert nch * (k - j) == n - base;
    MulAtLeast(nch, k - j);
  }

  /** Decodes a frame and appends its samples to `prefix`; on an error the appended
      region is unspecified. */
  method DecodeFrameInner(h: StreamHeader, d: FrameDescriptor, bytes: seq<u8>, prime: Priming, prefix: seq<i32>)
    returns (r: Result<()>, out: seq<i32>)
    requires h.InScope()
    ensures match FrameResult(h, d, bytes, prime)
            case Err(e) => r == Err(e)
            case Ok(pcm) => r == Ok(()) && out == prefix + pcm
  {
    out := prefix;
    if |bytes| < d.diskSize {
      return Err(Truncated), out;
    }
    if d.diskSize < 4 {
      return Err(Truncated), out;
    }
    var body := bytes[..d.diskSize - 4];
    var stored := Crc32.LeWord(bytes[d.diskSize - 4..d.diskSize]);
    var n := d.sampleCount * h.channels;
    SlotCount(d.sampleCount, h.channels);
    if n > 8 * |body| {
      return Err(Truncated), out;
    }
    var samples := DecodeBody(body, h.channels, h.BytesPerSample(), prime, n);
    if samples.Err? {
      return Err(samples.error), out;
    }
    out := prefix + samples.value;
    var computed := Crc32.ComputeChecksum(body);
    if computed != stored {
      return Err(Crc32Mismatch(FrameRegion)), out;
    }
    r := Ok(());
  }

  lemma {:induction false} NoSlots(nch: nat)
    requires nch > 0
    ensures WholeSlots([], nch) && InverseAll([], nch) == []
  {
  }

  lemma {:induction false} NothingDue(q: seq<Channel>, s: Bits, done: seq<i32>)
    requires q != [] && ChannelsValid(q)
    ensures Prepend(done, DecodeRun(q, s, 0)) == Some(done)
  {
    assert done + [] == done;
  }

  /** The per-slot loop of the frame decoder. */
  method DecodeBody(body: seq<u8>, nch: nat, bytesPerSample: nat, prime: Priming, n: nat)
    returns (r: Result<seq<i32>>)
    requires nch > 0 && 2 <= bytesPerSample <= 3 && n % nch == 0
    ensures match BodySamples(body, nch, bytesPerSample, prime, n)
            case None => r == Err(Truncated)
            case Some(pcm) => r == Ok(pcm)
  {
    hide DecodeRun, Sound, Unread, Separate, StatesValid, Values, ChannelsValid, Prepend, InverseAll;
    hide Footprint, FrameQueue, BytesBits, Decorr.Inverse;
    var frame := new i32[n](_ => 0);
    var reader := new BitReader(body);
    var chans := NewChannels(nch, bytesPerSample, prime);
    assert reader !in Footprint(chans) && frame !in Footprint(chans);
    ghost var target := DecodeRun(Values(chans), reader.Rest(), n);
    ghost var done: seq<i32> := [];
    PrependNothing(target);
    NoSlots(nch);
    assert frame[..0] == [];
    var base := 0;
    while base < n
      invariant 0 <= base <= n && base % nch == 0 && |done| == base && WholeSlots(done, nch)
      invariant reader.Valid() && StatesValid(chans)
      invariant target == Prepend(done, DecodeRun(Values(chans), reader.Rest(), n - base))
      invariant frame[..base] == InverseAll(done, nch)
    {
      SlotsLeft(n, base, nch);
      SlotAppend(base, nch);
      var ok, slot := DecodeSlot(reader, chans, frame, base, n - base - nch);
      if ok.Err? {
        PrependNone(done);
        return Err(ok.error);
      }
      PrependTwice(done, slot, DecodeRun(Values(chans), reader.Rest(), n - base - nch));
      InverseAllAppend(done, slot, nch);
      done := done + slot;
      base := base + nch;
    }
    NothingDue(Values(chans), reader.Rest(), done);
    assert frame[..n] == frame[..];
    r := Ok(frame[..]);
  }

  // ----- the frame encoder

  /** One channel's turn within a slot, in the terms of the whole run. */
  lemma {:induction false} EncodeTurn(v: seq<Channel>, ch: nat, d: i32, rest: seq<i32>)
    requires ch < |v| && ChannelsValid(v) && ChannelsValid(FromTurn(v, ch))
    ensures v[ch].Valid()
    ensures var (bits, c) := EncodeStep(v[ch], d);
            && ChannelsValid(FromTurn(v[ch := c], ch + 1))
            && EncodeRun(FromTurn(v, ch), [d] + rest) == bits + EncodeRun(FromTurn(v[ch := c], ch + 1), rest)
  {
    hide EncodeStep;
    TurnOf(v, ch, EncodeStep(v[ch], d).1);
    assert ([d] + rest)[1..] == rest;
  }

  /** Encodes one decorrelated slot, channel by channel; `more` follows it. */
  method EncodeSlot(writer: BitWriter, chans: seq<ChannelState>, scratch: array<i32>, ghost more: seq<i32>)
    requires writer.Valid() && chans != [] && Separate(chans) && StatesValid(chans)
    requires scratch.Length == |chans|
    requires writer !in Footprint(chans) && scratch !in Footprint(chans)
    modifies writer, Footprint(chans)
    ensures writer.Valid() && StatesValid(chans)
    ensures old(writer.Contents()) + EncodeRun(old(Values(chans)), scratch[..] + more)
         == writer.Contents() + EncodeRun(Values(chans), more)
  {
    hide EncodeStep, EncodeRun, Pending, Written, ChannelState.Value, ChannelState.Valid, ChannelState.Repr;
    hide Separate, StatesValid, Values, FromTurn, ChannelsValid, Footprint;
    ghost var target, nch := writer.Contents() + EncodeRun(Values(chans), scratch[..] + more), |chans|;
    TurnEnds(Values(chans));
    for ch := 0 to |chans|
      invariant writer.Valid() && StatesValid(chans) && ChannelsValid(FromTurn(Values(chans), ch))
      invariant target == writer.Contents() + EncodeRun(FromTurn(Values(chans), ch), scratch[ch..] + more)
    {
      ghost var v, w, rest := Values(chans), writer.Contents(), scratch[ch + 1..] + more;
      InFootprint(chans, ch);
      EncodeTurn(v, ch, scratch[ch], rest);
      assert scratch[ch..] + more == [scratch[ch]] + rest;
      ghost var bits := EncodeStep(v[ch], scratch[ch]).0;
      EncodeChannel(writer, chans, ch, scratch[ch]);
      ghost var tail := EncodeRun(FromTurn(Values(chans), ch + 1), rest);
      assert w + (bits + tail) == (w + bits) + tail;
    }
    TurnEnds(Values(chans));
    assert scratch[nch..] + more == more;
  }

  lemma {:induction false} NextSlot(pcm: seq<i32>, nch: nat)
    requires WholeSlots(pcm, nch) && pcm != []
    ensures nch <= |pcm| && WholeSlots(pcm[nch..], nch)
    ensures ForwardAll(pcm, nch) == Decorr.Forward(pcm[..nch]) + ForwardAll(pcm[nch..], nch)
  {
    DropSlot(pcm, nch);
  }

  lemma {:induction false} NothingLeft(q: seq<Channel>, nch: nat)
    requires q != [] && ChannelsValid(q) && nch > 0
    ensures WholeSlots([], nch) && EncodeRun(q, ForwardAll([], nch)) == []
  {
  }

  method EncodeOneFrame(pcm: seq<i32>, nch: nat, bytesPerSample: nat, prime: Priming) returns (blob: seq<u8>)
    requires WholeSlots(pcm, nch) && 2 <= bytesPerSample <= 3
    ensures blob == FrameBlob(pcm, nch, bytesPerSample, prime)
  {
    hide EncodeRun, ForwardAll, Decorr.Forward, Pending, Written, Pack, FrameQueue;
    hide Separate, StatesValid, Values, ChannelsValid, Footprint;
    var writer := new BitWriter();
    var scratch := new i32[nch](_ => 0);
    var chans := NewChannels(nch, bytesPerSample, prime);
    assert writer !in Footprint(chans) && scratch !in Footprint(chans);
    ghost var target := EncodeRun(Values(chans), ForwardAll(pcm, nch));
    assert writer.Contents() + target == target;
    assert pcm[0..] == pcm;
    var base := 0;
    while base < |pcm|
      invariant 0 <= base <= |pcm| && WholeSlots(pcm[base..], nch)
      invariant writer.Valid() && StatesValid(chans)
      invariant target == writer.Contents() + EncodeRun(Values(chans), ForwardAll(pcm[base..], nch))
    {
      NextSlot(pcm[base..], nch);
      LoadSlot(scratch, chans, pcm, base);
      assert pcm[base..][..nch] == pcm[base..base + nch] && pcm[base..][nch..] == pcm[base + nch..];
      EncodeSlot(writer, chans, scratch, ForwardAll(pcm[base + nch..], nch));
      base := base + nch;
    }
    assert pcm[base..] == [];
    NothingLeft(Values(chans), nch);
    assert writer.Contents() + [] == writer.Contents();
    var body := writer.FinishByteAligned();
    var crc := Crc32.ComputeChecksum(body);
    blob := body + Crc32.WordBytes(crc);
  }

  /** Copies one slot into `scratch` and decorrelates it there. */
  method LoadSlot(scratch: array<i32>, chans: seq<ChannelState>, pcm: seq<i32>, base: nat)
    requires base + scratch.Length <= |pcm|
    requires StatesValid(chans) && scratch !in Footprint(chans)
    modifies scratch
    ensures scratch[..] == Decorr.Forward(pcm[base..base + scratch.Length])
    ensures StatesValid(chans) && Values(chans) == old(Values(chans))
  {
    hide Decorr.Forward, ChannelsValid, Footprint;
    for i := 0 to scratch.Length
      invariant forall j :: 0 <= j < i ==> scratch[j] == pcm[base + j]
    {
      scratch[i] := pcm[base + i];
    }
    assert scratch[0..scratch.Length] == pcm[base..base + scratch.Length];
    Decorr.ForwardInPlace(scratch, 0, scratch.Length);
    assert scratch[0..scratch.Length] == scratch[..];
    forall i | 0 <= i < |chans|
      ensures chans[i].Valid() && chans[i].Value() == old(chans[i].Value())
    {
      InFootprint(chans, i);
    }
  }
}
