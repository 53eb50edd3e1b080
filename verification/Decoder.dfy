/** The file decoder (src/decoder.rs, `Decoder`; src/lib.rs, `decode`, `decode_with_password`). */
module Decoder {
  import opened Words
  import opened Results
  import opened Format
  import opened Frame
  import Password

  const ID3: seq<u8> := [0x49, 0x44, 0x33]

  /** `skip_id3v2_prefix`: the length of an optional ID3v2 tag, with its footer. */
  function SkipId3v2Prefix(buf: seq<u8>): (r: Result<nat>)
    ensures r.Ok? ==> r.value <= |buf|
  {
    if |buf| < 10 || buf[..3] != ID3 then Ok(0)
    else
      var a: int, b: int, c: int, d: int := buf[6] % 0x80, buf[7] % 0x80, buf[8] % 0x80, buf[9] % 0x80;
      var footer := if buf[5] / 0x10 % 2 == 1 then 10 else 0;
      var total := 10 + (d + 0x80 * (c + 0x80 * (b + 0x80 * a))) + footer;
      if total > |buf| then Err(Truncated) else Ok(total)
  }

  datatype Decoder = Decoder(
    header: StreamHeader,
    frames: seq<FrameDescriptor>,
    seekTableCrcOk: bool,
    bytes: seq<u8>,
    qmPriming: Priming)
  {
    /** What every successfully opened decoder satisfies. */
    predicate Valid() {
      && header.InScope()
      && |frames| == header.FrameGeometry().0
      && forall i :: 0 <= i < |frames| ==>
           frames[i].sampleCount ==
             if i + 1 == |frames| then header.FrameGeometry().1 else header.RegularFrameSamples()
    }

    /** `decode_frame_at`. */
    function FrameAt(i: nat): Result<seq<i32>>
      requires header.InScope()
    {
      if i >= |frames| then Err(FrameIndexOutOfRange)
      else
        var end := frames[i].fileOffset + frames[i].diskSize;
        if end > |bytes| then Err(Truncated)
        else FrameResult(header, frames[i], bytes[frames[i].fileOffset..end], qmPriming)
    }

    /** The frames from `i` up to `end` in order, or the first error among them. */
    function FramesUpTo(i: nat, end: nat): Result<seq<i32>>
      requires header.InScope()
      decreases end - i
    {
      if i >= end then Ok([])
      else
        match FrameAt(i)
        case Err(e) => Err(e)
        case Ok(pcm) =>
          match FramesUpTo(i + 1, end)
          case Err(e) => Err(e)
          case Ok(rest) => Ok(pcm + rest)
    }

    function All(): Result<seq<i32>>
      requires header.InScope()
    {
      FramesUpTo(0, |frames|)
    }

    method DecodeFrameAt(i: nat) returns (r: Result<seq<i32>>)
      requires header.InScope()
      ensures r == FrameAt(i)
    {
      hide FrameResult;
      if i >= |frames| {
        return Err(FrameIndexOutOfRange);
      }
      var frame := frames[i];
      var end := frame.fileOffset + frame.diskSize;
      if end > |bytes| {
        return Err(Truncated);
      }
      var ok, out := DecodeFrameInner(header, frame, bytes[frame.fileOffset..end], qmPriming, []);
      Continue(FrameAt(i));
      r := if ok.Err? then Err(ok.error) else Ok(out);
    }

    /** `decode_all`: every frame appended to one growing buffer. */
    method DecodeAll() returns (r: Result<seq<i32>>)
      requires header.InScope()
      ensures r == All()
    {
      hide FrameResult;
      var out: seq<i32> := [];
      Continue(All());
      for i := 0 to |frames|
        invariant All() == Continued(out, FramesUpTo(i, |frames|))
      {
        var frame := frames[i];
        var end := frame.fileOffset + frame.diskSize;
        if end > |bytes| {
          return Err(Truncated);
        }
        ghost var before := out;
        var ok, grown := DecodeFrameInner(header, frame, bytes[frame.fileOffset..end], qmPriming, out);
        if ok.Err? {
          return Err(ok.error);
        }
        out := grown;
        assert FrameAt(i).Ok? && out == before + FrameAt(i).value;
        ContinueTwice(before, FrameAt(i).value, FramesUpTo(i + 1, |frames|));
      }
      assert out + [] == out;
      r := Ok(out);
    }
  }

  /** A result with `xs` already in front of it. */
  function Continued(xs: seq<i32>, rest: Result<seq<i32>>): Result<seq<i32>> {
    match rest
    case Err(e) => Err(e)
    case Ok(ys) => Ok(xs + ys)
  }

  lemma Continue(rest: Result<seq<i32>>)
    ensures Continued([], rest) == rest
  {
    if rest.Ok? {
      assert [] + rest.value == rest.value;
    }
  }

  lemma ContinueTwice(xs: seq<i32>, ys: seq<i32>, rest: Result<seq<i32>>)
    ensures Continued(xs, Continued(ys, rest)) == Continued(xs + ys, rest)
  {
    if rest.Ok? {
      assert xs + (ys + rest.value) == xs + ys + rest.value;
    }
  }

  // ----- opening a file

  lemma {:induction false} DescriptorsCounted(entries: seq<u32>, h: StreamHeader, i: nat, offset: nat)
    requires i <= |entries|
    ensures forall j :: 0 <= j < |entries| - i ==>
              Descriptors(entries, h, i, offset)[j].sampleCount ==
                if i + j + 1 == |entries| then h.FrameGeometry().1 else h.RegularFrameSamples()
    decreases |entries| - i
  {
    hide StreamHeader.FrameGeometry, StreamHeader.RegularFrameSamples;
    if i < |entries| {
      var next := SaturatingAdd(offset, entries[i]);
      DescriptorsCounted(entries, h, i + 1, next);
      NextDescriptor(entries, h, i, offset);
    }
  }

  /** `Decoder::new_with_priming`. */
  function Opened(bytes: seq<u8>, prime: Priming): (r: Result<Decoder>)
    ensures r.Ok? ==> r.value.header.InScope() && r.value.bytes == bytes && r.value.qmPriming == prime
  {
    match SkipId3v2Prefix(bytes)
    case Err(e) => Err(e)
    case Ok(id3) =>
      match ParseHeader(bytes[id3..])
      case Err(e) => Err(e)
      case Ok(h) =>
        if h.format == 2 && prime.None? then Err(PasswordRequired)
        else
          var base := id3 + HEADER_LEN;
          var tableLen := 4 * h.FrameGeometry().0 + 4;
          match SeekTableOf(bytes[base..], h, base + tableLen)
          case Err(e) => Err(e)
          case Ok(table) => Ok(Decoder(h, table.frames, table.crcOk, bytes, prime))
  }

  /** A file that opens has exactly the frames its header calls for. */
  lemma OpenedValid(bytes: seq<u8>, prime: Priming)
    ensures Opened(bytes, prime).Ok? ==> Opened(bytes, prime).value.Valid()
  {
    hide ParseHeader, StreamHeader.FrameGeometry, StreamHeader.RegularFrameSamples, Entries, Descriptors;
    if Opened(bytes, prime).Ok? {
      var dec := Opened(bytes, prime).value;
      var base := SkipId3v2Prefix(bytes).value + HEADER_LEN;
      var n := 4 * dec.header.FrameGeometry().0;
      DescriptorsCounted(Entries(bytes[base..][..n]), dec.header, 0, base + n + 4);
    }
  }

  method NewWithPriming(bytes: seq<u8>, prime: Priming) returns (r: Result<Decoder>)
    ensures r == Opened(bytes, prime)
  {
    hide ParseHeader, SeekTableOf, Decoder.Valid;
    var id3 := SkipId3v2Prefix(bytes);
    if id3.Err? {
      return Err(id3.error);
    }
    var h := ParseHeader(bytes[id3.value..]);
    if h.Err? {
      return Err(h.error);
    }
    if h.value.format == 2 && prime.None? {
      return Err(PasswordRequired);
    }
    var base := id3.value + HEADER_LEN;
    var tableLen := h.value.FrameGeometry().0 * 4 + 4;
    var table := ParseSeekTable(bytes[base..], h.value, base + tableLen);
    if table.Err? {
      return Err(table.error);
    }
    r := Ok(Decoder(h.value, table.value.frames, table.value.crcOk, bytes, prime));
  }

  // ----- one-shot decoding

  /** `decode`. */
  function Decoded(bytes: seq<u8>): Result<(StreamHeader, seq<i32>)> {
    match Opened(bytes, None)
    case Err(e) => Err(e)
    case Ok(dec) =>
      match dec.All()
      case Err(e) => Err(e)
      case Ok(pcm) => Ok((dec.header, pcm))
  }

  /** `decode_with_password`: the priming is dropped again for format 1. */
  function DecodedWithPassword(bytes: seq<u8>, password: seq<u8>): Result<(StreamHeader, seq<i32>)> {
    match Opened(bytes, Some(Password.Priming(password)))
    case Err(e) => Err(e)
    case Ok(open) =>
      var dec := if open.header.format == 1 then open.(qmPriming := None) else open;
      match dec.All()
      case Err(e) => Err(e)
      case Ok(pcm) => Ok((dec.header, pcm))
  }

  method Decode(bytes: seq<u8>) returns (r: Result<(StreamHeader, seq<i32>)>)
    ensures r == Decoded(bytes)
  {
    hide Opened, Decoder.All, Decoder.Valid;
    var dec := NewWithPriming(bytes, None);
    if dec.Err? {
      return Err(dec.error);
    }
    var pcm := dec.value.DecodeAll();
    r := if pcm.Err? then Err(pcm.error) else Ok((dec.value.header, pcm.value));
  }

  method DecodeWithPassword(bytes: seq<u8>, password: seq<u8>) returns (r: Result<(StreamHeader, seq<i32>)>)
    ensures r == DecodedWithPassword(bytes, password)
  {
    hide Opened, Decoder.All, Decoder.Valid, Password.Priming;
    var priming := Password.DeriveQmPriming(password);
    var open := NewWithPriming(bytes, Some(priming));
    if open.Err? {
      return Err(open.error);
    }
    var dec := open.value;
    if dec.header.format == 1 {
      dec := dec.(qmPriming := None);
    }
    var pcm := dec.DecodeAll();
    r := if pcm.Err? then Err(pcm.error) else Ok((dec.header, pcm.value));
  }
}
