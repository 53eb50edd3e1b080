/** One channel's mutable state and its two per-sample steps: the bodies of the inner
    loops of `encode_one_frame` (src/encoder.rs) and `decode_frame_inner` (src/decoder.rs). */
module ChannelSteps {
  import opened Words
  import opened Bits
  import opened Results
  import opened BitReader
  import opened BitWriter
  import opened Rice
  import opened Pipeline
  import Lms
  import StageB

  /** `rice_encode_one`: emits one residual and adapts. */
  method RiceEncodeOne(writer: BitWriter, state: RiceState, e: i32)
    requires writer.Valid() && state.Value().Valid()
    modifies writer, state
    ensures writer.Valid() && state.Value() == AfterCodeword(old(state.Value()), e)
    ensures writer.Contents() == old(writer.Contents()) + Codeword(old(state.Value()), e)
  {
    hide Pending, Written, Zigzag, Feedback, AdaptK, NatBits, Unary, Pow2;
    ghost var start := writer.Contents();
    var value := Zigzag(e);
    var bias := Pow2(state.k0);
    if value < bias {
      writer.PutUnary(0);
      writer.PutBits(value, state.k0);
      state.UpdateLow(value);
    } else {
      var pre := value - bias;
      QuotientFits(pre, Pow2(state.k1), bias);
      var prefix := pre / Pow2(state.k1);
      writer.PutUnary(prefix + 1);
      writer.PutBits(pre, state.k1);
      state.UpdateHigh(pre);
      state.UpdateLow(WrapU32(pre + ShlSaturating(state.k0)));
    }
  }

  lemma QuotientFits(pre: u32, d: int, bias: int)
    requires d >= 1 && bias >= 1 && pre + bias < TWO32
    ensures 0 <= pre / d <= pre && pre / d + 1 < TWO32
  {
    QuotientBounds(pre, d);
  }

  class ChannelState {
    const rice: RiceState
    const lms: Lms.LmsState
    const stageB: StageB.StageBState

    ghost function Repr(): set<object> {
      {this, rice, stageB} + lms.Repr()
    }

    ghost predicate Valid()
      reads Repr()
    {
      lms.Valid() && rice.Value().Valid()
    }

    ghost function Value(): Channel
      reads Repr()
      requires Valid()
      ensures Value().Valid()
    {
      Channel(rice.Value(), Predictor(lms.Value(), stageB.prev))
    }

    /** Frame entry. */
    constructor (bytesPerSample: nat, prime: Option<Lms.Taps>)
      requires 2 <= bytesPerSample <= 3
      ensures Valid() && fresh(Repr()) && allocated(Repr())
      ensures Value() == FrameEntry(bytesPerSample, prime)
    {
      var l := new Lms.LmsState(bytesPerSample);
      if prime.Some? {
        l.Prime(prime.value);
      }
      lms := l;
      rice := new RiceState();
      stageB := new StageB.StageBState();
    }

    /** Decoder: reads one residual and restores the decorrelated sample. */
    method Decode(reader: BitReader) returns (r: Result<i32>)
      requires Valid() && reader.Valid()
      modifies reader, Repr()
      ensures Valid() && reader.Valid()
      ensures match DecodeStep(old(Value()), old(reader.Rest()))
              case None => r == Err(Truncated)
              case Some((d, c, rest)) => r == Ok(d) && Value() == c && reader.Rest() == rest
    {
      hide ReadResidual, Sound, Unread, Lms.Reconstruct, Lms.Advance, StageB.Predict;
      var e := rice.DecodeOne(reader);
      if e.Err? {
        return e;
      }
      var a := lms.Step(e.value);
      var d := stageB.Step(a);
      r := Ok(d);
    }

    /** Encoder: removes the predictions from one decorrelated sample and emits the
        residual. */
    method Encode(writer: BitWriter, d: i32)
      requires Valid() && writer.Valid()
      modifies writer, Repr()
      ensures Valid() && writer.Valid()
      ensures Value() == EncodeStep(old(Value()), d).1
      ensures writer.Contents() == old(writer.Contents()) + EncodeStep(old(Value()), d).0
    {
      hide Codeword, AfterCodeword, Pending, Written, Lms.Residual, Lms.Advance;
      var pb := MulI32(stageB.prev, 31) / 32;
      var a := SubI32(d, pb);
      stageB.prev := d;
      var e := lms.StepEncode(a);
      RiceEncodeOne(writer, rice, e);
    }
  }

  /** The state of a channel at frame entry. */
  function FrameEntry(bytesPerSample: nat, prime: Option<Lms.Taps>): (c: Channel)
    requires 1 <= bytesPerSample <= 3
    ensures c.Valid()
  {
    var qm := match prime case None => Lms.NO_TAPS case Some(taps) => taps;
    Channel(FRAME_INIT, Predictor(Lms.FrameInit(bytesPerSample, qm), 0))
  }
}
