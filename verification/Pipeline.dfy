/** The per-sample pipeline as pure layers: decorrelation by slot, prediction and
    Rice coding by a queue of channels taking turns on one bit stream. */
module Pipeline {
  import opened Words
  import opened Bits
  import opened Results
  import opened Rice
  import Lms
  import StageB
  import Decorr

  // ----- Stage A and Stage B of one channel

  datatype Predictor = Predictor(lms: Lms.Lms, prev: i32) {
    predicate Valid() {
      Lms.ShiftOk(lms.shift)
    }
  }

  /** Encoder: decorrelated sample to residual. */
  function Remove(p: Predictor, d: i32): (r: (i32, Predictor))
    requires p.Valid()
    ensures r.1.Valid()
  {
    var a := SubI32(d, StageB.Predict(p.prev));
    var e := Lms.Residual(p.lms, a);
    (e, Predictor(Lms.Advance(p.lms, e, a), d))
  }

  /** Decoder: residual to decorrelated sample. */
  function Restore(p: Predictor, e: i32): (r: (i32, Predictor))
    requires p.Valid()
    ensures r.1.Valid()
  {
    var a := Lms.Reconstruct(p.lms, e);
    var d := AddI32(a, StageB.Predict(p.prev));
    (d, Predictor(Lms.Advance(p.lms, e, a), d))
  }

  /** Encoder and decoder steps undo each other and leave the same state behind. */
  lemma PredictorRoundTrip(p: Predictor, x: i32)
    requires p.Valid()
    ensures Restore(p, Remove(p, x).0) == (x, Remove(p, x).1)
    ensures Remove(p, Restore(p, x).0) == (x, Restore(p, x).1)
  {
    hide AddI32, SubI32, Lms.Residual, Lms.Reconstruct, Lms.Advance, StageB.Predict;
    var pb := StageB.Predict(p.prev);
    WrapCancel(x, pb);
    Lms.StepRoundTrip(p.lms, SubI32(x, pb));
    Lms.StepRoundTrip(p.lms, x);
    WrapCancel(Lms.Reconstruct(p.lms, x), pb);
  }

  // ----- the prediction layer, over a queue of channels

  ghost predicate PredictorsValid(q: seq<Predictor>) {
    forall i :: 0 <= i < |q| ==> q[i].Valid()
  }

  lemma TurnValid(q: seq<Predictor>, p: Predictor)
    requires q != [] && PredictorsValid(q) && p.Valid()
    ensures Turn(q, p) != [] && PredictorsValid(Turn(q, p))
  {
  }

  function Residuals(q: seq<Predictor>, ds: seq<i32>): (es: seq<i32>)
    requires q != [] && PredictorsValid(q)
    ensures |es| == |ds|
    decreases |ds|
  {
    if ds == [] then []
    else
      var (e, p) := Remove(q[0], ds[0]);
      [e] + Residuals(Turn(q, p), ds[1..])
  }

  function Rebuild(q: seq<Predictor>, es: seq<i32>): (ds: seq<i32>)
    requires q != [] && PredictorsValid(q)
    ensures |ds| == |es|
    decreases |es|
  {
    if es == [] then []
    else
      var (d, p) := Restore(q[0], es[0]);
      [d] + Rebuild(Turn(q, p), es[1..])
  }

  /** The prediction layer is a bijection between sample and residual lists. */
  lemma {:induction false} PredictionRoundTrip(q: seq<Predictor>, xs: seq<i32>)
    requires q != [] && PredictorsValid(q)
    ensures Rebuild(q, Residuals(q, xs)) == xs
    ensures Residuals(q, Rebuild(q, xs)) == xs
    decreases |xs|
  {
    if xs != [] {
      hide Remove, Restore, Turn;
      PredictorRoundTrip(q[0], xs[0]);
      var q1, q2 := Turn(q, Remove(q[0], xs[0]).1), Turn(q, Restore(q[0], xs[0]).1);
      TurnValid(q, Remove(q[0], xs[0]).1);
      TurnValid(q, Restore(q[0], xs[0]).1);
      PredictionRoundTrip(q1, xs[1..]);
      PredictionRoundTrip(q2, xs[1..]);
      var es, ds := Residuals(q1, xs[1..]), Rebuild(q2, xs[1..]);
      assert Residuals(q, xs) == [Remove(q[0], xs[0]).0] + es;
      assert Rebuild(q, xs) == [Restore(q[0], xs[0]).0] + ds;
      assert ([Remove(q[0], xs[0]).0] + es)[1..] == es && ([Restore(q[0], xs[0]).0] + ds)[1..] == ds;
    }
  }

  // ----- the decorrelation layer, slot by slot

  predicate WholeSlots(xs: seq<i32>, nch: nat) {
    nch > 0 && |xs| % nch == 0
  }

  lemma DropSlot(xs: seq<i32>, nch: nat)
    requires WholeSlots(xs, nch) && xs != []
    ensures nch <= |xs| && WholeSlots(xs[nch..], nch)
    ensures |xs[nch..]| / nch == |xs| / nch - 1
  {
    var k := |xs| / nch;
    assert |xs| == nch * k;
    MulAtLeast(nch, k);
    assert |xs| - nch == nch * (k - 1);
    DivModUnique(|xs| - nch, nch, k - 1, 0);
  }

  function ForwardAll(pcm: seq<i32>, nch: nat): (ds: seq<i32>)
    requires WholeSlots(pcm, nch)
    ensures |ds| == |pcm|
    decreases |pcm|
  {
    if pcm == [] then []
    else
      DropSlot(pcm, nch);
      Decorr.Forward(pcm[..nch]) + ForwardAll(pcm[nch..], nch)
  }

  function InverseAll(ds: seq<i32>, nch: nat): (pcm: seq<i32>)
    requires WholeSlots(ds, nch)
    ensures |pcm| == |ds|
    decreases |ds|
  {
    if ds == [] then []
    else
      DropSlot(ds, nch);
      Decorr.Inverse(ds[..nch]) + InverseAll(ds[nch..], nch)
  }

  /** The decorrelation layer is a bijection for every channel count. */
  lemma {:induction false} DecorrelationRoundTrip(xs: seq<i32>, nch: nat)
    requires WholeSlots(xs, nch)
    ensures InverseAll(ForwardAll(xs, nch), nch) == xs
    ensures ForwardAll(InverseAll(xs, nch), nch) == xs
    decreases |xs|
  {
    if xs != [] {
      DropSlot(xs, nch);
      Decorr.InverseForward(xs[..nch]);
      Decorr.ForwardInverse(xs[..nch]);
      DecorrelationRoundTrip(xs[nch..], nch);
      var f, b := ForwardAll(xs, nch), InverseAll(xs, nch);
      assert f[..nch] == Decorr.Forward(xs[..nch]) && f[nch..] == ForwardAll(xs[nch..], nch);
      assert b[..nch] == Decorr.Inverse(xs[..nch]) && b[nch..] == InverseAll(xs[nch..], nch);
      assert xs[..nch] + xs[nch..] == xs;
    }
  }

  // ----- the interleaved pipeline as the two sides run it

  /** One channel's state. */
  datatype Channel = Channel(rice: Trackers, predictor: Predictor) {
    predicate Valid() {
      rice.Valid() && predictor.Valid()
    }
  }

  ghost predicate ChannelsValid(q: seq<Channel>) {
    forall i :: 0 <= i < |q| ==> q[i].Valid()
  }

  function Trackings(q: seq<Channel>): (r: seq<Trackers>)
    ensures |r| == |q|
  {
    seq(|q|, i requires 0 <= i < |q| => q[i].rice)
  }

  function Predictors(q: seq<Channel>): (r: seq<Predictor>)
    ensures |r| == |q|
  {
    seq(|q|, i requires 0 <= i < |q| => q[i].predictor)
  }

  /** Encoder: one decorrelated sample of the channel whose turn it is. */
  function EncodeStep(c: Channel, d: i32): (r: (Bits, Channel))
    requires c.Valid()
    ensures r.1.Valid()
  {
    var (e, p) := Remove(c.predictor, d);
    (Codeword(c.rice, e), Channel(AfterCodeword(c.rice, e), p))
  }

  function DecodeStep(c: Channel, s: Bits): (r: Option<(i32, Channel, Bits)>)
    requires c.Valid()
    ensures r.Some? ==> r.value.1.Valid()
  {
    match ReadResidual(c.rice, s)
    case None => None
    case Some((e, t, rest)) =>
      var (d, p) := Restore(c.predictor, e);
      Some((d, Channel(t, p), rest))
  }

  function EncodeRun(q: seq<Channel>, ds: seq<i32>): Bits
    requires q != [] && ChannelsValid(q)
    decreases |ds|
  {
    if ds == [] then []
    else
      var (bits, c) := EncodeStep(q[0], ds[0]);
      bits + EncodeRun(Turn(q, c), ds[1..])
  }

  /** Decodes `n` samples; nothing when the stream ends first. */
  function DecodeRun(q: seq<Channel>, s: Bits, n: nat): (r: Option<seq<i32>>)
    requires q != [] && ChannelsValid(q)
    ensures r.Some? ==> |r.value| == n
    decreases n
  {
    if n == 0 then Some([])
    else
      match DecodeStep(q[0], s)
      case None => None
      case Some((d, c, rest)) =>
        match DecodeRun(Turn(q, c), rest, n - 1)
        case None => None
        case Some(ds) => Some([d] + ds)
  }

  lemma TurnLayers(q: seq<Channel>, c: Channel)
    requires q != [] && ChannelsValid(q) && c.Valid()
    ensures ChannelsValid(Turn(q, c))
    ensures Trackings(Turn(q, c)) == Turn(Trackings(q), c.rice)
    ensures Predictors(Turn(q, c)) == Turn(Predictors(q), c.predictor)
    ensures AllValid(Trackings(q)) && PredictorsValid(Predictors(q))
  {
  }

  /** The interleaved encoder is the composition of its layers. */
  lemma {:induction false} EncodeLayers(q: seq<Channel>, ds: seq<i32>)
    requires q != [] && ChannelsValid(q)
    ensures PredictorsValid(Predictors(q))
    ensures EncodeRun(q, ds) == WriteResiduals(Trackings(q), Residuals(Predictors(q), ds))
    decreases |ds|
  {
    hide Remove, Codeword, AfterCodeword, Trackings, Predictors;
    TurnLayers(q, q[0]);
    if ds != [] {
      hide Turn;
      var c := EncodeStep(q[0], ds[0]).1;
      TurnLayers(q, c);
      HeadLayers(q);
      EncodeLayers(Turn(q, c), ds[1..]);
      var es := Residuals(Predictors(q), ds);
      assert es[0] == Remove(q[0].predictor, ds[0]).0;
      assert es[1..] == Residuals(Predictors(Turn(q, c)), ds[1..]);
    }
  }

  lemma HeadLayers(q: seq<Channel>)
    requires q != []
    ensures Trackings(q)[0] == q[0].rice && Predictors(q)[0] == q[0].predictor
  {
  }

  /** The interleaved decoder reads all residuals first, as far as anyone can tell:
      prediction has no influence on what is read. */
  lemma {:induction false} DecodeLayers(q: seq<Channel>, s: Bits, n: nat)
    requires q != [] && ChannelsValid(q)
    ensures PredictorsValid(Predictors(q))
    ensures DecodeRun(q, s, n) ==
            match ReadResiduals(Trackings(q), s, n)
            case None => None
            case Some((es, _, _)) => Some(Rebuild(Predictors(q), es))
    decreases n
  {
    hide Restore, ReadResidual, Trackings, Predictors;
    TurnLayers(q, q[0]);
    HeadLayers(q);
    if n > 0 && DecodeStep(q[0], s).Some? {
      hide Turn;
      var (d, c, rest) := DecodeStep(q[0], s).value;
      TurnLayers(q, c);
      DecodeLayers(Turn(q, c), rest, n - 1);
    }
  }

  // ----- lockstep

  /** The residual channel `c` emits for `d`. */
  function ResidualOf(c: Channel, d: i32): i32
    requires c.Valid()
  {
    Remove(c.predictor, d).0
  }

  /** One channel's turn: what the encoder emits decodes to the same sample and leaves
      the decoder's Rice, LMS and Stage-B state equal to the encoder's, if and only if
      the residual is not i32::MIN. */
  lemma StepLockstep(c: Channel, d: i32, rest: Bits)
    requires c.Valid()
    ensures var (bits, c') := EncodeStep(c, d);
            DecodeStep(c, bits + rest) == Some((d, c', rest)) <==> ResidualOf(c, d) != I32_MIN
  {
    hide Remove, Restore, ReadResidual, Codeword, AfterCodeword;
    var e := ResidualOf(c, d);
    CodewordRoundTrip(c.rice, e, rest);
    PredictorRoundTrip(c.predictor, d);
    PredictorRoundTrip(c.predictor, Canonical(e));
  }

  /** The encoder's queue of channels after `ds`. */
  function EncodeStates(q: seq<Channel>, ds: seq<i32>): seq<Channel>
    requires q != [] && ChannelsValid(q)
    decreases |ds|
  {
    if ds == [] then q else EncodeStates(Turn(q, EncodeStep(q[0], ds[0]).1), ds[1..])
  }

  /** The decoder's queue of channels after `n` samples, with the bits left. */
  function DecodeStates(q: seq<Channel>, s: Bits, n: nat): Option<(seq<Channel>, Bits)>
    requires q != [] && ChannelsValid(q)
    decreases n
  {
    if n == 0 then Some((q, s))
    else
      match DecodeStep(q[0], s)
      case None => None
      case Some((_, c, rest)) => DecodeStates(Turn(q, c), rest, n - 1)
  }

  /** Over any run whose residuals avoid i32::MIN, hence after each of its steps, both
      sides hold the same states and the decoder has consumed exactly the bits written. */
  lemma {:induction false} RunLockstep(q: seq<Channel>, ds: seq<i32>, rest: Bits)
    requires q != [] && ChannelsValid(q) && PredictorsValid(Predictors(q))
    requires I32_MIN !in Residuals(Predictors(q), ds)
    ensures DecodeStates(q, EncodeRun(q, ds) + rest, |ds|) == Some((EncodeStates(q, ds), rest))
    ensures DecodeRun(q, EncodeRun(q, ds) + rest, |ds|) == Some(ds)
    decreases |ds|
  {
    hide EncodeRun, DecodeRun, DecodeStates, EncodeStates, ChannelsValid, PredictorsValid;
    hide EncodeStep, DecodeStep, Predictors, Turn, ResidualOf, Residuals;
    if ds == [] {
      NothingRuns(q, rest);
    } else {
      EncodeHead(q, ds);
      var (bits, c) := EncodeStep(q[0], ds[0]);
      var tail := EncodeRun(Turn(q, c), ds[1..]) + rest;
      assert EncodeRun(q, ds) + rest == bits + tail;
      StepLockstep(q[0], ds[0], tail);
      DecodeHead(q, bits + tail, |ds|);
      RunLockstep(Turn(q, c), ds[1..], rest);
      assert [ds[0]] + ds[1..] == ds;
    }
  }

  lemma {:induction false} NothingRuns(q: seq<Channel>, rest: Bits)
    requires q != [] && ChannelsValid(q)
    ensures EncodeRun(q, []) + rest == rest && EncodeStates(q, []) == q
    ensures DecodeStates(q, rest, 0) == Some((q, rest)) && DecodeRun(q, rest, 0) == Some([])
  {
  }

  lemma {:induction false} EncodeHead(q: seq<Channel>, ds: seq<i32>)
    requires q != [] && ChannelsValid(q) && PredictorsValid(Predictors(q)) && ds != []
    requires I32_MIN !in Residuals(Predictors(q), ds)
    ensures q[0].Valid() && ResidualOf(q[0], ds[0]) != I32_MIN
    ensures var (bits, c) := EncodeStep(q[0], ds[0]);
            && ChannelsValid(Turn(q, c)) && PredictorsValid(Predictors(Turn(q, c)))
            && I32_MIN !in Residuals(Predictors(Turn(q, c)), ds[1..])
            && EncodeRun(q, ds) == bits + EncodeRun(Turn(q, c), ds[1..])
            && EncodeStates(q, ds) == EncodeStates(Turn(q, c), ds[1..])
  {
    ResidualsHead(q, ds);
    hide EncodeStep, Residuals, ResidualOf, Predictors, Turn;
    var es := Residuals(Predictors(q), ds);
    var es' := Residuals(Predictors(Turn(q, EncodeStep(q[0], ds[0]).1)), ds[1..]);
    assert es == [ResidualOf(q[0], ds[0])] + es';
    assert es[0] in es;
    assert forall k :: 0 <= k < |es'| ==> es'[k] == es[k + 1];
  }

  lemma DecodeHead(q: seq<Channel>, s: Bits, n: nat)
    requires q != [] && ChannelsValid(q) && n > 0 && DecodeStep(q[0], s).Some?
    ensures var (d, c, rest) := DecodeStep(q[0], s).value;
            && ChannelsValid(Turn(q, c))
            && DecodeStates(q, s, n) == DecodeStates(Turn(q, c), rest, n - 1)
            && DecodeRun(q, s, n) == match DecodeRun(Turn(q, c), rest, n - 1)
                                     case None => None
                                     case Some(ds) => Some([d] + ds)
  {
    hide DecodeStep;
  }

  lemma {:induction false} ResidualsHead(q: seq<Channel>, ds: seq<i32>)
    requires q != [] && ChannelsValid(q) && ds != []
    ensures PredictorsValid(Predictors(q)) && q[0].Valid()
    ensures var c := EncodeStep(q[0], ds[0]).1;
            && ChannelsValid(Turn(q, c)) && PredictorsValid(Predictors(Turn(q, c)))
            && Residuals(Predictors(q), ds)
               == [ResidualOf(q[0], ds[0])] + Residuals(Predictors(Turn(q, c)), ds[1..])
  {
    hide Remove, Predictors, Trackings, Turn, Codeword, AfterCodeword;
    HeadLayers(q);
    TurnLayers(q, EncodeStep(q[0], ds[0]).1);
    TurnLayers(Turn(q, EncodeStep(q[0], ds[0]).1), q[0]);
  }
}
