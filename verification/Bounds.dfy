/** Bounds every run keeps: residuals, Rice trackers, LMS history and weights. */
module Bounds {
  import opened Words
  import opened Bits
  import BitReader
  import opened Rice
  import opened Pipeline
  import opened Frame
  import opened FrameTheorems
  import Lms
  import StageB
  import Decorr

  // ----- residuals of in-range PCM

  /** Half the range of signed samples of two or three bytes. */
  function Magnitude(bytesPerSample: nat): int {
    if bytesPerSample == 2 then 0x8000 else 0x80_0000
  }

  predicate InRange(pcm: seq<i32>, bytesPerSample: nat) {
    forall i :: 0 <= i < |pcm| ==> -Magnitude(bytesPerSample) <= pcm[i] < Magnitude(bytesPerSample)
  }

  /** `2^23` for two-byte and `2^26` for three-byte samples. */
  function ResidualLimit(bytesPerSample: nat): int {
    if bytesPerSample == 2 then 0x80_0000 else 0x400_0000
  }

  predicate Within(xs: seq<i32>, limit: int) {
    forall i :: 0 <= i < |xs| ==> -limit < xs[i] < limit
  }

  lemma {:induction false} DecorrelatedWithin(pcm: seq<i32>, nch: nat, bytesPerSample: nat)
    requires WholeSlots(pcm, nch) && InRange(pcm, bytesPerSample)
    ensures Within(ForwardAll(pcm, nch), 2 * Magnitude(bytesPerSample))
    decreases |pcm|
  {
    if pcm != [] {
      DropSlot(pcm, nch);
      DecorrelatedWithin(pcm[nch..], nch, bytesPerSample);
      SlotWithin(pcm[..nch], Magnitude(bytesPerSample));
    }
  }

  lemma {:induction false} SlotWithin(p: seq<i32>, m: int)
    requires 0 < m <= 0x80_0000
    requires forall i :: 0 <= i < |p| ==> -m <= p[i] < m
    ensures Within(Decorr.Forward(p), 2 * m)
  {
    if |p| >= 2 {
      Decorr.ForwardBounds(p, m);
      hide Decorr.Forward;
      var t := Decorr.Forward(p)[|p| - 1];
      assert -m <= t < m;
      forall i | 0 <= i < |p|
        ensures -2 * m < Decorr.Forward(p)[i] < 2 * m
      {
        if i < |p| - 1 {
          assert Decorr.Forward(p)[i] == p[i + 1] - p[i];
        }
      }
    }
  }

  /** A predictor in the middle of a frame of in-range samples. */
  ghost predicate Tame(p: Predictor, bytesPerSample: nat) {
    && 2 <= bytesPerSample <= 3
    && p.lms.shift == Lms.LMS_SHIFT[bytesPerSample - 1]
    && -2 * Magnitude(bytesPerSample) < p.prev < 2 * Magnitude(bytesPerSample)
  }

  /** Neither predictor overflows, so the residual stays small. */
  lemma ResidualWithin(p: Predictor, d: i32, bytesPerSample: nat)
    requires Tame(p, bytesPerSample)
    requires -2 * Magnitude(bytesPerSample) < d < 2 * Magnitude(bytesPerSample)
    ensures -ResidualLimit(bytesPerSample) < Remove(p, d).0 < ResidualLimit(bytesPerSample)
    ensures Tame(Remove(p, d).1, bytesPerSample)
  {
    hide Lms.Predict, Lms.Advance, WrapI32;
    Pow2Values();
    WrapI32Same(p.prev * 31);
    var pb := StageB.Predict(p.prev);
    WrapI32Same(d - pb);
    WrapI32Same(d - pb - Lms.Predict(p.lms));
  }

  lemma {:induction false} RunWithin(q: seq<Predictor>, ds: seq<i32>, bytesPerSample: nat)
    requires q != [] && PredictorsValid(q)
    requires forall i :: 0 <= i < |q| ==> Tame(q[i], bytesPerSample)
    requires Within(ds, 2 * Magnitude(bytesPerSample))
    ensures Within(Residuals(q, ds), ResidualLimit(bytesPerSample))
    decreases |ds|
  {
    if ds != [] {
      hide Remove, Tame, Magnitude;
      ResidualWithin(q[0], ds[0], bytesPerSample);
      var (e, p) := Remove(q[0], ds[0]);
      RunWithin(Turn(q, p), ds[1..], bytesPerSample);
      assert Residuals(q, ds) == [e] + Residuals(Turn(q, p), ds[1..]);
    }
  }

  /** On in-range PCM every residual is below 2^23 (two bytes) or 2^26 (three bytes)
      in magnitude; in particular i32::MIN never reaches the zigzag. */
  lemma ResidualBound(pcm: seq<i32>, nch: nat, bytesPerSample: nat, prime: Priming)
    requires WholeSlots(pcm, nch) && 2 <= bytesPerSample <= 3 && InRange(pcm, bytesPerSample)
    ensures Within(FrameResiduals(pcm, nch, bytesPerSample, prime), ResidualLimit(bytesPerSample))
    ensures I32_MIN !in FrameResiduals(pcm, nch, bytesPerSample, prime)
  {
    hide Residuals, ForwardAll;
    var q := FrameQueue(nch, bytesPerSample, prime);
    TurnLayers(q, q[0]);
    DecorrelatedWithin(pcm, nch, bytesPerSample);
    RunWithin(Predictors(q), ForwardAll(pcm, nch), bytesPerSample);
  }

  // ----- Rice trackers

  /** The adaptation law without wrap-around, cap or saturation. */
  datatype Ideal = Ideal(k0: nat, k1: nat, sum0: nat, sum1: nat)

  function IdealFeedback(sum: nat, value: nat): nat {
    sum + value - sum / 16
  }

  function IdealK(k: nat, sum: nat): nat {
    if k > 0 && sum < Pow2(k + 4) then k - 1
    else if sum > Pow2(k + 5) then k + 1
    else k
  }

  function IdealLow(t: Ideal, value: nat): Ideal {
    var sum := IdealFeedback(t.sum0, value);
    t.(sum0 := sum, k0 := IdealK(t.k0, sum))
  }

  function IdealHigh(t: Ideal, pre: nat): Ideal {
    var sum := IdealFeedback(t.sum1, pre);
    IdealLow(t.(sum1 := sum, k1 := IdealK(t.k1, sum)), pre + Pow2(t.k0))
  }

  function IdealAfter(t: Ideal, e: i32): Ideal {
    var value := Zigzag(e);
    if value < Pow2(t.k0) then IdealLow(t, value) else IdealHigh(t, value - Pow2(t.k0))
  }

  function Lift(t: Trackers): Ideal {
    Ideal(t.k0, t.k1, t.sum0, t.sum1)
  }

  /** Sums below `2^(m+4)` and parameters below `m`. */
  ghost predicate Bounded(t: Trackers, m: nat) {
    t.k0 < m && t.k1 < m && t.sum0 < Pow2(m + 4) && t.sum1 < Pow2(m + 4)
  }

  /** The feedback law keeps a sum below sixteen times the magnitude bound. */
  lemma FeedbackBound(sum: u32, value: u32, p: int)
    requires value < p && sum < 16 * p && 16 * p <= TWO31
    ensures Feedback(sum, value) == IdealFeedback(sum, value) < 16 * p
  {
  }

  lemma AdaptIdeal(k: nat, sum: u32, m: nat)
    requires k < m <= 27 && sum < Pow2(m + 4)
    ensures AdaptK(k, sum) == IdealK(k, sum) < m
  {
    hide Pow2;
    if m + 4 <= k + 5 {
      Pow2Mono(m + 4, k + 5);
    }
  }

  lemma SixteenTimes(m: nat)
    ensures Pow2(m + 4) == 16 * Pow2(m)
    ensures m <= 27 ==> 16 * Pow2(m) <= TWO31
  {
    Pow2Add(m, 4);
    Pow2Values();
    if m <= 27 {
      Pow2Mono(m, 27);
    }
  }

  lemma {:induction false} LowIdeal(t: Trackers, value: u32, m: nat)
    requires Bounded(t, m) && m <= 27 && value < Pow2(m)
    ensures Lift(AfterLow(t, value)) == IdealLow(Lift(t), value) && Bounded(AfterLow(t, value), m)
  {
    hide Pow2, Feedback, IdealFeedback, AdaptK, IdealK;
    SixteenTimes(m);
    FeedbackBound(t.sum0, value, Pow2(m));
    AdaptIdeal(t.k0, Feedback(t.sum0, value), m);
  }

  /** One step on a magnitude below `2^m` follows the ideal law and stays bounded. */
  lemma {:induction false} StepIdeal(t: Trackers, e: i32, m: nat)
    requires Bounded(t, m) && m <= 27 && Zigzag(e) < Pow2(m)
    ensures Lift(AfterCodeword(t, e)) == IdealAfter(Lift(t), e) && Bounded(AfterCodeword(t, e), m)
  {
    hide Pow2, Feedback, IdealFeedback, AdaptK, IdealK, Zigzag, AfterLow, IdealLow, WrapU32;
    var value := Zigzag(e);
    if value < Pow2(t.k0) {
      LowIdeal(t, value, m);
    } else {
      var pre := value - Pow2(t.k0);
      SixteenTimes(m);
      FeedbackBound(t.sum1, pre, Pow2(m));
      AdaptIdeal(t.k1, Feedback(t.sum1, pre), m);
      WrapU32Same(value);
      var sum := Feedback(t.sum1, pre);
      LowIdeal(t.(sum1 := sum, k1 := AdaptK(t.k1, sum)), value, m);
    }
  }

  function IdealRun(q: seq<Ideal>, es: seq<i32>): seq<Ideal>
    requires q != []
    decreases |es|
  {
    if es == [] then q else IdealRun(Turn(q, IdealAfter(q[0], es[0])), es[1..])
  }

  function LiftAll(q: seq<Trackers>): (r: seq<Ideal>)
    ensures |r| == |q|
  {
    seq(|q|, i requires 0 <= i < |q| => Lift(q[i]))
  }

  ghost predicate AllBounded(q: seq<Trackers>, m: nat) {
    forall i :: 0 <= i < |q| ==> Bounded(q[i], m)
  }

  ghost predicate MagnitudesBelow(es: seq<i32>, m: nat) {
    forall i :: 0 <= i < |es| ==> Zigzag(es[i]) < Pow2(m)
  }

  lemma IdealTurn(q: seq<Trackers>, e: i32, m: nat)
    requires q != [] && AllBounded(q, m) && m <= 27 && Zigzag(e) < Pow2(m)
    ensures var q' := Turn(q, AfterCodeword(q[0], e));
            AllBounded(q', m) && LiftAll(q') == Turn(LiftAll(q), IdealAfter(LiftAll(q)[0], e))
  {
    hide Bounded, AfterCodeword, IdealAfter, Zigzag, Pow2;
    StepIdeal(q[0], e, m);
  }

  lemma MagnitudesHead(es: seq<i32>, m: nat)
    requires es != [] && MagnitudesBelow(es, m)
    ensures Zigzag(es[0]) < Pow2(m) && MagnitudesBelow(es[1..], m)
  {
    hide Zigzag, Pow2;
  }

  /** Over a whole run on magnitudes below `2^m`, nothing wraps, the cap on k and the
      saturating shift change no step, and all trackers stay bounded. */
  lemma {:induction false} TrackersFollowIdeal(q: seq<Trackers>, es: seq<i32>, m: nat)
    requires q != [] && AllBounded(q, m) && m <= 27 && MagnitudesBelow(es, m)
    ensures LiftAll(TrackersAfter(q, es)) == IdealRun(LiftAll(q), es)
    ensures AllBounded(TrackersAfter(q, es), m)
    decreases |es|
  {
    if es != [] {
      hide AllBounded, MagnitudesBelow, LiftAll, Turn, AfterCodeword, IdealAfter, Zigzag, Pow2;
      MagnitudesHead(es, m);
      IdealTurn(q, es[0], m);
      TrackersFollowIdeal(Turn(q, AfterCodeword(q[0], es[0])), es[1..], m);
    }
  }

  /** From frame entry, for every magnitude bound between 11 and 27 bits. */
  lemma {:induction false} FrameTrackersFollowIdeal(nch: nat, es: seq<i32>, m: nat)
    requires nch > 0 && 11 <= m <= 27 && MagnitudesBelow(es, m)
    ensures var q := TrackersAfter(InitialTrackings(nch), es);
            AllBounded(q, m) && LiftAll(q) == IdealRun(LiftAll(InitialTrackings(nch)), es)
  {
    Pow2Values();
    Pow2Mono(15, m + 4);
    TrackersFollowIdeal(InitialTrackings(nch), es, m);
  }

  /** Frames of in-range PCM stay inside those bounds: 24 bits for two-byte and 27
      bits for three-byte samples. */
  lemma InRangeMagnitudes(pcm: seq<i32>, nch: nat, bytesPerSample: nat, prime: Priming)
    requires WholeSlots(pcm, nch) && 2 <= bytesPerSample <= 3 && InRange(pcm, bytesPerSample)
    ensures MagnitudesBelow(FrameResiduals(pcm, nch, bytesPerSample, prime), if bytesPerSample == 2 then 24 else 27)
  {
    hide FrameResiduals;
    Pow2Values();
    ResidualBound(pcm, nch, bytesPerSample, prime);
    var es := FrameResiduals(pcm, nch, bytesPerSample, prime);
    forall i | 0 <= i < |es|
      ensures Zigzag(es[i]) < 2 * ResidualLimit(bytesPerSample)
    {
      ZigzagInside(es[i]);
    }
  }

  /** Encoding a frame of in-range PCM never wraps a sum, never reaches the cap on k
      and never saturates a threshold. */
  lemma InRangeFrameFollowsIdeal(pcm: seq<i32>, nch: nat, bytesPerSample: nat, prime: Priming)
    requires WholeSlots(pcm, nch) && 2 <= bytesPerSample <= 3 && InRange(pcm, bytesPerSample)
    ensures var es := FrameResiduals(pcm, nch, bytesPerSample, prime);
            && LiftAll(TrackersAfter(InitialTrackings(nch), es)) == IdealRun(LiftAll(InitialTrackings(nch)), es)
            && AllBounded(TrackersAfter(InitialTrackings(nch), es), if bytesPerSample == 2 then 24 else 27)
  {
    hide FrameResiduals;
    InRangeMagnitudes(pcm, nch, bytesPerSample, prime);
    FrameTrackersFollowIdeal(nch, FrameResiduals(pcm, nch, bytesPerSample, prime), if bytesPerSample == 2 then 24 else 27);
  }

  /** For arbitrary bit streams both parameters stay at or below 31. */
  lemma {:induction false} AnyStreamKeepsK(q: seq<Trackers>, s: Bits, n: nat)
    requires q != [] && AllValid(q)
    ensures match ReadResiduals(q, s, n) case None => true case Some((_, q', _)) => AllValid(q')
    decreases n
  {
    hide BitReader.TakeUnary, BitReader.TakeBits, Dezigzag, AdaptK, Feedback;
    if n > 0 && ReadResidual(q[0], s).Some? {
      var (e, t, rest) := ReadResidual(q[0], s).value;
      AnyStreamKeepsK(Turn(q, t), rest, n - 1);
    }
  }
}
