/** A short, loud input that drives the Rice parameter past 16: a square wave of seven
    24-bit samples. No prediction has to be evaluated; its bound is enough. */
module HighParameter {
  import opened Words
  import opened Rice
  import opened Pipeline
  import opened ChannelSteps
  import opened Frame
  import opened FrameTheorems
  import opened Bounds
  import opened Results
  import StageB
  import Lms

  const LOUD: i32 := 0x7F_FFFF

  /** `n` samples of alternating sign, the first with the sign of `d`. */
  function Wave(d: i32, n: nat): (w: seq<i32>)
    requires d == LOUD || d == -LOUD
    ensures |w| == n
    decreases n
  {
    if n == 0 then [] else [d] + Wave(-d, n - 1)
  }

  lemma {:induction false} WaveInRange(d: i32, n: nat)
    requires d == LOUD || d == -LOUD
    ensures InRange(Wave(d, n), 3)
    decreases n
  {
    if n > 0 {
      WaveInRange(-d, n - 1);
    }
  }

  /** A three-byte channel that has last seen silence or the opposite extreme. */
  ghost predicate Swings(p: Predictor, d: i32) {
    p.lms.shift == 10 && (p.prev == 0 || p.prev + d == 0)
  }

  ghost predicate Loud(e: i32) {
    Pow2(22) <= Zigzag(e) < Pow2(27)
  }

  lemma LoudResidual(p: Predictor, d: i32)
    requires (d == LOUD || d == -LOUD) && Swings(p, d)
    ensures Loud(Remove(p, d).0) && Swings(Remove(p, d).1, -d)
  {
    Pow2Values();
    hide Lms.Predict, Lms.Advance, WrapI32, Zigzag, Pow2, StageB.Predict;
    var pb, pa := StageB.Predict(p.prev), Lms.Predict(p.lms);
    StageB.PredictDecays(p.prev);
    LoudDifference(d, p.prev, pb, pa);
    WrapI32Same(d - pb);
    WrapI32Same(d - pb - pa);
    ZigzagInside(d - pb - pa);
  }

  lemma LoudDifference(d: int, prev: int, pb: int, pa: int)
    requires (d == LOUD || d == -LOUD) && (prev == 0 || prev + d == 0)
    requires 0 <= 31 * prev - 32 * pb < 32 && -0x40_0000 <= pa < 0x40_0000
    ensures 0x20_0000 < d - pb - pa < 0x400_0000 || -0x400_0000 < d - pb - pa < -0x20_0000
  {
  }

  lemma {:induction false} LoudResiduals(p: Predictor, d: i32, n: nat)
    requires (d == LOUD || d == -LOUD) && Swings(p, d)
    ensures PredictorsValid([p])
    ensures forall i :: 0 <= i < n ==> Loud(Residuals([p], Wave(d, n))[i])
    decreases n
  {
    hide Remove, Loud;
    if n > 0 {
      LoudResidual(p, d);
      var (e, p') := Remove(p, d);
      OnlyTurn(p, p');
      assert Wave(d, n)[1..] == Wave(-d, n - 1);
      LoudResiduals(p', -d, n - 1);
      assert Residuals([p], Wave(d, n)) == [e] + Residuals([p'], Wave(-d, n - 1));
    }
  }

  /** A loud residual moves the parameter up by one while it is below 17. */
  lemma LoudStep(t: Trackers, e: i32)
    requires Bounded(t, 27) && Loud(e) && t.k0 <= 16
    ensures Bounded(AfterCodeword(t, e), 27) && AfterCodeword(t, e).k0 == t.k0 + 1
  {
    StepIdeal(t, e, 27);
    hide Pow2, Zigzag, AfterCodeword, IdealAfter;
    IdealClimb(Lift(t), e);
  }

  lemma IdealClimb(t: Ideal, e: i32)
    requires t.k0 <= 16 && Pow2(22) <= Zigzag(e)
    ensures IdealAfter(t, e).k0 == t.k0 + 1
  {
    hide Pow2, Zigzag;
    var sum := IdealFeedback(t.sum0, Zigzag(e));
    assert sum >= Zigzag(e);
    Pow2Mono(t.k0 + 4, t.k0 + 5);
    Pow2Mono(t.k0 + 5, 21);
    Pow2Mono(21, 22);
  }

  lemma OnlyTurn<T>(x: T, y: T)
    ensures Turn([x], y) == [y]
  {
  }

  lemma {:induction false} LoudClimb(t: Trackers, es: seq<i32>)
    requires Bounded(t, 27) && t.k0 + |es| <= 17
    requires forall i :: 0 <= i < |es| ==> Loud(es[i])
    ensures TrackersAfter([t], es)[0].k0 == t.k0 + |es|
    decreases |es|
  {
    hide Bounded, Loud, AfterCodeword, Pow2, Zigzag;
    if es != [] {
      assert Loud(es[0]);
      LoudStep(t, es[0]);
      var t' := AfterCodeword(t, es[0]);
      OnlyTurn(t, t');
      hide Turn;
      LoudClimb(t', es[1..]);
    }
  }

  /** Seven in-range samples, and the parameter is 17. */
  lemma SeventeenReached()
    ensures InRange(Wave(LOUD, 7), 3)
    ensures WholeSlots(Wave(LOUD, 7), 1)
    ensures TrackersAfter(InitialTrackings(1), FrameResiduals(Wave(LOUD, 7), 1, 3, None))[0].k0 == 17
  {
    hide Wave, Residuals, TrackersAfter, Loud, ForwardAll, FrameQueue, Predictors;
    var w := Wave(LOUD, 7);
    WaveInRange(LOUD, 7);
    OneChannel(w);
    LoudFrame(7);
    InitialBounded();
    LoudClimb(FRAME_INIT, FrameResiduals(w, 1, 3, None));
    assert InitialTrackings(1) == [FRAME_INIT];
  }

  lemma LoudFrame(n: nat)
    ensures WholeSlots(Wave(LOUD, n), 1)
    ensures forall i :: 0 <= i < n ==> Loud(FrameResiduals(Wave(LOUD, n), 1, 3, None)[i])
  {
    hide Wave, Residuals, Loud, ForwardAll;
    var q, p := FrameQueue(1, 3, None), FrameEntry(3, None).predictor;
    TurnLayers(q, q[0]);
    assert Predictors(q) == [p];
    OneChannel(Wave(LOUD, n));
    LoudResiduals(p, LOUD, n);
  }

  lemma InitialBounded()
    ensures Bounded(FRAME_INIT, 27)
  {
    Pow2Values();
    Pow2Mono(15, 31);
  }

  /** A single channel has nothing to be decorrelated from. */
  lemma {:induction false} OneChannel(pcm: seq<i32>)
    ensures ForwardAll(pcm, 1) == pcm
    decreases |pcm|
  {
    if pcm != [] {
      OneChannel(pcm[1..]);
      assert pcm == pcm[..1] + pcm[1..];
    }
  }
}
