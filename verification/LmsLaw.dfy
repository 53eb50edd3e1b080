/** What one Stage-A step computes, in plain arithmetic: the prediction as a rounded
    quotient of the eight written-out products, the signs that enter the taps, and runs
    worked out number by number. */
module LmsLaw {
  import opened Words
  import opened Results
  import opened Rice
  import opened Pipeline
  import opened ChannelSteps
  import opened Frame
  import opened FrameTheorems
  import Lms
  import StageB

  /** A weight after the last residual `e`: plus, minus or without its tap. */
  function Nudged(w: int, x: int, e: int): int {
    if e > 0 then w + x else if e < 0 then w - x else w
  }

  /** The next weights, wrapped to 32 bits. */
  ghost predicate NextWeights(m: Lms.Lms, w: seq<int>) {
    |w| == 8 && forall i :: 0 <= i < 8 ==> w[i] == WrapI32(Nudged(m.qm[i], m.dx[i], m.error))
  }

  lemma AdaptedIsNudged(m: Lms.Lms, i: nat)
    requires i < 8
    ensures Lms.Adapted(m)[i] == WrapI32(Nudged(m.qm[i], m.dx[i], m.error))
  {
    var x: int, w: int := m.dx[i], m.qm[i];
    hide WrapI32;
    WrapI32Same(x);
    WrapI32Same(0);
    WrapI32Same(w);
    WrapSum(w, -x);
    assert Lms.Sign(m.error) * m.dx[i] == if m.error > 0 then x else if m.error < 0 then -x else 0;
  }

  /** The exact sum of the eight products. */
  function Products(dl: Lms.Taps, w: seq<int>): int
    requires |w| == 8
  {
    dl[0] * w[0] + dl[1] * w[1] + dl[2] * w[2] + dl[3] * w[3]
    + dl[4] * w[4] + dl[5] * w[5] + dl[6] * w[6] + dl[7] * w[7]
  }

  lemma NextProduct(dl: Lms.Taps, w: Lms.Taps, n: nat)
    requires n < 8
    ensures var x: int, y: int := dl[n], w[n]; Lms.ExactDot(dl, w, n + 1) == Lms.ExactDot(dl, w, n) + x * y
  {
  }

  lemma DotOfEight(dl: Lms.Taps, w: Lms.Taps)
    ensures Lms.ExactDot(dl, w, 8) == Products(dl, w)
  {
    assert Lms.ExactDot(dl, w, 0) == 0;
    NextProduct(dl, w, 0);
    NextProduct(dl, w, 1);
    NextProduct(dl, w, 2);
    NextProduct(dl, w, 3);
    NextProduct(dl, w, 4);
    NextProduct(dl, w, 5);
    NextProduct(dl, w, 6);
    NextProduct(dl, w, 7);
    hide Lms.ExactDot;
  }

  /** The filter width a frame of two- or three-byte samples starts with. */
  ghost predicate FilterOf(m: Lms.Lms, bytesPerSample: nat)
    requires 2 <= bytesPerSample <= 3
  {
    m.shift == FrameEntry(bytesPerSample, None).predictor.lms.shift
  }

  lemma AdaptedAre(m: Lms.Lms, w: seq<int>)
    requires NextWeights(m, w)
    ensures Lms.Adapted(m) == w
  {
    hide WrapI32, Lms.Adapted, Nudged;
    forall i | 0 <= i < 8
      ensures Lms.Adapted(m)[i] == w[i]
    {
      AdaptedIsNudged(m, i);
    }
  }

  /** The shift is a division by 512 or 1024, rounded down. */
  lemma ShiftIsDivision(m: Lms.Lms)
    requires Lms.ShiftOk(m.shift)
    ensures var unit := if m.shift == 9 then 512 else 1024;
            var sum := Lms.Dot(m.dl, Lms.Adapted(m), Lms.Round(m.shift), 8);
            && Lms.Round(m.shift) == unit / 2
            && unit * Lms.Predict(m) <= sum < unit * (Lms.Predict(m) + 1)
  {
    hide Lms.Dot, Lms.Adapted;
    Pow2Values();
  }

  /** The prediction of a two-byte channel is the wrapped sum of 256 and the eight
      products, divided by 512 and rounded down; of a three-byte channel, 512 and 1024. */
  lemma PredictionLaw(m: Lms.Lms, w: seq<int>, bytesPerSample: nat)
    requires 2 <= bytesPerSample <= 3 && FilterOf(m, bytesPerSample) && NextWeights(m, w)
    ensures var unit := if bytesPerSample == 2 then 512 else 1024;
            var sum := WrapI32(unit / 2 + Products(m.dl, w));
            unit * Lms.Predict(m) <= sum < unit * (Lms.Predict(m) + 1)
  {
    hide WrapI32, Lms.Adapted, Lms.Dot, Lms.Predict, Lms.ExactDot, Products, NextWeights, Lms.Round;
    AdaptedAre(m, w);
    ShiftIsDivision(m);
    Lms.DotWrapsOnce(m.dl, Lms.Adapted(m), Lms.Round(m.shift), 8);
    DotOfEight(m.dl, Lms.Adapted(m));
  }

  /** The rest of the step: weights, shifted taps, signed magnitudes and the residual. */
  lemma StepLaw(m: Lms.Lms, e: i32, s: i32, w: seq<int>)
    requires NextWeights(m, w)
    ensures var n := Lms.Advance(m, e, s);
            && n.error == e && n.shift == m.shift && n.qm == w
            && n.dx[0] == m.dx[1] && n.dx[1] == m.dx[2] && n.dx[2] == m.dx[3] && n.dx[3] == m.dx[4]
            && n.dx[4] == (if m.dl[4] >= 0 then 1 else -1)
            && n.dx[5] == (if m.dl[5] >= 0 then 2 else -2)
            && n.dx[6] == (if m.dl[6] >= 0 then 2 else -2)
            && n.dx[7] == (if m.dl[7] >= 0 then 4 else -4)
  {
    hide WrapI32, SubI32, Lms.Adapted, NextWeights;
    AdaptedAre(m, w);
  }

  // ----- worked runs

  /** A step is worked out once its eight next weights, its sum and its quotient are. */
  lemma Worked(m: Lms.Lms, e: i32, w: Lms.Taps, p: int)
    requires m.shift == 9
    requires forall i :: 0 <= i < 8 ==> w[i] == Nudged(m.qm[i], m.dx[i], m.error)
    requires -TWO31 <= 256 + Products(m.dl, w) < TWO31
    requires 512 * p <= 256 + Products(m.dl, w) < 512 * (p + 1)
    ensures Lms.Predict(m) == p && Lms.Adapted(m) == w
  {
    hide Lms.Adapted, Lms.Predict, Products, WrapI32, Nudged;
    forall i | 0 <= i < 8
      ensures w[i] == WrapI32(Nudged(m.qm[i], m.dx[i], m.error))
    {
      WrapI32Same(w[i]);
    }
    assert NextWeights(m, w);
    WrapI32Same(256 + Products(m.dl, w));
    AdaptedAre(m, w);
    PredictionLaw(m, w, 2);
  }

  const QUIET: Lms.Taps := [0, 0, 0, 0, 0, 0, 0, 0]

  function Entry(prime: Lms.Taps): (m: Lms.Lms)
    ensures m.shift == 9
  {
    FrameEntry(2, Some(prime)).predictor.lms
  }

  /** A sample after silence is all its own differences. */
  lemma FromSilence(dx: Lms.Taps, e: i32, w: Lms.Taps)
    requires Lms.Adapted(Lms.Lms(QUIET, dx, w, 0, 9)) == w
    ensures Lms.Advance(Lms.Lms(QUIET, dx, w, 0, 9), e, e)
         == Lms.Lms([0, 0, 0, 0, e, e, e, e], [dx[1], dx[2], dx[3], dx[4], 1, 2, 2, 4], w, e, 9)
  {
    hide Lms.Adapted, WrapI32;
    WrapI32Same(e);
  }

  /** The first step of any two-byte channel predicts nothing, whatever its weights. */
  lemma FirstStep(prime: Lms.Taps, e: i32)
    ensures Lms.Predict(Entry(prime)) == 0
    ensures Lms.Reconstruct(Entry(prime), e) == e
    ensures Lms.Advance(Entry(prime), e, e)
         == Lms.Lms([0, 0, 0, 0, e, e, e, e], [0, 0, 0, 0, 1, 2, 2, 4], prime, e, 9)
  {
    Worked(Entry(prime), e, prime, 0);
    hide WrapI32, Lms.Adapted, Lms.Predict;
    WrapI32Same(e);
    FromSilence(QUIET, e, prime);
  }

  /** After a residual 0, and after a further residual 1026. */
  function SecondState(): (m: Lms.Lms)
    ensures m.shift == 9
  {
    Lms.Lms(QUIET, [0, 0, 0, 0, 1, 2, 2, 4], QUIET, 0, 9)
  }

  function ThirdState(): (m: Lms.Lms)
    ensures m.shift == 9
  {
    Lms.Lms([0, 0, 0, 0, 1026, 1026, 1026, 1026], [0, 0, 0, 1, 1, 2, 2, 4], QUIET, 1026, 9)
  }

  lemma SilentStep()
    ensures Lms.Reconstruct(Entry(QUIET), 0) == 0
    ensures Lms.Advance(Entry(QUIET), 0, 0) == SecondState()
  {
    hide Lms.Advance, Lms.Reconstruct, Entry;
    FirstStep(QUIET, 0);
  }

  lemma SecondStep()
    ensures Lms.Reconstruct(SecondState(), 1026) == 1026
    ensures Lms.Advance(SecondState(), 1026, 1026) == ThirdState()
  {
    Worked(SecondState(), 1026, QUIET, 0);
    hide Lms.Predict, Lms.Adapted;
    FromSilence([0, 0, 0, 0, 1, 2, 2, 4], 1026, QUIET);
  }

  /** The sum is 256 + 9 * 1026 = 9490, and 9490 / 512 is 18. */
  lemma ThirdStep()
    ensures Lms.Reconstruct(ThirdState(), 1038) == 1056
  {
    hide Lms.Predict, Lms.Adapted;
    Worked(ThirdState(), 1038, [0, 0, 0, 1, 1, 2, 2, 4], 18);
  }

  /** A two-byte unprimed channel turns residuals 0, 1026, 1038 into 0, 1026, 1056. */
  lemma ThreeResiduals()
    ensures var m0 := Entry(QUIET);
            var s1 := Lms.Reconstruct(m0, 0);
            var m1 := Lms.Advance(m0, 0, s1);
            var s2 := Lms.Reconstruct(m1, 1026);
            var m2 := Lms.Advance(m1, 1026, s2);
            [s1, s2, Lms.Reconstruct(m2, 1038)] == [0, 1026, 1056]
  {
    hide Lms.Advance, Lms.Reconstruct, Entry, SecondState, ThirdState;
    SilentStep();
    SecondStep();
    ThirdStep();
  }

  // ----- whole frames

  /** A single channel has nothing to be decorrelated from. */
  lemma {:induction false} OneChannel(ds: seq<i32>)
    ensures InverseAll(ds, 1) == ds
    decreases |ds|
  {
    if ds != [] {
      OneChannel(ds[1..]);
      assert ds == ds[..1] + ds[1..];
    }
  }

  /** One restored sample, its two predictions added up. */
  lemma RestoreStep(p: Predictor, e: i32, a: i32, pb: int, m: Lms.Lms)
    requires p.Valid() && Lms.Reconstruct(p.lms, e) == a && Lms.Advance(p.lms, e, a) == m
    requires 0 <= 31 * p.prev - 32 * pb < 32 && -0x400_0000 <= p.prev < 0x400_0000
    requires -TWO31 <= a + pb < TWO31
    ensures Restore(p, e) == (a + pb, Predictor(m, a + pb))
  {
    hide Lms.Reconstruct, Lms.Advance, WrapI32, StageB.Predict;
    StageB.PredictDecays(p.prev);
    WrapI32Same(a + pb);
  }

  lemma RebuildOne(p: Predictor, e: i32, rest: seq<i32>)
    requires p.Valid()
    ensures Rebuild([p], [e] + rest) == [Restore(p, e).0] + Rebuild([Restore(p, e).1], rest)
  {
    hide Restore;
    assert ([e] + rest)[1..] == rest;
    assert Turn([p], Restore(p, e).1) == [Restore(p, e).1];
  }

  lemma MonoFrame(es: seq<i32>, prime: Priming)
    ensures FrameEntry(2, prime).predictor.Valid()
    ensures FrameSamples(es, 1, 2, prime) == Rebuild([FrameEntry(2, prime).predictor], es)
  {
    hide Rebuild;
    var p, q := FrameEntry(2, prime).predictor, FrameQueue(1, 2, prime);
    TurnLayers(q, q[0]);
    assert Predictors(q) == [p];
    OneChannel(Rebuild([p], es));
  }

  lemma SameEntry()
    ensures FrameEntry(2, None) == FrameEntry(2, Some(QUIET))
    ensures FrameEntry(2, None).predictor == Predictor(Entry(QUIET), 0)
  {
  }

  lemma RebuildTwo(p: Predictor, e: i32, e': i32)
    requires p.Valid()
    ensures var (d, p1) := Restore(p, e); Rebuild([p], [e, e']) == [d, Restore(p1, e').0]
  {
    hide Restore;
    assert [e, e'] == [e] + ([e'] + []);
    RebuildOne(p, e, [e'] + []);
    RebuildOne(Restore(p, e).1, e', []);
    RebuildNone(Restore(Restore(p, e).1, e').1);
  }

  lemma FirstRestored()
    ensures Restore(Predictor(Entry(QUIET), 0), 0) == (0, Predictor(SecondState(), 0))
  {
    hide Lms.Advance, Lms.Reconstruct, Restore, Entry, SecondState;
    SilentStep();
    RestoreStep(Predictor(Entry(QUIET), 0), 0, 0, 0, SecondState());
  }

  lemma SecondRestored()
    ensures Restore(Predictor(SecondState(), 0), 1026) == (1026, Predictor(ThirdState(), 1026))
  {
    hide Lms.Advance, Lms.Reconstruct, Restore, SecondState, ThirdState;
    SecondStep();
    RestoreStep(Predictor(SecondState(), 0), 1026, 1026, 0, ThirdState());
  }

  lemma ThirdRestored()
    ensures Restore(Predictor(ThirdState(), 1026), 1038).0 == 2049
  {
    hide Lms.Advance, Lms.Reconstruct, Restore, ThirdState;
    ThirdStep();
    RestoreStep(Predictor(ThirdState(), 1026), 1038, 1056, 993, Lms.Advance(ThirdState(), 1038, 1056));
  }

  lemma ThreeRebuilt(p: Predictor)
    requires p == Predictor(Entry(QUIET), 0)
    ensures Rebuild([p], [0, 1026, 1038]) == [0, 1026, 2049]
  {
    hide Restore, Rebuild, Entry, SecondState, ThirdState;
    FirstRestored();
    SecondRestored();
    ThirdRestored();
    assert [0, 1026, 1038] == [0] + [1026, 1038];
    RebuildOne(p, 0, [1026, 1038]);
    RebuildTwo(Predictor(SecondState(), 0), 1026, 1038);
  }

  /** A two-byte mono frame of residuals 0, 1026, 1038 holds the samples 0, 1026, 2049. */
  lemma ThreeSamples()
    ensures FrameSamples([0, 1026, 1038], 1, 2, None) == [0, 1026, 2049]
  {
    SameEntry();
    hide Rebuild, FrameSamples, FrameEntry, Entry;
    MonoFrame([0, 1026, 1038], None);
    ThreeRebuilt(FrameEntry(2, None).predictor);
  }

  lemma RebuildNone(p: Predictor)
    requires p.Valid()
    ensures Rebuild([p], []) == []
  {
  }

  /** The second step after a first residual 1024, from weights `prime`. */
  lemma LoudStep(prime: Lms.Taps, w: Lms.Taps, p: int)
    requires forall i :: 0 <= i < 8 ==> w[i] == Nudged(prime[i], [0, 0, 0, 0, 1, 2, 2, 4][i], 1024)
    requires 512 * p <= 256 + Products([0, 0, 0, 0, 1024, 1024, 1024, 1024], w) < 512 * (p + 1)
    requires -1000 <= p <= 1000
    ensures Lms.Reconstruct(Lms.Lms([0, 0, 0, 0, 1024, 1024, 1024, 1024], [0, 0, 0, 0, 1, 2, 2, 4], prime, 1024, 9), 0) == p
  {
    var m := Lms.Lms([0, 0, 0, 0, 1024, 1024, 1024, 1024], [0, 0, 0, 0, 1, 2, 2, 4], prime, 1024, 9);
    hide Products, Nudged;
    Worked(m, 0, w, p);
    hide Lms.Predict, WrapI32;
    WrapI32Same(p);
  }

  lemma TwoSamples(prime: Lms.Taps, p: int)
    requires -1000 <= p <= 1000
    requires Lms.Reconstruct(Lms.Lms([0, 0, 0, 0, 1024, 1024, 1024, 1024], [0, 0, 0, 0, 1, 2, 2, 4], prime, 1024, 9), 0) == p
    ensures FrameSamples([1024, 0], 1, 2, Some(prime)) == [1024, p + 992]
  {
    var m1 := Lms.Lms([0, 0, 0, 0, 1024, 1024, 1024, 1024], [0, 0, 0, 0, 1, 2, 2, 4], prime, 1024, 9);
    FirstStep(prime, 1024);
    assert FrameEntry(2, Some(prime)).predictor == Predictor(Entry(prime), 0);
    hide Lms.Advance, Lms.Reconstruct, Rebuild, Restore, FrameSamples, FrameEntry, Entry;
    MonoFrame([1024, 0], Some(prime));
    RestoreStep(Predictor(Entry(prime), 0), 1024, 1024, 0, m1);
    RestoreStep(Predictor(m1, 1024), 0, p, 992, Lms.Advance(m1, 0, p));
    RebuildTwo(Predictor(Entry(prime), 0), 1024, 0);
  }

  /** Without a password residuals 1024, 0 give the samples 1024, 1010. */
  lemma UnprimedPair()
    ensures FrameSamples([1024, 0], 1, 2, Some(QUIET)) == [1024, 1010]
  {
    hide FrameSamples;
    LoudStep(QUIET, [0, 0, 0, 0, 1, 2, 2, 4], 18);
    hide Lms.Reconstruct;
    TwoSamples(QUIET, 18);
  }

  /** Priming reaches the samples: with a last weight of 64 they are 1024, 1138. */
  lemma PrimedPair()
    ensures FrameSamples([1024, 0], 1, 2, Some([0, 0, 0, 0, 0, 0, 0, 64])) == [1024, 1138]
  {
    hide FrameSamples;
    LoudStep([0, 0, 0, 0, 0, 0, 0, 64], [0, 0, 0, 0, 1, 2, 2, 68], 146);
    hide Lms.Reconstruct;
    TwoSamples([0, 0, 0, 0, 0, 0, 0, 64], 146);
  }
}
