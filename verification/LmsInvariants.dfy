/** What the Stage-A state holds after any number of steps from frame entry, on the
    encoder's side as on the decoder's: both enter a residual and a sample. */
module LmsInvariants {
  import opened Words
  import opened Lms

  datatype Step = Step(e: i32, s: i32)

  /** The state after the given steps. */
  function After(m: Lms, steps: seq<Step>): (r: Lms)
    ensures r.shift == m.shift
  {
    if steps == [] then m
    else
      var last := steps[|steps| - 1];
      Advance(After(m, steps[..|steps| - 1]), last.e, last.s)
  }

  /** A decoder run: the steps for a list of residuals. */
  function DecoderSteps(m: Lms, es: seq<i32>): (steps: seq<Step>)
    requires ShiftOk(m.shift)
    ensures |steps| == |es|
  {
    if es == [] then []
    else
      var steps := DecoderSteps(m, es[..|es| - 1]);
      var e := es[|es| - 1];
      steps + [Step(e, Reconstruct(After(m, steps), e))]
  }

  /** An encoder run: the steps for a list of samples. */
  function EncoderSteps(m: Lms, ss: seq<i32>): (steps: seq<Step>)
    requires ShiftOk(m.shift)
    ensures |steps| == |ss|
  {
    if ss == [] then []
    else
      var steps := EncoderSteps(m, ss[..|ss| - 1]);
      var s := ss[|ss| - 1];
      steps + [Step(Residual(After(m, steps), s), s)]
  }

  /** An encoder and a decoder fed with its residuals take the same steps. */
  lemma {:induction false} SidesAgree(m: Lms, ss: seq<i32>)
    requires ShiftOk(m.shift)
    ensures DecoderSteps(m, Errors(EncoderSteps(m, ss))) == EncoderSteps(m, ss)
  {
    if ss != [] {
      hide Residual, Reconstruct, After, Errors;
      var ss', s := ss[..|ss| - 1], ss[|ss| - 1];
      var steps := EncoderSteps(m, ss');
      SidesAgree(m, ss');
      StepRoundTrip(After(m, steps), s);
      ErrorsAppend(steps, Step(Residual(After(m, steps), s), s));
      assert (Errors(steps) + [Residual(After(m, steps), s)])[..|steps|] == Errors(steps);
    }
  }

  lemma ErrorsAppend(steps: seq<Step>, x: Step)
    ensures Errors(steps + [x]) == Errors(steps) + [x.e]
  {
  }

  function Errors(steps: seq<Step>): (es: seq<i32>)
    ensures |es| == |steps|
  {
    seq(|steps|, i requires 0 <= i < |steps| => steps[i].e)
  }

  // ----- the sample history

  /** The sample `lag` steps before the latest, zero before the first. */
  function Sample(steps: seq<Step>, lag: nat): int {
    if lag < |steps| then steps[|steps| - 1 - lag].s else 0
  }

  /** Backward differences ending `lag` steps before the latest sample. */
  function Diff1(steps: seq<Step>, lag: nat): int {
    Sample(steps, lag) - Sample(steps, lag + 1)
  }

  function Diff2(steps: seq<Step>, lag: nat): int {
    Diff1(steps, lag) - Diff1(steps, lag + 1)
  }

  function Diff3(steps: seq<Step>, lag: nat): int {
    Diff2(steps, lag) - Diff2(steps, lag + 1)
  }

  ghost predicate Congruent(x: int, y: int) {
    (x - y) % TWO32 == 0
  }

  /** Modulo 2^32, taps 7 to 4 hold the latest sample and its first three backward
      differences, taps 3 to 0 the third differences of the four samples before. */
  ghost predicate HistoryHolds(dl: Taps, steps: seq<Step>) {
    && dl[7] == Sample(steps, 0)
    && Congruent(dl[6], Diff1(steps, 0))
    && Congruent(dl[5], Diff2(steps, 0))
    && Congruent(dl[4], Diff3(steps, 0))
    && Congruent(dl[3], Diff3(steps, 1))
    && Congruent(dl[2], Diff3(steps, 2))
    && Congruent(dl[1], Diff3(steps, 3))
    && Congruent(dl[0], Diff3(steps, 4))
  }

  /** One more step moves every lag by one. */
  lemma Older(steps: seq<Step>, x: Step, lag: nat)
    ensures Sample(steps + [x], lag + 1) == Sample(steps, lag)
    ensures Diff1(steps + [x], lag + 1) == Diff1(steps, lag)
    ensures Diff2(steps + [x], lag + 1) == Diff2(steps, lag)
    ensures Diff3(steps + [x], lag + 1) == Diff3(steps, lag)
    ensures Sample(steps + [x], 0) == x.s
  {
  }

  lemma SubCongruent(a: int, b: int, x: int, y: int)
    requires Congruent(a, x) && Congruent(b, y)
    ensures Congruent(SubI32(a, b), x - y)
  {
  }

  /** `s - d2 - d1 - s0` is the next difference up: the cumulative form of STEP 5. */
  lemma Telescope(steps: seq<Step>, x: Step)
    ensures Diff1(steps + [x], 0) == x.s - Sample(steps, 0)
    ensures Diff2(steps + [x], 0) == x.s - Diff1(steps, 0) - Sample(steps, 0)
    ensures Diff3(steps + [x], 0) == x.s - Diff2(steps, 0) - Diff1(steps, 0) - Sample(steps, 0)
  {
    Older(steps, x, 0);
    Older(steps, x, 1);
    Older(steps, x, 2);
  }

  lemma {:induction false} HistoryInvariant(prime: Taps, shift: nat, steps: seq<Step>)
    ensures HistoryHolds(After(Lms(NO_TAPS, NO_TAPS, prime, 0, shift), steps).dl, steps)
  {
    var m0 := Lms(NO_TAPS, NO_TAPS, prime, 0, shift);
    if steps != [] {
      var past, x := steps[..|steps| - 1], steps[|steps| - 1];
      HistoryInvariant(prime, shift, past);
      assert steps == past + [x];
      hide Sample, Diff1, Diff2, Diff3, Adapted, Signed;
      HistoryStep(After(m0, past), past, x);
    }
  }

  lemma HistoryStep(m: Lms, past: seq<Step>, x: Step)
    requires HistoryHolds(m.dl, past)
    ensures HistoryHolds(Advance(m, x.e, x.s).dl, past + [x])
  {
    hide Sample, Diff1, Diff2, Diff3, Adapted, Signed, SubI32, Congruent;
    Telescope(past, x);
    Older(past, x, 0);
    Older(past, x, 1);
    Older(past, x, 2);
    Older(past, x, 3);
    Same(x.s);
    Same(m.dl[7]);
    var a := SubI32(x.s, m.dl[7]);
    SubCongruent(x.s, m.dl[7], x.s, Sample(past, 0));
    SubCongruent(x.s, m.dl[6], x.s, Diff1(past, 0));
    SubCongruent(SubI32(x.s, m.dl[6]), m.dl[7], x.s - Diff1(past, 0), Sample(past, 0));
    SubCongruent(x.s, m.dl[5], x.s, Diff2(past, 0));
    SubCongruent(SubI32(x.s, m.dl[5]), m.dl[6], x.s - Diff2(past, 0), Diff1(past, 0));
    SubCongruent(SubI32(SubI32(x.s, m.dl[5]), m.dl[6]), m.dl[7], x.s - Diff2(past, 0) - Diff1(past, 0), Sample(past, 0));
  }

  lemma Same(x: int)
    ensures Congruent(x, x)
  {
  }

  // ----- the weights

  /** The largest magnitude tap `i` of `dx` ever holds. */
  function TapLimit(i: nat): int {
    if i <= 4 then 1 else if i <= 6 then 2 else 4
  }

  ghost predicate TapsBounded(dx: Taps) {
    forall i :: 0 <= i < 8 ==> -TapLimit(i) <= dx[i] <= TapLimit(i)
  }

  ghost predicate WeightsBounded(qm: Taps, limit: int) {
    forall i :: 0 <= i < 8 ==> -limit <= qm[i] <= limit
  }

  /** STEP 1 as exact integer arithmetic. */
  ghost predicate AdaptsExactly(m: Lms) {
    forall i :: 0 <= i < 8 ==> Adapted(m)[i] == m.qm[i] + Sign(m.error) * m.dx[i]
  }

  lemma AdaptBounded(m: Lms, limit: int)
    requires TapsBounded(m.dx) && WeightsBounded(m.qm, limit)
    requires 0 <= limit && limit + 4 < TWO31
    ensures AdaptsExactly(m)
    ensures WeightsBounded(Adapted(m), limit + 4)
  {
    forall i | 0 <= i < 8
      ensures Adapted(m)[i] == m.qm[i] + Sign(m.error) * m.dx[i]
      ensures -limit - 4 <= Adapted(m)[i] <= limit + 4
    {
      hide WrapI32;
      var g := Sign(m.error) * m.dx[i];
      assert -4 <= g <= 4;
      WrapI32Same(g);
      WrapI32Same(m.qm[i] + g);
    }
  }

  lemma TapsStayBounded(m: Lms, e: i32, s: i32)
    requires TapsBounded(m.dx)
    ensures TapsBounded(Advance(m, e, s).dx)
  {
    hide Adapted, SubI32;
  }

  /** After `n` steps from frame entry with byte-sized priming no weight exceeds
      128 + 4n, and the next STEP 1 does not wrap. */
  lemma {:induction false} WeightsNeverWrap(prime: Taps, shift: nat, steps: seq<Step>)
    requires WeightsBounded(prime, 128)
    requires 128 + 4 * (|steps| + 1) < TWO31
    ensures var m := After(Lms(NO_TAPS, NO_TAPS, prime, 0, shift), steps);
            TapsBounded(m.dx) && WeightsBounded(m.qm, 128 + 4 * |steps|) && AdaptsExactly(m)
  {
    var m0 := Lms(NO_TAPS, NO_TAPS, prime, 0, shift);
    if steps != [] {
      var past, x := steps[..|steps| - 1], steps[|steps| - 1];
      hide Adapted, Signed, SubI32, TapsBounded, WeightsBounded, AdaptsExactly;
      WeightsNeverWrap(prime, shift, past);
      var m := After(m0, past);
      AdaptBounded(m, 128 + 4 * |past|);
      TapsStayBounded(m, x.e, x.s);
    }
    AdaptBounded(After(m0, steps), 128 + 4 * |steps|);
  }
}
