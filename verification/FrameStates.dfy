/** The Stage-A states a frame reaches: each channel's filter, in the middle of an
    interleaved run of either side, is the filter of that channel's residuals alone. So
    the invariants of single filters hold of every state of every frame. */
module FrameStates {
  import opened Words
  import opened Bits
  import opened Results
  import opened Rice
  import opened Pipeline
  import opened ChannelSteps
  import opened Format
  import opened Frame
  import opened LmsInvariants
  import Lms
  import Password

  /** The queue of predictors after restoring from residuals `es`. */
  function PredictorsAfter(q: seq<Predictor>, es: seq<i32>): (r: seq<Predictor>)
    requires q != [] && PredictorsValid(q)
    ensures |r| == |q|
    decreases |es|
  {
    if es == [] then q else PredictorsAfter(Turn(q, Restore(q[0], es[0]).1), es[1..])
  }

  /** Residuals dealt in turn to the channels' lists, the head of the queue first. */
  function Dealt(lists: seq<seq<i32>>, es: seq<i32>): (r: seq<seq<i32>>)
    requires lists != []
    ensures |r| == |lists|
    decreases |es|
  {
    if es == [] then lists else Dealt(Turn(lists, lists[0] + [es[0]]), es[1..])
  }

  // ----- both sides are driven by the residuals alone

  lemma {:induction false} EncoderPredictors(q: seq<Channel>, ds: seq<i32>)
    requires q != [] && ChannelsValid(q)
    ensures PredictorsValid(Predictors(q)) && |EncodeStates(q, ds)| == |q|
    ensures Predictors(EncodeStates(q, ds)) == PredictorsAfter(Predictors(q), Residuals(Predictors(q), ds))
    decreases |ds|
  {
    hide Remove, Restore, Codeword, AfterCodeword, Predictors, Trackings, Turn;
    TurnLayers(q, q[0]);
    HeadLayers(q);
    if ds != [] {
      var c := EncodeStep(q[0], ds[0]).1;
      TurnLayers(q, c);
      EncoderPredictors(Turn(q, c), ds[1..]);
      PredictorRoundTrip(q[0].predictor, ds[0]);
      ResidualsHead(q, ds);
    }
  }

  lemma {:induction false} DecoderPredictors(q: seq<Channel>, s: Bits, n: nat)
    requires q != [] && ChannelsValid(q)
    ensures PredictorsValid(Predictors(q))
    ensures match DecodeStates(q, s, n)
            case None => true
            case Some((q', _)) =>
              && ReadResiduals(Trackings(q), s, n).Some?
              && Predictors(q') == PredictorsAfter(Predictors(q), ReadResiduals(Trackings(q), s, n).value.0)
    decreases n
  {
    hide Restore, ReadResidual, Trackings, Predictors, Turn;
    TurnLayers(q, q[0]);
    HeadLayers(q);
    if n > 0 && DecodeStep(q[0], s).Some? {
      var (d, c, rest) := DecodeStep(q[0], s).value;
      TurnLayers(q, c);
      DecoderPredictors(Turn(q, c), rest, n - 1);
    }
  }

  // ----- and each channel by its own

  /** Every queued filter has gone through exactly its list of residuals. */
  ghost predicate Follows(q: seq<Predictor>, m0: Lms.Lms, lists: seq<seq<i32>>)
    requires Lms.ShiftOk(m0.shift) && |q| == |lists|
  {
    forall i :: 0 <= i < |q| ==> q[i].lms == After(m0, DecoderSteps(m0, lists[i]))
  }

  lemma FollowsTurn(q: seq<Predictor>, m0: Lms.Lms, lists: seq<seq<i32>>, e: i32)
    requires q != [] && PredictorsValid(q) && Lms.ShiftOk(m0.shift) && |q| == |lists| && Follows(q, m0, lists)
    ensures PredictorsValid(Turn(q, Restore(q[0], e).1))
    ensures Follows(Turn(q, Restore(q[0], e).1), m0, Turn(lists, lists[0] + [e]))
  {
    hide Lms.Advance, Lms.Reconstruct;
    var es := lists[0] + [e];
    assert es[..|es| - 1] == lists[0];
    var steps := DecoderSteps(m0, lists[0]);
    var s := Lms.Reconstruct(After(m0, steps), e);
    assert DecoderSteps(m0, es) == steps + [Step(e, s)];
    assert (steps + [Step(e, s)])[..|steps|] == steps;
    hide After, DecoderSteps;
  }

  lemma {:induction false} FollowsRun(q: seq<Predictor>, m0: Lms.Lms, lists: seq<seq<i32>>, es: seq<i32>)
    requires q != [] && PredictorsValid(q) && Lms.ShiftOk(m0.shift) && |q| == |lists| && Follows(q, m0, lists)
    ensures Follows(PredictorsAfter(q, es), m0, Dealt(lists, es))
    decreases |es|
  {
    if es != [] {
      hide Follows, Restore, Turn, PredictorsValid;
      FollowsTurn(q, m0, lists, es[0]);
      FollowsRun(Turn(q, Restore(q[0], es[0]).1), m0, Turn(lists, lists[0] + [es[0]]), es[1..]);
    }
  }

  /** After `k` residuals, list `i` of the queue has `(k + i) / n` of them. */
  ghost predicate Even(lists: seq<seq<i32>>, k: nat) {
    forall i :: 0 <= i < |lists| ==> |lists[i]| == (k + i) / |lists|
  }

  lemma {:induction false} DealtEvenly(lists: seq<seq<i32>>, es: seq<i32>, k: nat)
    requires lists != [] && Even(lists, k)
    ensures Even(Dealt(lists, es), k + |es|)
    decreases |es|
  {
    if es != [] {
      EvenTurn(lists, es[0], k);
      hide Even, Turn;
      DealtEvenly(Turn(lists, lists[0] + [es[0]]), es[1..], k + 1);
    }
  }

  lemma EvenTurn(lists: seq<seq<i32>>, e: i32, k: nat)
    requires lists != [] && Even(lists, k)
    ensures Even(Turn(lists, lists[0] + [e]), k + 1)
  {
    var n := |lists|;
    var next := Turn(lists, lists[0] + [e]);
    forall i | 0 <= i < n
      ensures |next[i]| == (k + 1 + i) / n
    {
      if i == n - 1 {
        DivStep(k + n, n);
      } else {
        assert next[i] == lists[i + 1];
      }
    }
  }

  // ----- a frame

  function NoResiduals(nch: nat): (lists: seq<seq<i32>>)
    ensures |lists| == nch
  {
    seq(nch, _ => [])
  }

  /** The steps of the channel at place `i` of the queue after residuals `es`. */
  function ChannelHistory(m0: Lms.Lms, nch: nat, es: seq<i32>, i: nat): seq<Step>
    requires Lms.ShiftOk(m0.shift) && i < nch
  {
    DecoderSteps(m0, Dealt(NoResiduals(nch), es)[i])
  }

  /** The filter every channel of a frame starts from. */
  function Entry(bytesPerSample: nat, prime: Priming): (m: Lms.Lms)
    requires 2 <= bytesPerSample <= 3
    ensures Lms.ShiftOk(m.shift)
  {
    FrameEntry(bytesPerSample, prime).predictor.lms
  }

  ghost predicate FrameFollows(q: seq<Predictor>, bytesPerSample: nat, prime: Priming, es: seq<i32>)
    requires 2 <= bytesPerSample <= 3
  {
    var m0 := Entry(bytesPerSample, prime);
    forall i :: 0 <= i < |q| ==> q[i].lms == After(m0, ChannelHistory(m0, |q|, es, i))
  }

  lemma {:induction false} FrameRun(nch: nat, bytesPerSample: nat, prime: Priming, es: seq<i32>)
    requires nch > 0 && 2 <= bytesPerSample <= 3
    ensures var q := Predictors(FrameQueue(nch, bytesPerSample, prime));
            PredictorsValid(q) && FrameFollows(PredictorsAfter(q, es), bytesPerSample, prime, es)
  {
    hide Lms.Advance;
    var q := Predictors(FrameQueue(nch, bytesPerSample, prime));
    var m0 := Entry(bytesPerSample, prime);
    assert Follows(q, m0, NoResiduals(nch));
    hide Follows, Predictors, FrameQueue, NoResiduals;
    TurnLayers(FrameQueue(nch, bytesPerSample, prime), FrameEntry(bytesPerSample, prime));
    FollowsRun(q, m0, NoResiduals(nch), es);
    FollowedChannels(PredictorsAfter(q, es), m0, nch, es);
  }

  lemma FollowedChannels(q: seq<Predictor>, m0: Lms.Lms, nch: nat, es: seq<i32>)
    requires nch > 0 && |q| == nch && Lms.ShiftOk(m0.shift)
    requires Follows(q, m0, Dealt(NoResiduals(nch), es))
    ensures forall i :: 0 <= i < nch ==> q[i].lms == After(m0, ChannelHistory(m0, nch, es, i))
  {
    hide After, DecoderSteps, Dealt, NoResiduals;
  }

  /** An encoder's filters after any part of a frame. */
  lemma EncoderChannels(nch: nat, bytesPerSample: nat, prime: Priming, ds: seq<i32>)
    requires nch > 0 && 2 <= bytesPerSample <= 3
    ensures var q := FrameQueue(nch, bytesPerSample, prime);
            && PredictorsValid(Predictors(q)) && |EncodeStates(q, ds)| == nch
            && FrameFollows(Predictors(EncodeStates(q, ds)), bytesPerSample, prime, Residuals(Predictors(q), ds))
  {
    hide FrameFollows, FrameQueue, Predictors, PredictorsAfter, Residuals, EncodeStates;
    var q := FrameQueue(nch, bytesPerSample, prime);
    EncoderPredictors(q, ds);
    FrameRun(nch, bytesPerSample, prime, Residuals(Predictors(q), ds));
  }

  /** A decoder's filters after reading any number of samples of any stream. */
  lemma DecoderChannels(nch: nat, bytesPerSample: nat, prime: Priming, s: Bits, n: nat)
    requires nch > 0 && 2 <= bytesPerSample <= 3
    ensures var q := FrameQueue(nch, bytesPerSample, prime);
            match DecodeStates(q, s, n)
            case None => true
            case Some((q', _)) =>
              && ReadResiduals(Trackings(q), s, n).Some? && |q'| == nch
              && FrameFollows(Predictors(q'), bytesPerSample, prime, ReadResiduals(Trackings(q), s, n).value.0)
  {
    hide FrameFollows, FrameQueue, Predictors, PredictorsAfter, ReadResiduals, DecodeStates, Trackings;
    var q := FrameQueue(nch, bytesPerSample, prime);
    DecoderPredictors(q, s, n);
    if DecodeStates(q, s, n).Some? {
      FrameRun(nch, bytesPerSample, prime, ReadResiduals(Trackings(q), s, n).value.0);
    }
  }

  /** In every state a frame of any in-scope header reaches on either side, with any
      password or none: each channel's taps hold the differences of its own history, its
      next weight update is exact, and its history has its share of the samples. */
  lemma FrameInvariants(h: StreamHeader, password: Option<seq<u8>>, es: seq<i32>, i: nat)
    requires h.InScope() && i < h.channels && |es| <= h.RegularFrameSamples() * h.channels
    ensures var prime := match password case None => None case Some(p) => Some(Password.Priming(p));
            var m0 := Entry(h.BytesPerSample(), prime);
            var steps := ChannelHistory(m0, h.channels, es, i);
            && |steps| == (|es| + i) / h.channels <= h.RegularFrameSamples()
            && HistoryHolds(After(m0, steps).dl, steps)
            && AdaptsExactly(After(m0, steps))
  {
    hide After, DecoderSteps, HistoryHolds, AdaptsExactly, Password.Priming, Dealt;
    var prime := match password case None => None case Some(p) => Some(Password.Priming(p));
    var m0 := Entry(h.BytesPerSample(), prime);
    var steps := ChannelHistory(m0, h.channels, es, i);
    NothingDealt(h.channels);
    DealtEvenly(NoResiduals(h.channels), es, 0);
    Share(|es|, h.channels, i, h.RegularFrameSamples());
    HistoryInvariant(m0.qm, m0.shift, steps);
    Password.FrameWeightsNeverWrap(h, if password.Some? then password.value else [], steps);
  }

  lemma NothingDealt(nch: nat)
    requires nch > 0
    ensures Even(NoResiduals(nch), 0)
  {
    forall i | 0 <= i < nch
      ensures i / nch == 0
    {
      DivModUnique(i, nch, 0, i);
    }
  }

  lemma Share(total: nat, nch: int, i: nat, regular: nat)
    requires i < nch && total <= regular * nch
    ensures (total + i) / nch <= regular
  {
    var q := (total + i) / nch;
    assert total + i == nch * q + (total + i) % nch;
    assert nch * (q - regular) == nch * q - regular * nch;
    MulAtLeast(nch, q - regular);
  }
}
