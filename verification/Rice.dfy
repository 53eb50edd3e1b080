/** Adaptive Rice coding of one residual per call (src/rice.rs and the encoder's
    mirror of it in src/encoder.rs). */
module Rice {
  import opened Words
  import opened Bits
  import opened Results
  import opened BitReader

  const MAX_K: nat := 31

  /** The per-channel adaptive parameters and running sums. */
  datatype Trackers = Trackers(k0: nat, k1: nat, sum0: u32, sum1: u32) {
    predicate Valid() {
      k0 <= MAX_K && k1 <= MAX_K
    }
  }

  const FRAME_INIT: Trackers := Trackers(10, 10, 0x4000, 0x4000)

  /** `1 << shift`, saturating at `1 << 31`. */
  function ShlSaturating(shift: nat): (r: u32)
    ensures shift <= 31 ==> r == Pow2(shift)
  {
    Pow2Values();
    if shift >= 31 then 0x8000_0000
    else
      Pow2Mono(shift, 31);
      Pow2(shift)
  }

  /** Signed residual to unsigned magnitude: positive to odd, the rest to even. */
  function Zigzag(e: i32): u32 {
    if e > 0 then WrapU32(WrapU32(e * 2) - 1) else WrapU32(WrapU32(-(e as int)) * 2)
  }

  function Dezigzag(v: u32): i32 {
    if v % 2 == 1 then WrapU32(v + 1) / 2 else -(v / 2)
  }

  /** The residual a decoder sees for `e`: `e` itself, except that the magnitude of
      i32::MIN wraps to zero. */
  function Canonical(e: i32): i32 {
    if e == I32_MIN then 0 else e
  }

  /** Where zigzag and its inverse wrap. */
  lemma ZigzagExtremes()
    ensures Zigzag(I32_MIN) == 0 && Zigzag(0) == 0
    ensures Dezigzag(TWO32 - 1) == 0 && Dezigzag(0) == 0
  {
  }

  /** Everywhere else they are the textbook functions. */
  lemma ZigzagInside(e: i32)
    requires e != I32_MIN
    ensures Zigzag(e) == if e > 0 then 2 * e - 1 else -2 * e
  {
    hide WrapU32;
    if e > 0 {
      WrapU32Same(e * 2);
      WrapU32Same(e * 2 - 1);
    } else {
      WrapU32Same(-(e as int));
      WrapU32Same(-(e as int) * 2);
    }
  }

  lemma DezigzagInside(v: u32)
    requires v != TWO32 - 1
    ensures Dezigzag(v) == if v % 2 == 1 then (v + 1) / 2 else -(v / 2)
  {
    hide WrapU32;
    if v % 2 == 1 {
      WrapU32Same(v + 1);
    }
  }

  lemma ZigzagRoundTrip(e: i32)
    ensures Dezigzag(Zigzag(e)) == Canonical(e)
    ensures Dezigzag(Zigzag(e)) == e <==> e != I32_MIN
  {
    ZigzagExtremes();
    hide Zigzag, Dezigzag;
    if e != I32_MIN {
      ZigzagInside(e);
      DezigzagInside(Zigzag(e));
    }
  }

  /** The other way round, only the largest magnitude is not taken to its residual
      and back. */
  lemma DezigzagRoundTrip(v: u32)
    ensures Zigzag(Dezigzag(v)) == v <==> v != TWO32 - 1
  {
    ZigzagExtremes();
    hide Zigzag, Dezigzag;
    if v != TWO32 - 1 {
      DezigzagInside(v);
      ZigzagInside(Dezigzag(v));
    }
  }

  function Feedback(sum: u32, value: u32): u32 {
    WrapU32(WrapU32(sum + value) - sum / 16)
  }

  function AdaptK(k: nat, sum: u32): (r: nat)
    ensures k <= MAX_K ==> r <= MAX_K
  {
    if k > 0 && sum < ShlSaturating(k + 4) then k - 1
    else if k < MAX_K && sum > ShlSaturating(k + 5) then k + 1
    else k
  }

  /** STEP B: the low-mode trackers absorb the magnitude. */
  function AfterLow(t: Trackers, value: u32): (r: Trackers)
    ensures t.Valid() ==> r.Valid()
  {
    var sum := Feedback(t.sum0, value);
    t.(sum0 := sum, k0 := AdaptK(t.k0, sum))
  }

  /** STEP A on the magnitude before the escape bias, then STEP B on the biased one. */
  function AfterHigh(t: Trackers, pre: u32): (r: Trackers)
    ensures t.Valid() ==> r.Valid()
  {
    var sum := Feedback(t.sum1, pre);
    AfterLow(t.(sum1 := sum, k1 := AdaptK(t.k1, sum)), WrapU32(pre + ShlSaturating(t.k0)))
  }

  /** Decoding one residual from a plain bit list: the residual, the new trackers
      and the bits left. */
  function ReadResidual(t: Trackers, s: Bits): Option<(i32, Trackers, Bits)> {
    match TakeUnary(s)
    case None => None
    case Some((u, s1)) =>
      match TakeBits(s1, if u == 0 then t.k0 else t.k1)
      case None => None
      case Some((tail, s2)) =>
        if u == 0 then
          var value := WrapU32(tail);
          Some((Dezigzag(value), AfterLow(t, value), s2))
        else
          var pre := WrapU32(WrapU32((u - 1) * Pow2(t.k1)) + tail);
          Some((Dezigzag(WrapU32(pre + ShlSaturating(t.k0))), AfterHigh(t, pre), s2))
  }

  /** The bits the encoder emits for residual `e`. */
  function Codeword(t: Trackers, e: i32): Bits {
    var value := Zigzag(e);
    if value < Pow2(t.k0) then Unary(0) + NatBits(value, t.k0)
    else
      var pre := value - Pow2(t.k0);
      QuotientBounds(pre, Pow2(t.k1));
      Unary(pre / Pow2(t.k1) + 1) + NatBits(pre, t.k1)
  }

  /** The encoder's trackers after emitting `e`. */
  function AfterCodeword(t: Trackers, e: i32): (r: Trackers)
    ensures t.Valid() ==> r.Valid()
  {
    var value := Zigzag(e);
    if value < Pow2(t.k0) then AfterLow(t, value) else AfterHigh(t, value - Pow2(t.k0))
  }

  /** The escape prefix and tail reassemble the magnitude without wrapping. */
  lemma Reassemble(pre: u32, p: int)
    requires p >= 1
    ensures 0 <= pre / p
    ensures WrapU32(WrapU32((pre / p + 1 - 1) * p) + pre % p) == pre
  {
    var q := pre / p;
    assert pre == p * q + pre % p;
    assert (q + 1 - 1) * p == p * q;
  }

  lemma {:induction false} LowModeRead(t: Trackers, value: u32, rest: Bits)
    requires value < Pow2(t.k0)
    ensures ReadResidual(t, Unary(0) + NatBits(value, t.k0) + rest)
         == Some((Dezigzag(value), AfterLow(t, value), rest))
  {
    hide AfterLow, NatBits, Unary, TakeUnary, TakeBits, Pow2, Dezigzag, WrapU32;
    SmallMod(value, Pow2(t.k0));
    WrapU32Same(value);
    var tail := NatBits(value, t.k0) + rest;
    assert Unary(0) + NatBits(value, t.k0) + rest == Unary(0) + tail;
    TakeUnaryCode(0, tail);
    TakeBitsCode(value, t.k0, rest);
  }

  lemma {:induction false} HighModeRead(t: Trackers, pre: u32, rest: Bits)
    ensures pre / Pow2(t.k1) >= 0
    ensures ReadResidual(t, Unary(pre / Pow2(t.k1) + 1) + NatBits(pre, t.k1) + rest)
         == Some((Dezigzag(WrapU32(pre + ShlSaturating(t.k0))), AfterHigh(t, pre), rest))
  {
    hide AfterHigh, NatBits, Unary, TakeUnary, TakeBits, Pow2, Dezigzag, ShlSaturating;
    Reassemble(pre, Pow2(t.k1));
    var u, tail := pre / Pow2(t.k1) + 1, NatBits(pre, t.k1) + rest;
    assert Unary(u) + NatBits(pre, t.k1) + rest == Unary(u) + tail;
    TakeUnaryCode(u, tail);
    TakeBitsCode(pre, t.k1, rest);
  }

  /** One codeword, whatever follows it, is read back exactly, and reader and
      writer end with the same trackers. */
  lemma CodewordRoundTrip(t: Trackers, e: i32, rest: Bits)
    requires t.Valid()
    ensures ReadResidual(t, Codeword(t, e) + rest) == Some((Canonical(e), AfterCodeword(t, e), rest))
  {
    hide AfterLow, AfterHigh, NatBits, Unary, ReadResidual, Pow2, Zigzag, Dezigzag;
    var value := Zigzag(e);
    ZigzagRoundTrip(e);
    if value < Pow2(t.k0) {
      LowModeRead(t, value, rest);
    } else {
      HighModeRead(t, value - Pow2(t.k0), rest);
    }
  }

  /** Mutable per-channel state. */
  class RiceState {
    var k0: nat
    var k1: nat
    var sum0: u32
    var sum1: u32

    function Value(): Trackers
      reads this
    {
      Trackers(k0, k1, sum0, sum1)
    }

    constructor ()
      ensures Value() == FRAME_INIT
    {
      k0 := 10;
      k1 := 10;
      sum0 := 0x4000;
      sum1 := 0x4000;
    }

    /** STEP A: the high-mode trackers on the magnitude before the bias. */
    method UpdateHigh(pre: u32)
      requires Value().Valid()
      modifies this
      ensures Value() == old(Value()).(sum1 := Feedback(old(sum1), pre),
                                       k1 := AdaptK(old(k1), Feedback(old(sum1), pre)))
    {
      sum1 := WrapU32(WrapU32(sum1 + pre) - sum1 / 16);
      if k1 > 0 && sum1 < ShlSaturating(k1 + 4) {
        k1 := k1 - 1;
      } else if k1 < MAX_K && sum1 > ShlSaturating(k1 + 5) {
        k1 := k1 + 1;
      }
    }

    /** STEP B: the low-mode trackers on the biased magnitude. */
    method UpdateLow(value: u32)
      requires Value().Valid()
      modifies this
      ensures Value() == AfterLow(old(Value()), value)
    {
      sum0 := WrapU32(WrapU32(sum0 + value) - sum0 / 16);
      if k0 > 0 && sum0 < ShlSaturating(k0 + 4) {
        k0 := k0 - 1;
      } else if k0 < MAX_K && sum0 > ShlSaturating(k0 + 5) {
        k0 := k0 + 1;
      }
    }

    /** Reads one residual and adapts. */
    method DecodeOne(reader: BitReader) returns (r: Result<i32>)
      requires reader.Valid() && Value().Valid()
      modifies reader, this
      ensures reader.Valid() && Value().Valid()
      ensures match ReadResidual(old(Value()), old(reader.Rest()))
              case None => r == Err(Truncated)
              case Some((e, t, rest)) => r == Ok(e) && Value() == t && reader.Rest() == rest
    {
      hide TakeUnary, TakeBits, Feedback, AdaptK, Dezigzag, Sound, Unread;
      var unary := reader.ReadUnary();
      if unary.Err? {
        return Err(unary.error);
      }
      var u := unary.value;
      var k := if u == 0 then k0 else k1;
      var tail := reader.ReadBits(k);
      if tail.Err? {
        return Err(tail.error);
      }
      var prefix := if u == 0 then 0 else u - 1;
      var value := WrapU32(WrapU32(prefix * Pow2(k)) + tail.value);
      if u > 0 {
        UpdateHigh(value);
        value := WrapU32(value + ShlSaturating(k0));
      }
      UpdateLow(value);
      r := Ok(Dezigzag(value));
    }
  }

  // ----- sequences of residuals over a rotating queue of channels

  /** All channels share one bit stream, each with its own trackers: the head of the
      queue is the next channel's trackers and goes to the back after its turn. */
  function Turn<T>(q: seq<T>, t: T): (r: seq<T>)
    requires q != []
    ensures |r| == |q|
  {
    q[1..] + [t]
  }

  ghost predicate AllValid(q: seq<Trackers>) {
    forall i :: 0 <= i < |q| ==> q[i].Valid()
  }

  function WriteResiduals(q: seq<Trackers>, es: seq<i32>): Bits
    requires q != []
    decreases |es|
  {
    if es == [] then []
    else Codeword(q[0], es[0]) + WriteResiduals(Turn(q, AfterCodeword(q[0], es[0])), es[1..])
  }

  function TrackersAfter(q: seq<Trackers>, es: seq<i32>): (r: seq<Trackers>)
    requires q != []
    ensures |r| == |q|
    decreases |es|
  {
    if es == [] then q else TrackersAfter(Turn(q, AfterCodeword(q[0], es[0])), es[1..])
  }

  /** Reads `n` residuals: the list, the final queue and the bits left. */
  function ReadResiduals(q: seq<Trackers>, s: Bits, n: nat): (r: Option<(seq<i32>, seq<Trackers>, Bits)>)
    requires q != []
    ensures r.Some? ==> |r.value.0| == n
    decreases n
  {
    if n == 0 then Some(([], q, s))
    else
      match ReadResidual(q[0], s)
      case None => None
      case Some((e, t, s1)) =>
        match ReadResiduals(Turn(q, t), s1, n - 1)
        case None => None
        case Some((es, q', rest)) => Some(([e] + es, q', rest))
  }

  function CanonicalAll(es: seq<i32>): (r: seq<i32>)
    ensures |r| == |es|
  {
    seq(|es|, i requires 0 <= i < |es| => Canonical(es[i]))
  }

  lemma CanonicalAllSame(es: seq<i32>)
    ensures CanonicalAll(es) == es <==> I32_MIN !in es
  {
    if i :| 0 <= i < |es| && es[i] == I32_MIN {
      assert CanonicalAll(es)[i] == 0;
    }
  }

  lemma CanonicalAllCons(es: seq<i32>)
    requires es != []
    ensures CanonicalAll(es) == [Canonical(es[0])] + CanonicalAll(es[1..])
  {
  }

  /** The Rice layer is lossless: any residual list, from any valid trackers and
      with anything after it, is read back with the same trackers, consuming
      exactly the bits written. Only i32::MIN is not read back as itself. */
  lemma {:induction false} ResidualsRoundTrip(q: seq<Trackers>, es: seq<i32>, rest: Bits)
    requires q != [] && AllValid(q)
    ensures ReadResiduals(q, WriteResiduals(q, es) + rest, |es|)
         == Some((CanonicalAll(es), TrackersAfter(q, es), rest))
    decreases |es|
  {
    hide Codeword, AfterCodeword, ReadResidual, Canonical, CanonicalAll;
    if es == [] {
      assert WriteResiduals(q, es) + rest == rest;
    } else {
      var q' := Turn(q, AfterCodeword(q[0], es[0]));
      var tail := WriteResiduals(q', es[1..]) + rest;
      assert WriteResiduals(q, es) + rest == Codeword(q[0], es[0]) + tail;
      CodewordRoundTrip(q[0], es[0], tail);
      ResidualsRoundTrip(q', es[1..], rest);
      CanonicalAllCons(es);
    }
  }
}
