/** Stage A: the eight-tap sign-LMS predictor (src/lms.rs, and the encoder's mirror
    `lms_step_encode` in src/encoder.rs). */
module Lms {
  import opened Words

  type Taps = s: seq<i32> | |s| == 8 witness [0, 0, 0, 0, 0, 0, 0, 0]

  /** Filter state; `shift` is 9 for two-byte and 10 for three-byte samples. */
  datatype Lms = Lms(dl: Taps, dx: Taps, qm: Taps, error: i32, shift: nat)

  const NO_TAPS: Taps := [0, 0, 0, 0, 0, 0, 0, 0]

  /** tables/lms-shift.csv, indexed by bytes per sample minus one. */
  const LMS_SHIFT: seq<nat> := [10, 9, 10]

  /** tables/lms-dx-magnitudes.csv, for taps 4 to 7. */
  const DX_MAGNITUDES: seq<i32> := [1, 2, 2, 4]

  /** Frame entry: everything zero, except the weights under a password. */
  function FrameInit(bytesPerSample: nat, prime: Taps): Lms
    requires 1 <= bytesPerSample <= 3
  {
    Lms(NO_TAPS, NO_TAPS, prime, 0, LMS_SHIFT[bytesPerSample - 1])
  }

  function Sign(x: int): int {
    if x > 0 then 1 else if x < 0 then -1 else 0
  }

  /** STEP 1: the weights follow the sign of the previous residual. */
  function Adapted(m: Lms): Taps {
    seq(8, i requires 0 <= i < 8 => AddI32(m.qm[i], MulI32(Sign(m.error), m.dx[i])))
  }

  /** STEP 2: the wrapping dot product of the first `n` taps on top of `round`. */
  function Dot(dl: Taps, qm: Taps, round: i32, n: nat): i32
    requires n <= 8
  {
    if n == 0 then round
    else AddI32(Dot(dl, qm, round, n - 1), MulI32(dl[n - 1], qm[n - 1]))
  }

  /** The dot product over unbounded integers. */
  function ExactDot(dl: Taps, qm: Taps, n: nat): int
    requires n <= 8
  {
    if n == 0 then 0 else ExactDot(dl, qm, n - 1) + Product(dl[n - 1], qm[n - 1])
  }

  function Product(x: int, y: int): int {
    x * y
  }

  /** Wrapping at every step is wrapping once at the end. */
  lemma {:induction false} DotWrapsOnce(dl: Taps, qm: Taps, round: i32, n: nat)
    requires n <= 8
    ensures Dot(dl, qm, round, n) == WrapI32(round + ExactDot(dl, qm, n))
  {
    hide Product, MulI32, AddI32, WrapI32;
    if n > 0 {
      DotWrapsOnce(dl, qm, round, n - 1);
      MulWraps(dl[n - 1], qm[n - 1]);
      WrapSum(round + ExactDot(dl, qm, n - 1), Product(dl[n - 1], qm[n - 1]));
    } else {
      WrapI32Same(round);
    }
  }

  lemma MulWraps(x: int, y: int)
    ensures MulI32(x, y) == WrapI32(Product(x, y))
  {
  }

  /** `1 << (shift - 1)`. */
  function Round(shift: nat): i32
    requires 1 <= shift <= 31
  {
    Pow2Mono(shift - 1, 30);
    Pow2Values();
    Pow2(shift - 1)
  }

  predicate ShiftOk(shift: nat) {
    shift == 9 || shift == 10
  }

  /** The prediction `p_A`: an i32 shifted right, hence well inside the i32 range. */
  function Predict(m: Lms): (p: int)
    requires ShiftOk(m.shift)
    ensures -Pow2(31 - m.shift) <= p < Pow2(31 - m.shift)
    ensures -0x40_0000 <= p < 0x40_0000
  {
    Pow2Values();
    Asr(Dot(m.dl, Adapted(m), Round(m.shift), 8), m.shift)
  }

  /** STEP 4: a magnitude with the sign of the difference, zero counting as positive. */
  function Signed(d: i32, mag: i32): i32
    requires 0 <= mag
  {
    if d < 0 then -mag else mag
  }

  /** STEPs 1 and 3 to 5: the state after residual `e` and output sample `s`. */
  function Advance(m: Lms, e: i32, s: i32): (r: Lms)
    ensures r.shift == m.shift
  {
    Lms([m.dl[1], m.dl[2], m.dl[3], m.dl[4],
         SubI32(SubI32(SubI32(s, m.dl[5]), m.dl[6]), m.dl[7]),
         SubI32(SubI32(s, m.dl[6]), m.dl[7]),
         SubI32(s, m.dl[7]),
         s],
        [m.dx[1], m.dx[2], m.dx[3], m.dx[4],
         Signed(m.dl[4], DX_MAGNITUDES[0]), Signed(m.dl[5], DX_MAGNITUDES[1]),
         Signed(m.dl[6], DX_MAGNITUDES[2]), Signed(m.dl[7], DX_MAGNITUDES[3])],
        Adapted(m), e, m.shift)
  }

  /** The decoder's step: residual in, sample out. */
  function Reconstruct(m: Lms, e: i32): i32
    requires ShiftOk(m.shift)
  {
    AddI32(e, Predict(m))
  }

  /** The encoder's step: sample in, residual out. */
  function Residual(m: Lms, s: i32): i32
    requires ShiftOk(m.shift)
  {
    SubI32(s, Predict(m))
  }

  /** Both steps undo each other from the same state. */
  lemma StepRoundTrip(m: Lms, x: i32)
    requires ShiftOk(m.shift)
    ensures Reconstruct(m, Residual(m, x)) == x
    ensures Residual(m, Reconstruct(m, x)) == x
  {
    hide Predict, AddI32, SubI32;
    WrapCancel(x, Predict(m));
  }

  lemma EqualTaps(a: Taps, b: Taps)
    requires a[0] == b[0] && a[1] == b[1] && a[2] == b[2] && a[3] == b[3]
    requires a[4] == b[4] && a[5] == b[5] && a[6] == b[6] && a[7] == b[7]
    ensures a == b
  {
  }

  class LmsState {
    const dl: array<i32>
    const dx: array<i32>
    const qm: array<i32>
    var error: i32
    const shift: nat
    const round: i32

    ghost predicate Valid() {
      && dl.Length == 8 && dx.Length == 8 && qm.Length == 8
      && dl != dx && dl != qm && dx != qm
      && ShiftOk(shift) && round == Round(shift)
    }

    ghost function Repr(): set<object> {
      {this, dl, dx, qm}
    }

    ghost function Value(): Lms
      reads this, dl, dx, qm
      requires Valid()
    {
      Lms(dl[..], dx[..], qm[..], error, shift)
    }

    constructor (bytesPerSample: nat)
      requires 2 <= bytesPerSample <= 3
      ensures Valid() && fresh(Repr())
      ensures Value() == FrameInit(bytesPerSample, NO_TAPS)
    {
      dl := new i32[8](_ => 0);
      dx := new i32[8](_ => 0);
      qm := new i32[8](_ => 0);
      error := 0;
      shift := LMS_SHIFT[bytesPerSample - 1];
      round := Round(LMS_SHIFT[bytesPerSample - 1]);
      new;
      assert dl[..] == NO_TAPS && dx[..] == NO_TAPS && qm[..] == NO_TAPS;
    }

    /** `lms.qm = *prime`. */
    method Prime(prime: Taps)
      requires Valid()
      modifies qm
      ensures Value() == old(Value()).(qm := prime)
    {
      for i := 0 to 8
        invariant forall j :: 0 <= j < i ==> qm[j] == prime[j]
      {
        qm[i] := prime[i];
      }
      assert qm[..] == prime;
    }

    /** STEPs 1 and 2: adapts the weights and returns the prediction. */
    method AdaptAndPredict() returns (p: int)
      requires Valid()
      modifies qm
      ensures Value() == old(Value()).(qm := Adapted(old(Value())))
      ensures p == Predict(old(Value()))
    {
      hide MulI32, AddI32, Round, Pow2;
      ghost var m := Value();
      var sgn := (if error > 0 then 1 else 0) - (if error < 0 then 1 else 0);
      for i := 0 to 8
        invariant forall j :: 0 <= j < i ==> qm[j] == Adapted(m)[j]
        invariant forall j :: i <= j < 8 ==> qm[j] == m.qm[j]
      {
        qm[i] := AddI32(qm[i], MulI32(sgn, dx[i]));
      }
      assert qm[..] == Adapted(m);
      var sum := round;
      for i := 0 to 8
        invariant sum == Dot(m.dl, Adapted(m), Round(shift), i)
      {
        sum := AddI32(sum, MulI32(dl[i], qm[i]));
      }
      p := Asr(sum, shift);
    }

    /** STEP 3: taps 0 to 3 take over the values of taps 1 to 4. */
    method ShiftTails()
      requires Valid()
      modifies dl, dx
      ensures dl[0] == old(dl[1]) && dl[1] == old(dl[2]) && dl[2] == old(dl[3]) && dl[3] == old(dl[4])
      ensures dx[0] == old(dx[1]) && dx[1] == old(dx[2]) && dx[2] == old(dx[3]) && dx[3] == old(dx[4])
      ensures dl[4] == old(dl[4]) && dl[5] == old(dl[5]) && dl[6] == old(dl[6]) && dl[7] == old(dl[7])
      ensures dx[4] == old(dx[4]) && dx[5] == old(dx[5]) && dx[6] == old(dx[6]) && dx[7] == old(dx[7])
    {
      for i := 0 to 4
        invariant forall j :: 0 <= j < i ==> dx[j] == old(dx[j + 1]) && dl[j] == old(dl[j + 1])
        invariant forall j :: i <= j < 8 ==> dx[j] == old(dx[j]) && dl[j] == old(dl[j])
      {
        dx[i] := dx[i + 1];
        dl[i] := dl[i + 1];
      }
    }

    /** STEP 4: taps 4 to 7 of `dx` take the sign of the differences. */
    method Regenerate()
      requires Valid()
      modifies dx
      ensures dx[0] == old(dx[0]) && dx[1] == old(dx[1]) && dx[2] == old(dx[2]) && dx[3] == old(dx[3])
      ensures dx[4] == Signed(dl[4], DX_MAGNITUDES[0]) && dx[5] == Signed(dl[5], DX_MAGNITUDES[1])
      ensures dx[6] == Signed(dl[6], DX_MAGNITUDES[2]) && dx[7] == Signed(dl[7], DX_MAGNITUDES[3])
    {
      hide Signed;
      for i := 4 to 8
        invariant forall j :: 0 <= j < 4 ==> dx[j] == old(dx[j])
        invariant forall j :: 4 <= j < i ==> dx[j] == Signed(dl[j], DX_MAGNITUDES[j - 4])
      {
        dx[i] := Signed(dl[i], DX_MAGNITUDES[i - 4]);
      }
    }

    /** STEP 5: sample `s` and its cumulative differences enter taps 4 to 7 of `dl`. */
    method Difference(s: i32)
      requires Valid()
      modifies dl
      ensures dl[0] == old(dl[0]) && dl[1] == old(dl[1]) && dl[2] == old(dl[2]) && dl[3] == old(dl[3])
      ensures dl[4] == SubI32(SubI32(SubI32(s, old(dl[5])), old(dl[6])), old(dl[7]))
      ensures dl[5] == SubI32(SubI32(s, old(dl[6])), old(dl[7]))
      ensures dl[6] == SubI32(s, old(dl[7]))
      ensures dl[7] == s
    {
      hide SubI32;
      var p5, p6, p7 := dl[5], dl[6], dl[7];
      dl[7] := s;
      dl[6] := SubI32(s, p7);
      dl[5] := SubI32(SubI32(s, p6), p7);
      dl[4] := SubI32(SubI32(SubI32(s, p5), p6), p7);
    }

    /** STEPs 3 to 5 for residual `e` and sample `s`, the weights being adapted. */
    method Enter(e: i32, s: i32, ghost m: Lms)
      requires Valid()
      requires Value() == m.(qm := Adapted(m))
      modifies this`error, dl, dx
      ensures Value() == Advance(m, e, s)
    {
      hide Adapted, SubI32, Signed;
      ShiftTails();
      Regenerate();
      error := e;
      Difference(s);
      EqualTaps(dl[..], Advance(m, e, s).dl);
      EqualTaps(dx[..], Advance(m, e, s).dx);
    }

    /** The decoder's step. */
    method Step(e: i32) returns (s: i32)
      requires Valid()
      modifies Repr()
      ensures s == Reconstruct(old(Value()), e)
      ensures Value() == Advance(old(Value()), e, s)
    {
      hide Advance, Adapted, Predict;
      ghost var m := Value();
      var p := AdaptAndPredict();
      s := AddI32(e, p);
      Enter(e, s, m);
    }

    /** The encoder's step. */
    method StepEncode(s: i32) returns (e: i32)
      requires Valid()
      modifies Repr()
      ensures e == Residual(old(Value()), s)
      ensures Value() == Advance(old(Value()), e, s)
    {
      hide Advance, Adapted, Predict;
      ghost var m := Value();
      var p := AdaptAndPredict();
      e := SubI32(s, p);
      Enter(e, s, m);
    }
  }
}
