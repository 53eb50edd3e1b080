/** Sample counts to clock time and back (src/decoder.rs, `samples_to_duration` and
    `duration_to_sample_index`). Durations are whole nanoseconds. */
module Duration {
  import opened Words
  import opened Format

  const BILLION: int := 1_000_000_000
  const TWO128: int := TWO64 * TWO64

  /** `core::time::Duration`: whole seconds and nanoseconds below a billion. */
  datatype Duration = Duration(secs: nat, nanos: nat) {
    predicate Valid() {
      secs < TWO64 && nanos < BILLION
    }

    function AsNanos(): nat {
      secs * BILLION + nanos
    }
  }

  function SamplesToDuration(samples: nat, rate: u32): Duration {
    if rate == 0 then Duration(0, 0)
    else
      Quotients(samples, rate);
      Duration(samples / rate, samples % rate * BILLION / rate)
  }

  lemma Quotients(samples: nat, rate: int)
    requires rate >= 1
    ensures 0 <= samples / rate <= samples
    ensures 0 <= samples % rate * BILLION / rate
  {
    QuotientBounds(samples, rate);
    QuotientBounds(samples % rate * BILLION, rate);
  }

  /** `u128::saturating_mul`. */
  function SaturatingMul(x: nat, y: nat): nat {
    MulNonNegative(x, y);
    if x * y < TWO128 then x * y else TWO128 - 1
  }

  function DurationToSampleIndex(time: Duration, rate: u32): nat {
    if rate == 0 then 0
    else
      var idx := SaturatingMul(time.AsNanos(), rate) / BILLION;
      if idx >= TWO64 then TWO64 - 1 else idx
  }

  predicate RateOk(rate: u32) {
    1 <= rate <= MAX_SAMPLE_RATE
  }

  /** `samples_to_duration` is the exact quotient, rounded down to a nanosecond. */
  lemma DurationIsFloor(samples: nat, rate: u32)
    requires rate >= 1 && samples < TWO64
    ensures SamplesToDuration(samples, rate).Valid()
    ensures SamplesToDuration(samples, rate).AsNanos() == samples * BILLION / rate
  {
    var q, m := samples / rate, samples % rate;
    Quotients(samples, rate);
    assert samples == rate * q + m;
    var n, r := m * BILLION / rate, m * BILLION % rate;
    QuotientBounds(m * BILLION, rate);
    assert m * BILLION == rate * n + r;
    assert samples * BILLION == rate * (q * BILLION + n) + r by {
      assert rate * (q * BILLION + n) == rate * q * BILLION + rate * n;
    }
    DivModUnique(samples * BILLION, rate, q * BILLION + n, r);
    BelowBillion(m, n, r, rate);
  }

  lemma BelowBillion(m: int, n: int, r: int, rate: int)
    requires rate >= 1 && m < rate && r >= 0 && m * BILLION == rate * n + r
    ensures n < BILLION
  {
    assert rate * (n - BILLION) == rate * n - rate * BILLION;
    MulAtLeast(rate, n - BILLION);
  }

  /** The 128-bit product never saturates. */
  lemma ProductFits(time: Duration, rate: u32)
    requires time.Valid()
    ensures SaturatingMul(time.AsNanos(), rate) == time.AsNanos() * rate
  {
    var ns := time.AsNanos();
    assert ns < TWO64 * BILLION;
    MulNonNegative(ns, rate);
    assert ns * rate <= ns * 0xFFFF_FFFF by {
      MulNonNegative(ns, 0xFFFF_FFFF - rate);
      assert ns * (0xFFFF_FFFF - rate) == ns * 0xFFFF_FFFF - ns * rate;
    }
  }

  /** Converting a sample count to a duration and back gives the count exactly when
      the duration is a whole number of nanoseconds, and one sample less otherwise. */
  lemma DurationRoundTrip(samples: nat, rate: u32)
    requires RateOk(rate) && samples < TWO64
    ensures DurationToSampleIndex(SamplesToDuration(samples, rate), rate)
         == if samples * BILLION % rate == 0 then samples else samples - 1
    ensures DurationToSampleIndex(SamplesToDuration(samples, rate), rate) == samples
       <==> samples * BILLION % rate == 0
  {
    var time := SamplesToDuration(samples, rate);
    var ns, r := samples * BILLION / rate, samples * BILLION % rate;
    DurationIsFloor(samples, rate);
    ProductFits(time, rate);
    hide SamplesToDuration, SaturatingMul, Duration.AsNanos;
    assert samples * BILLION == rate * ns + r;
    assert ns * rate == samples * BILLION - r;
    if r == 0 {
      DivModUnique(ns * rate, BILLION, samples, 0);
    } else {
      DivModUnique(ns * rate, BILLION, samples - 1, BILLION - r);
    }
  }

  /** The duration one nanosecond later. */
  function Later(time: Duration): Duration {
    if time.nanos + 1 == BILLION then Duration(time.secs + 1, 0) else Duration(time.secs, time.nanos + 1)
  }

  lemma LaterValid(samples: nat, rate: u32)
    requires RateOk(rate) && samples < TWO64
    ensures Later(SamplesToDuration(samples, rate)).Valid()
  {
    DurationIsFloor(samples, rate);
    QuotientBounds(samples, rate);
    if rate == 1 {
      assert samples % rate == 0;
    }
  }

  /** One nanosecond more always names the sample exactly. */
  lemma NextNanosecondIsExact(samples: nat, rate: u32)
    requires RateOk(rate) && samples < TWO64
    ensures Later(SamplesToDuration(samples, rate)).Valid()
    ensures DurationToSampleIndex(Later(SamplesToDuration(samples, rate)), rate) == samples
  {
    var time := SamplesToDuration(samples, rate);
    var ns, r := samples * BILLION / rate, samples * BILLION % rate;
    DurationIsFloor(samples, rate);
    LaterValid(samples, rate);
    assert Later(time).AsNanos() == ns + 1;
    ProductFits(Later(time), rate);
    hide SamplesToDuration, SaturatingMul, Duration.AsNanos, Later;
    assert samples * BILLION == rate * ns + r;
    assert (ns + 1) * rate == samples * BILLION + (rate - r);
    DivModUnique((ns + 1) * rate, BILLION, samples, rate - r);
  }

  /** Conversion never runs backwards. */
  lemma ConversionMonotone(a: Duration, b: Duration, rate: u32)
    requires a.Valid() && b.Valid() && a.AsNanos() <= b.AsNanos()
    ensures DurationToSampleIndex(a, rate) <= DurationToSampleIndex(b, rate)
  {
    ProductFits(a, rate);
    ProductFits(b, rate);
    hide SaturatingMul, Duration.AsNanos;
    var x, y: int := a.AsNanos() * rate, b.AsNanos() * rate;
    MulNonNegative(b.AsNanos() - a.AsNanos(), rate);
    assert (b.AsNanos() - a.AsNanos()) * rate == y - x;
    assert x / BILLION <= y / BILLION;
  }

  /** The shortest stream that shows the lost sample: one sample at 44100 Hz lasts a
      duration that converts to sample 0. */
  lemma RoundTripLosesASample()
    ensures DurationToSampleIndex(SamplesToDuration(1, 44100), 44100) == 0
  {
    DurationRoundTrip(1, 44100);
  }

  /** The sample index is the exact quotient, rounded down, or the largest 64-bit number if
      that is smaller; at rate zero both conversions give zero. */
  lemma IndexIsFloor(time: Duration, rate: u32)
    requires time.Valid()
    ensures rate == 0 ==> DurationToSampleIndex(time, rate) == 0
    ensures rate >= 1 ==>
              var exact := time.AsNanos() * rate / 1_000_000_000;
              DurationToSampleIndex(time, rate) == if exact < TWO64 then exact else TWO64 - 1
    ensures forall samples: nat :: SamplesToDuration(samples, 0) == Duration(0, 0)
  {
    ProductFits(time, rate);
    hide SaturatingMul, Duration.AsNanos;
  }
}
