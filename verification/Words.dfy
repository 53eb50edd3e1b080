/** Fixed-width integers: the codec's `i32` and `u32` as bounded mathematical
    integers with explicit wrap-around, and the powers of two that replace shifts. */
module Words {

  const TWO31: int := 0x8000_0000
  const TWO32: int := 0x1_0000_0000
  const TWO64: int := 0x1_0000_0000_0000_0000

  type u8 = x: int | 0 <= x < 0x100
  type u16 = x: int | 0 <= x < 0x1_0000
  type i32 = x: int | -0x8000_0000 <= x < 0x8000_0000
  type u32 = x: int | 0 <= x < 0x1_0000_0000

  const I32_MIN: i32 := -0x8000_0000

  /** Two's-complement truncation: the one i32 congruent to `x` modulo 2^32. */
  function WrapI32(x: int): (r: i32)
    ensures (r - x) % TWO32 == 0
  {
    (x + TWO31) % TWO32 - TWO31
  }

  function WrapU32(x: int): (r: u32)
    ensures (r - x) % TWO32 == 0
  {
    x % TWO32
  }

  /** `wrapping_add`, `wrapping_sub` and `wrapping_mul` on i32. */
  function AddI32(x: int, y: int): i32 {
    WrapI32(x + y)
  }

  function SubI32(x: int, y: int): i32 {
    WrapI32(x - y)
  }

  function MulI32(x: int, y: int): i32 {
    WrapI32(x * y)
  }

  /** C and Rust `/ 2` on a signed integer: truncation toward zero. */
  function HalfTowardZero(x: int): (r: int)
    ensures if x < 0 then -1 <= x - 2 * r <= 0 else 0 <= x - 2 * r <= 1
  {
    if x < 0 then -((-x) / 2) else x / 2
  }

  /** `2^n`. */
  function Pow2(n: nat): (r: int)
    ensures 1 <= r
  {
    if n == 0 then 1 else 2 * Pow2(n - 1)
  }

  /** Arithmetic right shift: floor division, the divisor being positive. */
  function Asr(x: int, n: nat): int {
    x / Pow2(n)
  }

  lemma {:induction false} Pow2Add(a: nat, b: nat)
    ensures Pow2(a + b) == Pow2(a) * Pow2(b)
  {
    if a > 0 {
      Pow2Add(a - 1, b);
      assert a + b - 1 == (a - 1) + b;
      assert 2 * (Pow2(a - 1) * Pow2(b)) == (2 * Pow2(a - 1)) * Pow2(b);
    }
  }

  lemma {:induction false} Pow2Mono(a: nat, b: nat)
    requires a <= b
    ensures Pow2(a) <= Pow2(b)
    ensures a < b ==> 2 * Pow2(a) <= Pow2(b)
    decreases b
  {
    if a < b {
      Pow2Mono(a, b - 1);
    }
  }

  lemma Pow2Values()
    ensures Pow2(4) == 16 && Pow2(5) == 32 && Pow2(8) == 0x100 && Pow2(9) == 0x200 && Pow2(10) == 0x400
    ensures Pow2(14) == 0x4000 && Pow2(15) == 0x8000 && Pow2(16) == 0x1_0000
    ensures Pow2(21) == 0x20_0000 && Pow2(22) == 0x40_0000
    ensures Pow2(24) == 0x100_0000 && Pow2(27) == 0x800_0000
    ensures Pow2(31) == TWO31 && Pow2(32) == TWO32
  {
    assert Pow2(5) == 32;
    assert Pow2(10) == 0x400;
    assert Pow2(15) == 0x8000;
    assert Pow2(20) == 0x10_0000;
    assert Pow2(25) == 0x200_0000;
    assert Pow2(30) == 0x4000_0000;
  }

  lemma MulNonNegative(x: nat, y: nat)
    ensures x * y >= 0
  {
  }

  lemma MulAtLeast(d: int, k: int)
    requires d > 0
    ensures k >= 1 ==> d * k >= d
    ensures k <= -1 ==> d * k <= -d
  {
  }

  /** Quotient and remainder are determined by their defining equation. */
  lemma DivModUnique(x: int, d: int, q: int, r: int)
    requires d > 0 && 0 <= r < d
    requires x == d * q + r
    ensures x / d == q && x % d == r
  {
    var q', r' := x / d, x % d;
    assert d * (q - q') == r' - r by {
      assert d * (q - q') == d * q - d * q';
    }
    MulAtLeast(d, q - q');
  }

  lemma QuotientBounds(x: nat, d: int)
    requires d >= 1
    ensures 0 <= x / d <= x
    ensures x >= d ==> 1 <= x / d
    ensures x >= 1 && d >= 2 ==> x / d < x
    ensures x == d * (x / d) + x % d
  {
    var q, r := x / d, x % d;
    assert x == d * q + r;
    MulAtLeast(d, q);
    MulGrows(d, q);
  }

  lemma MulGrows(d: int, q: int)
    requires d >= 1
    ensures q >= 0 ==> d * q >= q
    ensures q >= 0 && d >= 2 ==> d * q >= 2 * q
  {
    if q >= 0 {
      assert d * q - q == (d - 1) * q;
      assert d * q - 2 * q == (d - 2) * q;
    }
  }

  lemma DivStep(x: int, d: int)
    requires d >= 1
    ensures (x - d) / d == x / d - 1
    ensures (x - d) % d == x % d
  {
    var q, r := x / d, x % d;
    assert x == d * q + r;
    assert d * (q - 1) == d * q - d;
    DivModUnique(x - d, d, q - 1, r);
  }

  lemma SmallMod(x: int, d: int)
    requires 0 <= x < d
    ensures x % d == x
  {
    DivModUnique(x, d, 0, x);
  }

  /** What wrapping adds, in units of 2^32. */
  ghost function WrapCount(x: int): int {
    -((x + TWO31) / TWO32)
  }

  lemma WrapByCount(x: int)
    ensures WrapI32(x) == x + TWO32 * WrapCount(x)
  {
  }

  /** An i32 is determined by its residue modulo 2^32. */
  lemma WrapI32Unique(r: i32, x: int, n: int)
    requires r == x + TWO32 * n
    ensures r == WrapI32(x)
  {
    WrapByCount(x);
    hide WrapI32, WrapCount;
  }

  lemma WrapSum(x: int, y: int)
    ensures AddI32(WrapI32(x), WrapI32(y)) == WrapI32(x + y)
  {
    var sum := WrapI32(x) + WrapI32(y);
    WrapByCount(x);
    WrapByCount(y);
    WrapByCount(sum);
    hide WrapI32, WrapCount;
    WrapI32Unique(WrapI32(sum), x + y, WrapCount(x) + WrapCount(y) + WrapCount(sum));
  }

  lemma WrapI32Same(x: i32)
    ensures WrapI32(x) == x
  {
  }

  lemma WrapU32Same(x: u32)
    ensures WrapU32(x) == x
  {
  }

  /** A wrapping subtraction and a wrapping addition of the same amount cancel. */
  lemma WrapCancel(x: i32, p: int)
    ensures AddI32(SubI32(x, p), p) == x
    ensures AddI32(p, SubI32(x, p)) == x
    ensures SubI32(AddI32(x, p), p) == x
  {
    WrapByCount(x - p);
    WrapByCount(x + p);
    hide WrapI32, WrapCount;
    WrapI32Unique(x, SubI32(x, p) + p, -WrapCount(x - p));
    WrapI32Unique(x, AddI32(x, p) - p, -WrapCount(x + p));
  }

  /** Subtracting twice from the same wrapped minuend restores the subtrahend. */
  lemma WrapFlip(x: i32, y: i32)
    ensures SubI32(y, SubI32(y, x)) == x
  {
    WrapByCount(y - x);
    hide WrapI32, WrapCount;
    WrapI32Unique(x, y - SubI32(y, x), WrapCount(y - x));
  }
}
