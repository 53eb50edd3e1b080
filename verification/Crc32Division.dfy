/** The CRC-32 of section 8 of RFC 1952, pinned down twice over: its check value, and the
    division law with the generator polynomial written out by its exponents. */
module Crc32Division {
  import opened Words
  import opened Crc32

  // ----- the check value

  function Two(x: bv32): bv32 {
    Shift(Shift(x))
  }

  function Eight(x: bv32): bv32 {
    Two(Two(Two(Two(x))))
  }

  lemma EightShifts(x: bv32)
    ensures ShiftN(x, 8) == Eight(x)
  {
    hide Shift;
    ShiftNAdd(x, 2, 2);
    ShiftNAdd(x, 4, 2);
    ShiftNAdd(x, 6, 2);
    TwoShifts(x);
    TwoShifts(ShiftN(x, 2));
    TwoShifts(ShiftN(x, 4));
    TwoShifts(ShiftN(x, 6));
    hide ShiftN;
  }

  lemma TwoShifts(x: bv32)
    ensures ShiftN(x, 2) == Two(x)
  {
    hide Shift;
    assert ShiftN(x, 1) == Shift(ShiftN(x, 0));
  }

  /** One byte of input, the division worked out. */
  lemma CheckStep(reg: bv32, b: u8, bits: bv32, next: bv32, rest: seq<u8>)
    requires bits == Reg(b) && Eight(reg ^ bits) == next
    ensures Fold(reg, [b] + rest) == Fold(next, rest)
  {
    hide Shift, ShiftN, Eight, Reg;
    EightShifts(reg ^ bits);
    assert ([b] + rest)[1..] == rest;
  }

  /** The characters 1 to 9. */
  const DIGITS: seq<u8> := [0x31, 0x32, 0x33, 0x34, 0x35, 0x36, 0x37, 0x38, 0x39]

  lemma Digit1(rest: seq<u8>)
    ensures Fold(0xFFFF_FFFF, [0x31] + rest) == Fold(0x7C23_1048, rest)
  {
    CheckStep(0xFFFF_FFFF, 0x31, 0x31, 0x7C23_1048, rest);
  }

  lemma Digit2(rest: seq<u8>)
    ensures Fold(0x7C23_1048, [0x32] + rest) == Fold(0xB0AC_BB32, rest)
  {
    CheckStep(0x7C23_1048, 0x32, 0x32, 0xB0AC_BB32, rest);
  }

  lemma Digit3(rest: seq<u8>)
    ensures Fold(0xB0AC_BB32, [0x33] + rest) == Fold(0x77B7_9C2D, rest)
  {
    CheckStep(0xB0AC_BB32, 0x33, 0x33, 0x77B7_9C2D, rest);
  }

  lemma Digit4(rest: seq<u8>)
    ensures Fold(0x77B7_9C2D, [0x34] + rest) == Fold(0x641C_1F5C, rest)
  {
    CheckStep(0x77B7_9C2D, 0x34, 0x34, 0x641C_1F5C, rest);
  }

  lemma Digit5(rest: seq<u8>)
    ensures Fold(0x641C_1F5C, [0x35] + rest) == Fold(0x340A_C5E3, rest)
  {
    CheckStep(0x641C_1F5C, 0x35, 0x35, 0x340A_C5E3, rest);
  }

  lemma Digit6(rest: seq<u8>)
    ensures Fold(0x340A_C5E3, [0x36] + rest) == Fold(0xF68D_2C9E, rest)
  {
    CheckStep(0x340A_C5E3, 0x36, 0x36, 0xF68D_2C9E, rest);
  }

  lemma Digit7(rest: seq<u8>)
    ensures Fold(0xF68D_2C9E, [0x37] + rest) == Fold(0xAFFC_9660, rest)
  {
    CheckStep(0xF68D_2C9E, 0x37, 0x37, 0xAFFC_9660, rest);
  }

  lemma Digit8(rest: seq<u8>)
    ensures Fold(0xAFFC_9660, [0x38] + rest) == Fold(0x651F_2550, rest)
  {
    CheckStep(0xAFFC_9660, 0x38, 0x38, 0x651F_2550, rest);
  }

  lemma Digit9(rest: seq<u8>)
    ensures Fold(0x651F_2550, [0x39] + rest) == Fold(0x340B_C6D9, rest)
  {
    CheckStep(0x651F_2550, 0x39, 0x39, 0x340B_C6D9, rest);
  }

  /** The check value of CRC-32. */
  lemma CheckValue()
    ensures Checksum(DIGITS) == 0xCBF4_3926
  {
    hide Fold;
    var d9: seq<u8> := [0x39] + [];
    var d8 := [0x38] + d9;
    var d7 := [0x37] + d8;
    var d6 := [0x36] + d7;
    var d5 := [0x35] + d6;
    var d4 := [0x34] + d5;
    var d3 := [0x33] + d4;
    var d2 := [0x32] + d3;
    assert DIGITS == [0x31] + d2;
    Digit1(d2);
    Digit2(d3);
    Digit3(d4);
    Digit4(d5);
    Digit5(d6);
    Digit6(d7);
    Digit7(d8);
    Digit8(d9);
    Digit9([]);
    FoldNothing(0x340B_C6D9);
  }

  // ----- the division law

  /** The exponents of the generator polynomial. */
  const GENERATOR: seq<int> := [32, 26, 23, 22, 16, 12, 11, 10, 8, 7, 5, 4, 2, 1, 0]

  /** A polynomial over GF(2) is the list of its coefficients, constant term first. */
  type Poly = seq<bool>

  function At(q: Poly, j: int): bool {
    0 <= j < |q| && q[j]
  }

  /** Coefficient `j` of the sum of the powers in `es`. */
  function Hits(es: seq<int>, j: int): bool {
    es != [] && ((es[0] == j) != Hits(es[1..], j))
  }

  /** Coefficient `j` of the product of `q` and the sum of the powers in `es`. */
  function Times(q: Poly, es: seq<int>, j: int): bool {
    es != [] && (At(q, j - es[0]) != Times(q, es[1..], j))
  }

  /** Bit `i` of a register. */
  function Bit(x: bv32, i: nat): bool {
    if i == 0 then Odd(x) else Bit(Half(x), i - 1)
  }

  /** The register as a polynomial: its lowest bit is the coefficient of the highest power. */
  function Coef(x: bv32, j: int): bool {
    0 <= j < 32 && Bit(x, 31 - j)
  }

  /** Coefficient `j` of what is divided after input bits `m`: the bits as a polynomial,
      the first bit highest, times the 32nd power, plus thirty-two ones in front. */
  function Dividend(m: seq<bool>, j: int): bool {
    (32 <= j < 32 + |m| && m[|m| - 1 - (j - 32)]) != (|m| <= j < |m| + 32)
  }

  /** `dividend = quotient * generator + register`. */
  ghost predicate Divided(m: seq<bool>, q: Poly, r: bv32) {
    forall j: int :: Dividend(m, j) == (Times(q, GENERATOR, j) != Coef(r, j))
  }

  // bits of registers

  lemma {:induction false} BitXor(a: bv32, b: bv32, i: nat)
    ensures Bit(Xor(a, b), i) == (Bit(a, i) != Bit(b, i))
    decreases i
  {
    hide Xor, Odd, Half;
    OddXor(a, b);
    if i > 0 {
      HalfXor(a, b);
      BitXor(Half(a), Half(b), i - 1);
    }
  }

  lemma EightBits(x: bv32, i: nat)
    requires i >= 8
    ensures Bit(x, i) == Bit(Down(x), i - 8)
  {
    var x1, x2, x3, x4 := Half(x), Half(Half(x)), Half(Half(Half(x))), Half(Half(Half(Half(x))));
    var x5, x6, x7, x8 := Half(x4), Half(Half(x4)), Half(Half(Half(x4))), Half(Half(Half(Half(x4))));
    assert x8 == Down(x);
    hide Half, Odd, Down;
    assert Bit(x, i) == Bit(x1, i - 1) == Bit(x2, i - 2) == Bit(x3, i - 3) == Bit(x4, i - 4);
    assert Bit(x4, i - 4) == Bit(x5, i - 5) == Bit(x6, i - 6) == Bit(x7, i - 7) == Bit(x8, i - 8);
  }

  /** A register has no bit 32. */
  lemma NoBit32(x: bv32)
    ensures !Bit(x, 32)
  {
    hide Half, Odd, Down;
    EightBits(x, 32);
    EightBits(Down(x), 24);
    EightBits(Down(Down(x)), 16);
    EightBits(Down(Down(Down(x))), 8);
    DownFour(x);
    ZeroIsEven();
  }

  lemma ZeroIsEven()
    ensures !Odd(0)
  {
  }

  /** Four bits of the register form of the generator. */
  lemma FourBits(x: bv32, i: nat, y: bv32)
    requires y == x >> 4
    ensures Bit(x, 0) == (x & 1 != 0) && Bit(x, 1) == (x & 2 != 0)
    ensures Bit(x, 2) == (x & 4 != 0) && Bit(x, 3) == (x & 8 != 0)
    ensures i >= 4 ==> Bit(x, i) == Bit(y, i - 4)
  {
    var x1, x2, x3, x4 := Half(x), Half(Half(x)), Half(Half(Half(x))), Half(Half(Half(Half(x))));
    assert x4 == y;
    assert Odd(x) == (x & 1 != 0) && Odd(x1) == (x & 2 != 0) && Odd(x2) == (x & 4 != 0) && Odd(x3) == (x & 8 != 0);
    hide Half, Odd;
    assert Bit(x, 1) == Bit(x1, 0) && Bit(x, 2) == Bit(x1, 1) == Bit(x2, 0);
    assert Bit(x, 3) == Bit(x1, 2) == Bit(x2, 1) == Bit(x3, 0);
    if i >= 4 {
      assert Bit(x, i) == Bit(x1, i - 1) == Bit(x2, i - 2) == Bit(x3, i - 3) == Bit(x4, i - 4);
    }
  }

  lemma HitsGenerator(j: int)
    ensures Hits(GENERATOR, j) ==
            (j == 32 || j == 26 || j == 23 || j == 22 || j == 16 || j == 12 || j == 11 || j == 10
             || j == 8 || j == 7 || j == 5 || j == 4 || j == 2 || j == 1 || j == 0)
  {
    hide Hits;
    var g := GENERATOR;
    HitsNext(g, j, 0);
    HitsNext(g, j, 1);
    HitsNext(g, j, 2);
    HitsNext(g, j, 3);
    HitsNext(g, j, 4);
    HitsNext(g, j, 5);
    HitsNext(g, j, 6);
    HitsLow(j);
    assert g[0..] == g;
  }

  /** The exponents up to ten. */
  lemma HitsLow(j: int)
    ensures Hits(GENERATOR[7..], j) ==
            (j == 10 || j == 8 || j == 7 || j == 5 || j == 4 || j == 2 || j == 1 || j == 0)
  {
    hide Hits;
    var g := GENERATOR;
    HitsNext(g, j, 7);
    HitsNext(g, j, 8);
    HitsNext(g, j, 9);
    HitsNext(g, j, 10);
    HitsNext(g, j, 11);
    HitsNext(g, j, 12);
    HitsNext(g, j, 13);
    HitsNext(g, j, 14);
    HitsNone(g[15..], j);
  }

  lemma HitsNext(es: seq<int>, j: int, k: nat)
    requires k < |es|
    ensures Hits(es[k..], j) == ((es[k] == j) != Hits(es[k + 1..], j))
  {
    assert es[k..][1..] == es[k + 1..];
  }

  lemma HitsNone(es: seq<int>, j: int)
    requires es == []
    ensures !Hits(es, j)
  {
  }

  lemma GeneratorBits(i: nat)
    requires i < 32
    ensures Bit(POLY, i) == Hits(GENERATOR, 31 - i)
  {
    HitsGenerator(31 - i);
    hide Bit, Hits;
    GeneratorNibbles(i);
  }

  lemma GeneratorNibbles(i: nat)
    requires i < 32
    ensures Bit(POLY, i) == (i in [5, 8, 9, 15, 19, 20, 21, 23, 24, 26, 27, 29, 30, 31])
  {
    hide Bit;
    FourBits(POLY, i, 0x0EDB_8832);
    FourBits(0x0EDB_8832, if i >= 4 then i - 4 else 0, 0x00ED_B883);
    FourBits(0x00ED_B883, if i >= 8 then i - 8 else 0, 0x000E_DB88);
    FourBits(0x000E_DB88, if i >= 12 then i - 12 else 0, 0x0000_EDB8);
    FourBits(0x0000_EDB8, if i >= 16 then i - 16 else 0, 0x0000_0EDB);
    FourBits(0x0000_0EDB, if i >= 20 then i - 20 else 0, 0x0000_00ED);
    FourBits(0x0000_00ED, if i >= 24 then i - 24 else 0, 0x0000_000E);
    FourBits(0x0000_000E, if i >= 28 then i - 28 else 0, 0x0000_0000);
  }

  // products

  lemma {:induction false} TimesShifted(q: Poly, c: bool, es: seq<int>, j: int)
    ensures Times([c] + q, es, j) == (Times(q, es, j - 1) != (c && Hits(es, j)))
  {
    if es != [] {
      TimesShifted(q, c, es[1..], j);
      assert At([c] + q, j - es[0]) == if j == es[0] then c else At(q, j - 1 - es[0]);
    }
  }

  lemma {:induction false} TimesNothing(es: seq<int>, j: int)
    ensures !Times([], es, j)
  {
    if es != [] {
      TimesNothing(es[1..], j);
    }
  }

  // the division, bit by bit

  function Entered(r: bv32, b: bool): bv32 {
    Xor(r, if b then 1 else 0)
  }

  /** The register after input bits `m`, one division step each. */
  function Run(r: bv32, m: seq<bool>): bv32
    decreases |m|
  {
    if m == [] then r else Run(Shift(Entered(r, m[0])), m[1..])
  }

  lemma BitOfOne(i: nat)
    ensures Bit(1, i) == (i == 0) && !Bit(0, i)
    decreases i
  {
    assert Odd(1) && !Odd(0) && Half(1) == 0 && Half(0) == 0;
    if i > 0 {
      hide Odd, Half;
      BitOfOne(i - 1);
    }
  }

  lemma EnteredCoef(r: bv32, b: bool, j: int)
    requires j < 31
    ensures Coef(Entered(r, b), j) == Coef(r, j)
    ensures Odd(Entered(r, b)) == (Odd(r) != b)
  {
    hide Xor, Odd, Half;
    var x: bv32 := if b then 1 else 0;
    BitOfOne(0);
    OddXor(r, x);
    if 0 <= j {
      BitOfOne(31 - j);
      BitXor(r, x, 31 - j);
    }
  }

  /** One division step multiplies the register polynomial by its variable and takes the
      generator off again if the 32nd power appears. */
  lemma ShiftCoef(x: bv32, j: int)
    requires 0 <= j < 32
    ensures Coef(Shift(x), j) == (Coef(x, j - 1) != (Odd(x) && Hits(GENERATOR, j)))
  {
    hide Xor, Odd, Half, Hits;
    NoBit32(x);
    GeneratorBits(31 - j);
    BitXor(Half(x), POLY, 31 - j);
  }

  lemma DividendNext(m: seq<bool>, b: bool, j: int)
    ensures Dividend(m + [b], j) == (Dividend(m, j - 1) != (j == 32 && b))
  {
    var n := |m|;
    if 32 < j < 33 + n {
      assert (m + [b])[n - (j - 32)] == m[n - 1 - (j - 1 - 32)];
    }
  }

  lemma DividedStep(m: seq<bool>, q: Poly, r: bv32, b: bool)
    requires Divided(m, q, r)
    ensures Divided(m + [b], [Odd(r) != b] + q, Shift(Entered(r, b)))
  {
    hide Hits, Times, Odd, Shift, Entered, Dividend, Bit;
    var c := Odd(r) != b;
    forall j: int
      ensures Dividend(m + [b], j) == (Times([c] + q, GENERATOR, j) != Coef(Shift(Entered(r, b)), j))
    {
      DividendNext(m, b, j);
      TimesShifted(q, c, GENERATOR, j);
      HitsGenerator(j);
      assert Dividend(m, j - 1) == (Times(q, GENERATOR, j - 1) != Coef(r, j - 1));
      EnteredCoef(r, b, if j <= 31 then j - 1 else 0);
      if 0 <= j < 32 {
        ShiftCoef(Entered(r, b), j);
      } else if j == 32 {
        TopCoef(r);
      }
    }
  }

  lemma TopCoef(r: bv32)
    ensures Coef(r, 31) == Odd(r)
  {
  }

  lemma {:induction false} RunDivides(m: seq<bool>, q: Poly, r: bv32, more: seq<bool>) returns (q': Poly)
    requires Divided(m, q, r)
    ensures Divided(m + more, q', Run(r, more))
    decreases |more|
  {
    hide Divided, Shift, Entered;
    if more == [] {
      q' := q;
      assert m + more == m;
    } else {
      DividedStep(m, q, r, more[0]);
      q' := RunDivides(m + [more[0]], [Odd(r) != more[0]] + q, Shift(Entered(r, more[0])), more[1..]);
      assert m + [more[0]] + more[1..] == m + more;
    }
  }

  lemma AllOnes(i: nat)
    requires i < 32
    ensures Bit(INIT, i)
  {
    hide Bit;
    FourBits(INIT, i, 0x0FFF_FFFF);
    FourBits(0x0FFF_FFFF, if i >= 4 then i - 4 else 0, 0x00FF_FFFF);
    FourBits(0x00FF_FFFF, if i >= 8 then i - 8 else 0, 0x000F_FFFF);
    FourBits(0x000F_FFFF, if i >= 12 then i - 12 else 0, 0x0000_FFFF);
    FourBits(0x0000_FFFF, if i >= 16 then i - 16 else 0, 0x0000_0FFF);
    FourBits(0x0000_0FFF, if i >= 20 then i - 20 else 0, 0x0000_00FF);
    FourBits(0x0000_00FF, if i >= 24 then i - 24 else 0, 0x0000_000F);
    FourBits(0x0000_000F, if i >= 28 then i - 28 else 0, 0x0000_0000);
  }

  lemma NothingDivided()
    ensures Divided([], [], INIT)
  {
    hide Bit, Times;
    forall j: int
      ensures Dividend([], j) == (Times([], GENERATOR, j) != Coef(INIT, j))
    {
      TimesNothing(GENERATOR, j);
      if 0 <= j < 32 {
        AllOnes(31 - j);
      }
    }
  }

  // bytes as bits

  /** The low `k` bits of a register, lowest first. */
  function LowBits(x: bv32, k: nat): seq<bool> {
    if k == 0 then [] else [Odd(x)] + LowBits(Half(x), k - 1)
  }

  function HalfN(x: bv32, k: nat): bv32 {
    if k == 0 then x else HalfN(Half(x), k - 1)
  }

  /** The bits of a byte string, low bit of each byte first. */
  function InputBits(bytes: seq<u8>): seq<bool> {
    if bytes == [] then [] else LowBits(Reg(bytes[0]), 8) + InputBits(bytes[1..])
  }

  function Doubled(x: bv32): bv32 {
    x << 1
  }

  lemma SplitLowBit(x: bv32)
    ensures x == Xor(if Odd(x) then 1 else 0, Doubled(Half(x)))
    ensures !Odd(Doubled(Half(x))) && Half(Doubled(Half(x))) == Half(x)
  {
  }

  /** Only the lowest bit of what enters meets the division step; the rest moves down. */
  lemma EnterOneBit(r: bv32, x: bv32)
    ensures Shift(Xor(r, x)) == Xor(Shift(Entered(r, Odd(x))), Half(x))
  {
    SplitLowBit(x);
    hide Xor, Odd, Half, Doubled;
    var low: bv32 := if Odd(x) then 1 else 0;
    XorAssoc(r, low, Doubled(Half(x)));
    ShiftLinear(Xor(r, low), Doubled(Half(x)));
  }

  lemma {:induction false} SerialBits(r: bv32, x: bv32, k: nat)
    ensures ShiftN(Xor(r, x), k) == Xor(Run(r, LowBits(x, k)), HalfN(x, k))
    decreases k
  {
    hide Shift, Xor, Odd, Half, Entered;
    if k > 0 {
      EnterOneBit(r, x);
      OneShift(Xor(r, x), k);
      var bits := LowBits(x, k);
      assert bits[1..] == LowBits(Half(x), k - 1);
      SerialBits(Shift(Entered(r, Odd(x))), Half(x), k - 1);
    }
  }

  lemma OneShift(x: bv32, k: nat)
    requires k > 0
    ensures ShiftN(x, k) == ShiftN(Shift(x), k - 1)
  {
    hide Shift;
    ShiftNAdd(x, 1, k - 1);
    assert ShiftN(x, 1) == Shift(ShiftN(x, 0));
  }

  lemma ByteSpent(b: u8)
    ensures HalfN(Reg(b), 8) == 0
  {
    var x := Reg(b);
    RegIsLow(b);
    var y := Half(Half(Half(Half(x))));
    assert Half(Half(Half(Half(y)))) == 0;
    hide Half, Reg;
    FourHalves(x, 8);
    FourHalves(y, 4);
  }

  lemma FourHalves(x: bv32, k: nat)
    requires k >= 4
    ensures HalfN(x, k) == HalfN(Half(Half(Half(Half(x)))), k - 4)
  {
    hide Half;
    var x1, x2 := Half(x), Half(Half(x));
    assert HalfN(x, k) == HalfN(x1, k - 1) == HalfN(x2, k - 2) == HalfN(Half(x2), k - 3);
  }

  lemma {:induction false} RunAppend(r: bv32, a: seq<bool>, b: seq<bool>)
    ensures Run(r, a + b) == Run(Run(r, a), b)
    decreases |a|
  {
    hide Shift, Entered;
    if a == [] {
      assert a + b == b;
    } else {
      RunAppend(Shift(Entered(r, a[0])), a[1..], b);
      assert (a + b)[1..] == a[1..] + b;
    }
  }

  /** The byte-wise register is the bit-wise one. */
  lemma {:induction false} FoldIsSerial(r: bv32, bytes: seq<u8>)
    ensures Fold(r, bytes) == Run(r, InputBits(bytes))
    decreases |bytes|
  {
    hide Shift, ShiftN, Xor, Reg, HalfN, LowBits, Run;
    if bytes == [] {
      NothingRun(r);
    } else {
      var x := Reg(bytes[0]);
      SerialBits(r, x, 8);
      ByteSpent(bytes[0]);
      XorZero(Run(r, LowBits(x, 8)));
      RunAppend(r, LowBits(x, 8), InputBits(bytes[1..]));
      FoldIsSerial(ShiftN(Xor(r, x), 8), bytes[1..]);
    }
  }

  lemma NothingRun(r: bv32)
    ensures Run(r, []) == r
  {
  }

  /** The division law: the input bits times the 32nd power, with thirty-two ones in front,
      are a multiple of the generator plus the register; the checksum is the register with
      every bit turned over. */
  lemma DivisionLaw(bytes: seq<u8>) returns (quotient: Poly)
    ensures Divided(InputBits(bytes), quotient, Fold(INIT, bytes))
    ensures forall j :: 0 <= j < 32 ==> Coef(Checksum(bytes), j) == !Coef(Fold(INIT, bytes), j)
  {
    hide Divided, Fold, Run, Xor, Bit;
    NothingDivided();
    quotient := RunDivides([], [], INIT, InputBits(bytes));
    assert [] + InputBits(bytes) == InputBits(bytes);
    FoldIsSerial(INIT, bytes);
    forall j | 0 <= j < 32
      ensures Coef(Checksum(bytes), j) == !Coef(Fold(INIT, bytes), j)
    {
      BitXor(Fold(INIT, bytes), 0xFFFF_FFFF, 31 - j);
      AllOnes(31 - j);
    }
  }
}
