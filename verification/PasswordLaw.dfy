/** The priming digest, pinned down: its check value, and that passwords can be told apart
    by it. */
module PasswordLaw {
  import opened Words
  import opened Bytes
  import opened Password
  import Crc32Division
  import Lms

  // ----- the check value of CRC-64/WE

  function Two(x: bv64): bv64 {
    ShiftLeft(ShiftLeft(x))
  }

  function Eight(x: bv64): bv64 {
    Two(Two(Two(Two(x))))
  }

  lemma {:induction false} ShiftLeftNAdd(x: bv64, m: nat, n: nat)
    ensures ShiftLeftN(ShiftLeftN(x, m), n) == ShiftLeftN(x, m + n)
  {
    hide ShiftLeft;
    if n > 0 {
      ShiftLeftNAdd(x, m, n - 1);
    }
  }

  lemma TwoShifts(x: bv64)
    ensures ShiftLeftN(x, 2) == Two(x)
  {
    hide ShiftLeft;
    assert ShiftLeftN(x, 1) == ShiftLeft(ShiftLeftN(x, 0));
  }

  lemma EightShifts(x: bv64)
    ensures ShiftLeftN(x, 8) == Eight(x)
  {
    ShiftLeftNAdd(x, 2, 2);
    ShiftLeftNAdd(x, 4, 2);
    ShiftLeftNAdd(x, 6, 2);
    TwoShifts(x);
    TwoShifts(ShiftLeftN(x, 2));
    TwoShifts(ShiftLeftN(x, 4));
    TwoShifts(ShiftLeftN(x, 6));
    hide ShiftLeftN;
  }

  lemma CheckStep(crc: bv64, b: u8, entered: bv64, next: bv64, rest: seq<u8>)
    requires entered == Enter(crc, b) && Eight(entered) == next
    ensures Digest(crc, [b] + rest) == Digest(next, rest)
  {
    hide ShiftLeft, ShiftLeftN, Eight, Enter;
    EightShifts(entered);
    assert ([b] + rest)[1..] == rest;
  }

  lemma Digit1(rest: seq<u8>)
    ensures Digest(0xFFFF_FFFF_FFFF_FFFF, [0x31] + rest) == Digest(0x8DB4_7132_29B2_F2A5, rest)
  {
    CheckStep(0xFFFF_FFFF_FFFF_FFFF, 0x31, 0xCEFF_FFFF_FFFF_FFFF, 0x8DB4_7132_29B2_F2A5, rest);
  }

  lemma Digit2(rest: seq<u8>)
    ensures Digest(0x8DB4_7132_29B2_F2A5, [0x32] + rest) == Digest(0xF488_D61A_961B_3128, rest)
  {
    CheckStep(0x8DB4_7132_29B2_F2A5, 0x32, 0xBFB4_7132_29B2_F2A5, 0xF488_D61A_961B_3128, rest);
  }

  lemma Digit3(rest: seq<u8>)
    ensures Digest(0xF488_D61A_961B_3128, [0x33] + rest) == Digest(0x2A0B_B93A_7813_CA88, rest)
  {
    CheckStep(0xF488_D61A_961B_3128, 0x33, 0xC788_D61A_961B_3128, 0x2A0B_B93A_7813_CA88, rest);
  }

  lemma Digit4(rest: seq<u8>)
    ensures Digest(0x2A0B_B93A_7813_CA88, [0x34] + rest) == Digest(0x3330_2B9F_C238_55A8, rest)
  {
    CheckStep(0x2A0B_B93A_7813_CA88, 0x34, 0x1E0B_B93A_7813_CA88, 0x3330_2B9F_C238_55A8, rest);
  }

  lemma Digit5(rest: seq<u8>)
    ensures Digest(0x3330_2B9F_C238_55A8, [0x35] + rest) == Digest(0xFCF9_3A50_65C3_29F9, rest)
  {
    CheckStep(0x3330_2B9F_C238_55A8, 0x35, 0x0630_2B9F_C238_55A8, 0xFCF9_3A50_65C3_29F9, rest);
  }

  lemma Digit6(rest: seq<u8>)
    ensures Digest(0xFCF9_3A50_65C3_29F9, [0x36] + rest) == Digest(0xC242_B8ED_1B26_187A, rest)
  {
    CheckStep(0xFCF9_3A50_65C3_29F9, 0x36, 0xCAF9_3A50_65C3_29F9, 0xC242_B8ED_1B26_187A, rest);
  }

  lemma Digit7(rest: seq<u8>)
    ensures Digest(0xC242_B8ED_1B26_187A, [0x37] + rest) == Digest(0xCFC3_0460_A7CC_7B9F, rest)
  {
    CheckStep(0xC242_B8ED_1B26_187A, 0x37, 0xF542_B8ED_1B26_187A, 0xCFC3_0460_A7CC_7B9F, rest);
  }

  lemma Digit8(rest: seq<u8>)
    ensures Digest(0xCFC3_0460_A7CC_7B9F, [0x38] + rest) == Digest(0xCB9E_4A0B_1E7B_F3B9, rest)
  {
    CheckStep(0xCFC3_0460_A7CC_7B9F, 0x38, 0xF7C3_0460_A7CC_7B9F, 0xCB9E_4A0B_1E7B_F3B9, rest);
  }

  lemma Digit9(rest: seq<u8>)
    ensures Digest(0xCB9E_4A0B_1E7B_F3B9, [0x39] + rest) == Digest(0x9D13_A61C_0E5B_0FF5, rest)
  {
    CheckStep(0xCB9E_4A0B_1E7B_F3B9, 0x39, 0xF29E_4A0B_1E7B_F3B9, 0x9D13_A61C_0E5B_0FF5, rest);
  }

  /** The check value: the digest of the characters 1 to 9. */
  lemma CheckValue()
    ensures Digest(ALL_ONES, Crc32Division.DIGITS) ^ ALL_ONES == 0x62EC_59E3_F1A4_F00A
  {
    hide Digest;
    var d9: seq<u8> := [0x39] + [];
    var d8 := [0x38] + d9;
    var d7 := [0x37] + d8;
    var d6 := [0x36] + d7;
    var d5 := [0x35] + d6;
    var d4 := [0x34] + d5;
    var d3 := [0x33] + d4;
    var d2 := [0x32] + d3;
    assert Crc32Division.DIGITS == [0x31] + d2;
    Digit1(d2);
    Digit2(d3);
    Digit3(d4);
    Digit4(d5);
    Digit5(d6);
    Digit6(d7);
    Digit7(d8);
    Digit8(d9);
    Digit9([]);
    Finished(0x9D13_A61C_0E5B_0FF5);
  }

  lemma Finished(crc: bv64)
    ensures Digest(crc, []) == crc
  {
  }

  // ----- telling passwords apart

  function Xor(a: bv64, b: bv64): bv64 {
    a ^ b
  }

  function Down(x: bv64): bv64 {
    x >> 8
  }

  /** A byte at the high end. */
  function Top(b: u8): bv64 {
    ((b as bv8) as bv64) << 56
  }

  /** Up to eight bytes at the high end of a register, the first one highest. */
  function Placed(data: seq<u8>): bv64 {
    if data == [] then 0 else Xor(Top(data[0]), Down(Placed(data[1..])))
  }

  /** Eight steps on a value with a zero high byte only move it up. */
  lemma EightUp(x: bv64)
    requires (x << 8) >> 8 == x
    ensures Eight(x) == x << 8
  {
    var x1, x2, x3, x4 := x << 1, x << 2, x << 3, x << 4;
    var x5, x6, x7 := x << 5, x << 6, x << 7;
    assert ShiftLeft(x) == x1 && ShiftLeft(x1) == x2 && ShiftLeft(x2) == x3 && ShiftLeft(x3) == x4;
    assert ShiftLeft(x4) == x5 && ShiftLeft(x5) == x6 && ShiftLeft(x6) == x7 && ShiftLeft(x7) == x << 8;
    hide ShiftLeft;
  }

  predicate Signed(x: bv64) {
    x & 0x8000_0000_0000_0000 != 0
  }

  function Doubled(x: bv64): bv64 {
    x << 1
  }

  lemma ShiftLeftForm(x: bv64)
    ensures ShiftLeft(x) == if Signed(x) then Xor(Doubled(x), POLY64) else Doubled(x)
  {
  }

  lemma DoubledXor(a: bv64, b: bv64)
    ensures Doubled(Xor(a, b)) == Xor(Doubled(a), Doubled(b))
  {
  }

  lemma SignedXor(a: bv64, b: bv64)
    ensures Signed(Xor(a, b)) == (Signed(a) != Signed(b))
  {
  }

  lemma XorAssoc(a: bv64, b: bv64, c: bv64)
    ensures Xor(Xor(a, b), c) == Xor(a, Xor(b, c))
  {
  }

  lemma XorSwap(a: bv64, b: bv64, p: bv64)
    ensures Xor(Xor(a, p), b) == Xor(Xor(a, b), p) == Xor(a, Xor(b, p))
    ensures Xor(Xor(a, p), Xor(b, p)) == Xor(a, b)
  {
  }

  lemma ShiftLeftLinear(a: bv64, b: bv64)
    ensures ShiftLeft(Xor(a, b)) == Xor(ShiftLeft(a), ShiftLeft(b))
  {
    hide ShiftLeft, Xor, Signed, Doubled;
    ShiftLeftForm(a);
    ShiftLeftForm(b);
    ShiftLeftForm(Xor(a, b));
    DoubledXor(a, b);
    SignedXor(a, b);
    XorSwap(Doubled(a), Doubled(b), POLY64);
  }

  lemma {:induction false} ShiftLeftNLinear(a: bv64, b: bv64, n: nat)
    ensures ShiftLeftN(Xor(a, b), n) == Xor(ShiftLeftN(a, n), ShiftLeftN(b, n))
  {
    hide ShiftLeft, Xor;
    if n > 0 {
      ShiftLeftNLinear(a, b, n - 1);
      ShiftLeftLinear(ShiftLeftN(a, n - 1), ShiftLeftN(b, n - 1));
    }
  }

  /** A doubled register has a zero low bit, and the polynomial's low bit is set. */
  lemma DoubledDiffer(a: bv64, b: bv64)
    ensures Doubled(a) != Xor(Doubled(b), POLY64)
  {
  }

  lemma DoubledInjective(a: bv64, b: bv64)
    requires Doubled(a) == Doubled(b) && Signed(a) == Signed(b)
    ensures a == b
  {
  }

  lemma XorInjective(a: bv64, b: bv64, c: bv64)
    requires Xor(a, c) == Xor(b, c)
    ensures a == b
  {
  }

  lemma ShiftLeftInjective(a: bv64, b: bv64)
    requires ShiftLeft(a) == ShiftLeft(b)
    ensures a == b
  {
    hide ShiftLeft, Xor, Signed, Doubled;
    ShiftLeftForm(a);
    ShiftLeftForm(b);
    DoubledDiffer(a, b);
    DoubledDiffer(b, a);
    assert Signed(a) == Signed(b);
    if Signed(a) {
      XorInjective(Doubled(a), Doubled(b), POLY64);
    }
    DoubledInjective(a, b);
  }

  lemma {:induction false} ShiftLeftNInjective(a: bv64, b: bv64, n: nat)
    requires ShiftLeftN(a, n) == ShiftLeftN(b, n)
    ensures a == b
  {
    hide ShiftLeft;
    if n > 0 {
      ShiftLeftInjective(ShiftLeftN(a, n - 1), ShiftLeftN(b, n - 1));
      ShiftLeftNInjective(a, b, n - 1);
    }
  }

  function Up(x: bv64): bv64 {
    x << 8
  }

  /** What is left of a register below its `k` highest bytes. */
  function Below(x: bv64, k: nat): bv64
    decreases k
  {
    if k == 0 then x else Below(Up(x), k - 1)
  }

  lemma {:induction false} PlacedFits(data: seq<u8>)
    requires |data| <= 8
    ensures Below(Placed(data), |data|) == 0
    decreases |data|
  {
    hide Top, Xor, Up, Down;
    if data != [] {
      var p := Placed(data[1..]);
      PlacedFits(data[1..]);
      LowByteClear(p, |data| - 1);
      TopClears(data[0], p);
    }
  }

  lemma {:induction false} BelowMono(x: bv64, j: nat, k: nat)
    requires j <= k && Below(x, j) == 0
    ensures Below(x, k) == 0
    decreases k
  {
    hide Up;
    if j > 0 {
      BelowMono(Up(x), j - 1, k - 1);
    } else if k > 0 {
      NothingUp();
      BelowMono(Up(x), 0, k - 1);
    }
  }

  lemma NothingUp()
    ensures Up(0) == 0
  {
  }

  lemma SevenUps(x: bv64)
    requires Up(Up(Up(Up(Up(Up(Up(x))))))) == 0
    ensures Up(Down(x)) == x
  {
  }

  lemma SevenUp(x: bv64)
    requires Below(x, 7) == 0
    ensures Up(Down(x)) == x
  {
    SevenUps(x) by {
      hide Up, Down;
      var x3 := Up(Up(Up(x)));
      assert Below(x, 7) == Below(Up(x), 6) == Below(Up(Up(x)), 5) == Below(x3, 4);
      assert Below(x3, 4) == Below(Up(x3), 3) == Below(Up(Up(x3)), 2) == Below(Up(Up(Up(x3))), 1);
    }
  }

  lemma LowByteClear(x: bv64, k: nat)
    requires k <= 7 && Below(x, k) == 0
    ensures Up(Down(x)) == x
  {
    BelowMono(x, k, 7);
    SevenUp(x);
  }

  lemma TopUp(b: u8)
    ensures Up(Top(b)) == 0
  {
  }

  lemma TopClears(b: u8, p: bv64)
    requires Up(Down(p)) == p
    ensures Up(Xor(Top(b), Down(p))) == p
  {
    hide Top, Up, Down, Xor;
    TopUp(b);
    XorUp(Top(b), Down(p));
  }

  lemma XorUp(a: bv64, b: bv64)
    requires Up(a) == 0
    ensures Up(Xor(a, b)) == Up(b)
  {
  }

  /** Up to eight bytes enter the register at once. */
  lemma {:induction false} DigestPlaced(crc: bv64, data: seq<u8>)
    requires |data| <= 8
    ensures Digest(crc, data) == ShiftLeftN(Xor(crc, Placed(data)), 8 * |data|)
    decreases |data|
  {
    hide Top, Xor, ShiftLeft, Down;
    if data == [] {
      XorNothing(crc);
    } else {
      var y, p := Xor(crc, Top(data[0])), Placed(data[1..]);
      EnterTop(crc, data[0]);
      DigestPlaced(ShiftLeftN(y, 8), data[1..]);
      PlacedFits(data[1..]);
      LowByteClear(p, |data| - 1);
      UpAgain(p);
      ShiftLeftNLinear(y, Down(p), 8);
      XorAssoc(crc, Top(data[0]), Down(p));
      ShiftLeftNAdd(Xor(y, Down(p)), 8, 8 * (|data| - 1));
    }
  }

  lemma EnterTop(crc: bv64, b: u8)
    ensures Enter(crc, b) == Xor(crc, Top(b))
  {
  }

  lemma XorNothing(x: bv64)
    ensures Xor(x, 0) == x
  {
  }

  lemma UpAgain(p: bv64)
    requires Up(Down(p)) == p
    ensures ShiftLeftN(Down(p), 8) == p
  {
    hide ShiftLeftN, Eight, ShiftLeft;
    EightUp(Down(p));
    EightShifts(Down(p));
  }

  lemma TopOf(b: u8, p: bv64)
    ensures Xor(Top(b), Down(p)) >> 56 == (b as bv8) as bv64
  {
  }

  lemma WideByte(a: u8, b: u8)
    requires ((a as bv8) as bv64) == ((b as bv8) as bv64)
    ensures a == b
  {
    IntThroughByte(a);
    IntThroughByte(b);
    Narrow(a as bv8, b as bv8);
  }

  lemma Narrow(a: bv8, b: bv8)
    requires (a as bv64) == (b as bv64)
    ensures a == b
  {
  }

  lemma {:induction false} PlacedInjective(a: seq<u8>, b: seq<u8>)
    requires |a| == |b| <= 8 && Placed(a) == Placed(b)
    ensures a == b
  {
    if a != [] {
      hide Top, Xor, Up, Down;
      var p, q := Placed(a[1..]), Placed(b[1..]);
      TopOf(a[0], p);
      TopOf(b[0], q);
      WideByte(a[0], b[0]);
      PlacedFits(a[1..]);
      PlacedFits(b[1..]);
      LowByteClear(p, |a| - 1);
      LowByteClear(q, |b| - 1);
      TopClears(a[0], p);
      TopClears(b[0], q);
      PlacedInjective(a[1..], b[1..]);
      assert a == [a[0]] + a[1..] && b == [b[0]] + b[1..];
    }
  }

  // ----- the lanes

  /** A lane without its sign, as a byte. */
  function Unsigned(lane: i32): bv8 {
    ByteOf(lane % 256)
  }

  function ByteOf(x: int): bv8
    requires 0 <= x < 256
  {
    x as bv8
  }

  lemma UnsignedLane(b: bv8)
    ensures Unsigned(SignExtend(b)) == b
  {
    ByteThroughInt(b);
    var x: int := b as int;
    assert SignExtend(b) % 256 == x;
  }

  /** Eight lanes as a number, low byte first. */
  function Number(l: Lms.Taps): bv64 {
    Sum(Unsigned(l[0]), Unsigned(l[1]), Unsigned(l[2]), Unsigned(l[3]),
        Unsigned(l[4]), Unsigned(l[5]), Unsigned(l[6]), Unsigned(l[7]))
  }

  function Sum(b0: bv8, b1: bv8, b2: bv8, b3: bv8, b4: bv8, b5: bv8, b6: bv8, b7: bv8): bv64 {
    Part(b0, 0) + Part(b1, 8) + Part(b2, 16) + Part(b3, 24) + Part(b4, 32) + Part(b5, 40) + Part(b6, 48) + Part(b7, 56)
  }

  function Part(b: bv8, shift: bv7): bv64
    requires shift < 64
  {
    (b as bv64) << shift
  }

  lemma NumberOfBytes(d: bv64)
    ensures d == Sum(LaneByte(d, 0), LaneByte(d, 1), LaneByte(d, 2), LaneByte(d, 3),
                     LaneByte(d, 4), LaneByte(d, 5), LaneByte(d, 6), LaneByte(d, 7))
  {
  }

  /** The lanes are the digest's bytes, low byte first, each read as a signed byte: the
      digest is the sum of `(lane i mod 256) * 2^(8 i)`. */
  lemma LanesAreTheDigest(d: bv64)
    ensures Number(Lanes(d)) == d
    ensures forall i :: 0 <= i < 8 ==> -128 <= Lanes(d)[i] < 128
  {
    hide LaneByte, Sum, SignExtend, Unsigned, Lanes;
    NumberOfBytes(d);
    forall i | 0 <= i < 8
      ensures Unsigned(Lanes(d)[i]) == LaneByte(d, i) && -128 <= Lanes(d)[i] < 128
    {
      LaneAt(d, i);
      UnsignedLane(LaneByte(d, i));
    }
  }

  lemma LaneAt(d: bv64, i: nat)
    requires i < 8
    ensures Lanes(d)[i] == SignExtend(LaneByte(d, i))
  {
  }

  lemma PrimingIs(password: seq<u8>)
    ensures Priming(password) == Lanes(Xor(Digest(ALL_ONES, password), ALL_ONES))
  {
    hide Lanes, Digest;
  }

  /** Two passwords of one length of at most eight bytes prime alike only if they are the
      same. */
  lemma PrimingTellsApart(a: seq<u8>, b: seq<u8>)
    requires |a| == |b| <= 8 && Priming(a) == Priming(b)
    ensures a == b
  {
    hide Lanes, Digest, Number, ShiftLeftN, Placed, Xor, Priming;
    var x, y := Digest(ALL_ONES, a), Digest(ALL_ONES, b);
    PrimingIs(a);
    PrimingIs(b);
    LanesAreTheDigest(Xor(x, ALL_ONES));
    LanesAreTheDigest(Xor(y, ALL_ONES));
    XorInjective(x, y, ALL_ONES);
    DigestPlaced(ALL_ONES, a);
    DigestPlaced(ALL_ONES, b);
    ShiftLeftNInjective(Xor(ALL_ONES, Placed(a)), Xor(ALL_ONES, Placed(b)), 8 * |a|);
    XorComm(ALL_ONES, Placed(a));
    XorComm(ALL_ONES, Placed(b));
    XorInjective(Placed(a), Placed(b), ALL_ONES);
    PlacedInjective(a, b);
  }

  lemma XorComm(a: bv64, b: bv64)
    ensures Xor(a, b) == Xor(b, a)
  {
  }

  lemma CheckLanes()
    ensures Lanes(0x62EC_59E3_F1A4_F00A) == [10, -16, -92, -15, -29, 89, -20, 98]
  {
    var d: bv64 := 0x62EC_59E3_F1A4_F00A;
    assert LaneByte(d, 0) == 0x0A && LaneByte(d, 1) == 0xF0 && LaneByte(d, 2) == 0xA4 && LaneByte(d, 3) == 0xF1;
    assert LaneByte(d, 4) == 0xE3 && LaneByte(d, 5) == 0x59 && LaneByte(d, 6) == 0xEC && LaneByte(d, 7) == 0x62;
    hide LaneByte;
    assert SignExtend(0x0A) == 10 && SignExtend(0xF0) == -16 && SignExtend(0xA4) == -92 && SignExtend(0xF1) == -15;
    assert SignExtend(0xE3) == -29 && SignExtend(0x59) == 89 && SignExtend(0xEC) == -20 && SignExtend(0x62) == 98;
  }

  /** The lanes a password of the characters 1 to 9 primes with. */
  lemma PrimingOfDigits()
    ensures Priming(Crc32Division.DIGITS) == [10, -16, -92, -15, -29, 89, -20, 98]
  {
    hide Lanes, Digest;
    CheckValue();
    CheckLanes();
  }
}
