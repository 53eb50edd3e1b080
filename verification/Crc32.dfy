/** CRC-32 of section 8 of RFC 1952 in reflected form (src/crc32.rs): bitwise
    division, the byte-wise table, slice-by-8, and what the checksum detects. */
module Crc32 {
  import opened Words
  import opened Bytes

  const POLY: bv32 := 0xEDB8_8320
  const INIT: bv32 := 0xFFFF_FFFF

  // ----- register operations

  function Xor(a: bv32, b: bv32): bv32 {
    a ^ b
  }

  predicate Odd(x: bv32) {
    x & 1 != 0
  }

  function Half(x: bv32): bv32 {
    x >> 1
  }

  /** One step of polynomial division. */
  function Shift(x: bv32): bv32 {
    if Odd(x) then Xor(Half(x), POLY) else Half(x)
  }

  function ShiftN(x: bv32, n: nat): bv32 {
    if n == 0 then x else Shift(ShiftN(x, n - 1))
  }

  /** A byte, zero-extended to the register width. */
  function Reg(b: u8): bv32 {
    (b as bv8) as bv32
  }

  /** The low byte of a register, as a table index. */
  function LowByte(x: bv32): u8 {
    ((x & 0xFF) as bv8) as int
  }

  function Down(x: bv32): bv32 {
    x >> 8
  }

  function Up(x: bv32): bv32 {
    x << 8
  }

  /** The reference: each byte enters the low end of the register, then eight
      division steps. */
  function Fold(reg: bv32, bytes: seq<u8>): bv32
    decreases |bytes|
  {
    if bytes == [] then reg else Fold(ShiftN(Xor(reg, Reg(bytes[0])), 8), bytes[1..])
  }

  /** The checksum of a byte string. */
  function Checksum(bytes: seq<u8>): bv32 {
    Xor(Fold(INIT, bytes), 0xFFFF_FFFF)
  }

  // ----- the bit-level facts everything else rests on

  lemma XorComm(a: bv32, b: bv32)
    ensures Xor(a, b) == Xor(b, a)
  {
  }

  lemma XorAssoc(a: bv32, b: bv32, c: bv32)
    ensures Xor(Xor(a, b), c) == Xor(a, Xor(b, c))
  {
  }

  lemma XorSelf(a: bv32, b: bv32)
    ensures Xor(Xor(a, b), b) == a
  {
  }

  lemma HalfXor(a: bv32, b: bv32)
    ensures Half(Xor(a, b)) == Xor(Half(a), Half(b))
  {
  }

  lemma OddXor(a: bv32, b: bv32)
    ensures Odd(Xor(a, b)) <==> Odd(a) != Odd(b)
  {
  }

  /** A halved register has a zero top bit, and the polynomial's top bit is set. */
  lemma HalvesDiffer(a: bv32, b: bv32)
    ensures Half(a) != Xor(Half(b), POLY)
  {
  }

  lemma HalfInjective(a: bv32, b: bv32)
    requires Half(a) == Half(b) && Odd(a) == Odd(b)
    ensures a == b
  {
  }

  /** The branch a division step took can be read off its result. */
  lemma ShiftInjective(a: bv32, b: bv32)
    requires Shift(a) == Shift(b)
    ensures a == b
  {
    hide Xor, Odd, Half;
    HalvesDiffer(a, b);
    HalvesDiffer(b, a);
    XorSelf(Half(a), POLY);
    XorSelf(Half(b), POLY);
    assert Half(a) == Half(b) && Odd(a) == Odd(b);
    HalfInjective(a, b);
  }

  lemma RegLowByte(x: bv32)
    ensures Reg(LowByte(x)) == x & 0xFF
  {
    var b := (x & 0xFF) as bv8;
    ByteThroughInt(b);
  }

  lemma MaskSplit(x: bv32)
    ensures x == Xor(x & 0xFF, Up(Down(x)))
  {
  }

  lemma SplitLowByte(x: bv32)
    ensures x == Xor(Reg(LowByte(x)), Up(Down(x)))
  {
    hide Xor, Reg, LowByte, Up, Down;
    RegLowByte(x);
    MaskSplit(x);
  }

  // ----- linearity over GF(2)

  lemma ShiftLinear(a: bv32, b: bv32)
    ensures Shift(Xor(a, b)) == Xor(Shift(a), Shift(b))
  {
    hide Xor, Odd, Half;
    HalfXor(a, b);
    OddXor(a, b);
    var x, y := Half(a), Half(b);
    XorAssoc(x, y, POLY);
    XorAssoc(x, POLY, y);
    XorComm(y, POLY);
    XorAssoc(Xor(x, POLY), y, POLY);
    XorSelf(Xor(x, y), POLY);
  }

  lemma {:induction false} ShiftNLinear(a: bv32, b: bv32, n: nat)
    ensures ShiftN(Xor(a, b), n) == Xor(ShiftN(a, n), ShiftN(b, n))
  {
    hide Shift, Xor;
    if n > 0 {
      ShiftNLinear(a, b, n - 1);
      ShiftLinear(ShiftN(a, n - 1), ShiftN(b, n - 1));
    }
  }

  lemma {:induction false} ShiftNAdd(x: bv32, m: nat, n: nat)
    ensures ShiftN(ShiftN(x, m), n) == ShiftN(x, m + n)
  {
    hide Shift;
    if n > 0 {
      ShiftNAdd(x, m, n - 1);
    }
  }

  lemma {:induction false} ShiftNInjective(a: bv32, b: bv32, n: nat)
    requires ShiftN(a, n) == ShiftN(b, n)
    ensures a == b
  {
    hide Shift;
    if n > 0 {
      ShiftInjective(ShiftN(a, n - 1), ShiftN(b, n - 1));
      ShiftNInjective(a, b, n - 1);
    }
  }

  /** Eight steps on a value with a zero low byte only move it down. */
  lemma {:induction false} ShiftHigh(x: bv32)
    requires x & 0xFF == 0
    ensures ShiftN(x, 8) == x >> 8
  {
    var x1, x2, x3, x4 := x >> 1, x >> 2, x >> 3, x >> 4;
    var x5, x6, x7, x8 := x >> 5, x >> 6, x >> 7, x >> 8;
    assert Shift(x) == x1 && Shift(x1) == x2 && Shift(x2) == x3 && Shift(x3) == x4;
    assert Shift(x4) == x5 && Shift(x5) == x6 && Shift(x6) == x7 && Shift(x7) == x8;
    hide Shift;
    assert ShiftN(x, 1) == x1 && ShiftN(x, 2) == x2 && ShiftN(x, 3) == x3 && ShiftN(x, 4) == x4;
    assert ShiftN(x, 5) == x5 && ShiftN(x, 6) == x6 && ShiftN(x, 7) == x7 && ShiftN(x, 8) == x8;
  }

  lemma UpClearsLowByte(x: bv32)
    ensures Up(x) & 0xFF == 0
    ensures Up(x) >> 8 == Down(Up(x))
  {
  }

  lemma ShiftUp(x: bv32)
    requires Down(Up(x)) == x
    ensures ShiftN(Up(x), 8) == x
  {
    hide Up, Down, ShiftN;
    UpClearsLowByte(x);
    ShiftHigh(Up(x));
  }

  /** The table step: the low byte through the table, the rest moved down. */
  lemma {:induction false} SarwateStep(x: bv32)
    ensures ShiftN(x, 8) == Xor(ShiftN(Reg(LowByte(x)), 8), Down(x))
  {
    SplitLowByte(x);
    DownUp(x);
    hide Xor, Shift, ShiftN, Up, Down, Reg, LowByte;
    ShiftNLinear(Reg(LowByte(x)), Up(Down(x)), 8);
    ShiftUp(Down(x));
  }

  lemma DownUp(x: bv32)
    ensures Down(Up(Down(x))) == Down(x)
  {
  }

  // ----- little-endian words

  /** `u32::from_le_bytes` on up to four bytes. */
  function LeWord(bs: seq<u8>): bv32
    decreases |bs|
  {
    if bs == [] then 0 else Xor(Reg(bs[0]), Up(LeWord(bs[1..])))
  }

  /** `u32::to_le_bytes`. */
  function WordBytes(x: bv32): (bs: seq<u8>)
    ensures |bs| == 4
  {
    [LowByte(x), LowByte(Down(x)), LowByte(Down(Down(x))), LowByte(Down(Down(Down(x))))]
  }

  /** What is left of `x` above its low `k` bytes. */
  function Above(x: bv32, k: nat): bv32 {
    if k == 0 then x else Above(Down(x), k - 1)
  }

  lemma {:induction false} AboveMono(x: bv32, j: nat, k: nat)
    requires j <= k && Above(x, j) == 0
    ensures Above(x, k) == 0
  {
    if j > 0 {
      AboveMono(Down(x), j - 1, k - 1);
    } else if k > 0 {
      AboveMono(Down(x), 0, k - 1);
    }
  }

  lemma RegIsLow(b: u8)
    ensures Reg(b) & 0xFFFF_FF00 == 0
  {
  }

  lemma DownUpSmall(x: bv32)
    requires Down(Down(Down(x))) == 0
    ensures Down(Up(x)) == x
  {
  }

  lemma DownXor(r: bv32, x: bv32)
    requires Down(Up(x)) == x && r & 0xFFFF_FF00 == 0
    ensures Down(Xor(r, Up(x))) == x
  {
  }

  lemma LowOfXor(r: bv32, x: bv32)
    requires r & 0xFFFF_FF00 == 0
    ensures Xor(r, Up(x)) & 0xFF == r
  {
  }

  lemma {:induction false} LeWordFits(bs: seq<u8>)
    requires |bs| <= 4
    ensures Above(LeWord(bs), |bs|) == 0
    ensures bs != [] ==> Down(Up(LeWord(bs[1..]))) == LeWord(bs[1..])
  {
    hide Xor, Up, Down, Reg;
    if bs != [] {
      var w := LeWord(bs[1..]);
      LeWordFits(bs[1..]);
      AboveMono(w, |bs| - 1, 3);
      assert Above(w, 3) == Above(Down(w), 2) == Above(Down(Down(w)), 1) == Above(Down(Down(Down(w))), 0);
      DownUpSmall(w);
      RegIsLow(bs[0]);
      DownXor(Reg(bs[0]), w);
    }
  }

  lemma LowByteOf(b: u8, x: bv32)
    requires x & 0xFF == Reg(b)
    ensures LowByte(x) == b
  {
    IntThroughByte(b);
    var w := (x & 0xFF) as bv8;
    assert w == b as bv8;
  }

  /** Taking the first byte off a little-endian word. */
  lemma {:induction false} LeWordHead(bs: seq<u8>)
    requires 0 < |bs| <= 4
    ensures LowByte(LeWord(bs)) == bs[0]
    ensures Down(LeWord(bs)) == LeWord(bs[1..])
    ensures Down(Up(LeWord(bs[1..]))) == LeWord(bs[1..])
  {
    hide Xor, Up, Down, Reg, LowByte;
    var r, w := Reg(bs[0]), LeWord(bs[1..]);
    LeWordFits(bs);
    RegIsLow(bs[0]);
    DownXor(r, w);
    LowOfXor(r, w);
    LowByteOf(bs[0], LeWord(bs));
  }

  /** A word and its four bytes determine each other. */
  lemma {:induction false} LeWordBytes(bs: seq<u8>)
    requires |bs| == 4
    ensures WordBytes(LeWord(bs)) == bs
  {
    hide Down, LowByte, LeWord;
    LeWordHead(bs);
    LeWordHead(bs[1..]);
    LeWordHead(bs[2..]);
    LeWordHead(bs[3..]);
    assert bs[1..][1..] == bs[2..] && bs[2..][1..] == bs[3..];
  }

  lemma WordBytesLe(x: bv32)
    ensures LeWord(WordBytes(x)) == x
  {
    hide Xor, Up, Down, Reg, LowByte;
    var bs := WordBytes(x);
    SplitLowByte(x);
    SplitLowByte(Down(x));
    SplitLowByte(Down(Down(x)));
    SplitLowByte(Down(Down(Down(x))));
    DownFour(x);
    assert bs[3..][1..] == [] && bs[2..][1..] == bs[3..] && bs[1..][1..] == bs[2..];
    assert LeWord(bs[3..]) == Down(Down(Down(x)));
    assert LeWord(bs[2..]) == Down(Down(x));
    assert LeWord(bs[1..]) == Down(x);
  }

  lemma DownFour(x: bv32)
    ensures Down(Down(Down(Down(x)))) == 0
  {
  }

  // ----- slice-by-8

  /** `TABLES[j][b]`: the register after byte `b` and `j` zero bytes. */
  function Table(j: nat, b: u8): bv32 {
    ShiftN(Reg(b), 8 * (j + 1))
  }

  /** Up to four bytes enter the register at once. */
  lemma {:induction false} FoldWord(r: bv32, bs: seq<u8>)
    requires |bs| <= 4
    ensures Fold(r, bs) == ShiftN(Xor(r, LeWord(bs)), 8 * |bs|)
    decreases |bs|
  {
    hide Xor, Shift, Up, Down, Reg;
    if bs == [] {
      XorZero(r);
    } else {
      var y, w := Xor(r, Reg(bs[0])), LeWord(bs[1..]);
      LeWordHead(bs);
      FoldWord(ShiftN(y, 8), bs[1..]);
      ShiftUp(w);
      ShiftNLinear(y, Up(w), 8);
      XorAssoc(r, Reg(bs[0]), Up(w));
      ShiftNAdd(Xor(y, Up(w)), 8, 8 * (|bs| - 1));
    }
  }

  lemma XorZero(r: bv32)
    ensures Xor(r, 0) == r
    ensures Xor(0, r) == r
  {
  }

  /** A register's low byte goes through a table, the rest has one byte less to go. */
  lemma {:induction false} TableStep(x: bv32, j: nat)
    ensures ShiftN(x, 8 * (j + 1)) == Xor(Table(j, LowByte(x)), ShiftN(Down(x), 8 * j))
  {
    hide Xor, Shift, Up, Down, Reg, LowByte;
    var low, high := Reg(LowByte(x)), Up(Down(x));
    SplitLowByte(x);
    ShiftNLinear(low, high, 8 * (j + 1));
    DownUp(x);
    ShiftUp(Down(x));
    ShiftNAdd(high, 8, 8 * j);
  }

  lemma {:induction false} ShiftNZero(n: nat)
    ensures ShiftN(0, n) == 0
  {
    if n > 0 {
      ShiftNZero(n - 1);
    }
  }

  /** The four table lookups for the bytes of one word. */
  function Lanes(x: bv32, j: nat): bv32
    requires j >= 3
  {
    Xor(Xor(Xor(Table(j, LowByte(x)), Table(j - 1, LowByte(Down(x)))),
            Table(j - 2, LowByte(Down(Down(x))))),
        Table(j - 3, LowByte(Down(Down(Down(x))))))
  }

  lemma {:induction false} LanesFold(x: bv32, j: nat)
    requires j >= 3
    ensures Lanes(x, j) == ShiftN(x, 8 * (j + 1))
  {
    hide Xor, Shift, ShiftN, Down, LowByte, Table;
    var x1, x2, x3 := Down(x), Down(Down(x)), Down(Down(Down(x)));
    TableStep(x, j);
    TableStep(x1, j - 1);
    TableStep(x2, j - 2);
    TableStep(x3, j - 3);
    DownFour(x);
    ShiftNZero(8 * (j - 3));
    var t0, t1, t2, t3 := Table(j, LowByte(x)), Table(j - 1, LowByte(x1)), Table(j - 2, LowByte(x2)), Table(j - 3, LowByte(x3));
    XorZero(t3);
    XorAssoc(t0, t1, Xor(t2, t3));
    XorAssoc(Xor(t0, t1), t2, t3);
  }

  /** Eight bytes through the eight tables are eight byte-wise steps. */
  lemma {:induction false} SliceByEight(crc: bv32, chunk: seq<u8>)
    requires |chunk| == 8
    ensures Fold(crc, chunk) == Xor(Lanes(Xor(LeWord(chunk[..4]), crc), 7), Lanes(LeWord(chunk[4..]), 3))
  {
    hide Xor, Shift, ShiftN, Lanes, LeWord;
    var lo, hi := Xor(crc, LeWord(chunk[..4])), LeWord(chunk[4..]);
    assert chunk == chunk[..4] + chunk[4..];
    FoldAppend(crc, chunk[..4], chunk[4..]);
    FoldWord(crc, chunk[..4]);
    FoldWord(ShiftN(lo, 32), chunk[4..]);
    ShiftNLinear(ShiftN(lo, 32), hi, 32);
    ShiftNAdd(lo, 32, 32);
    LanesFold(lo, 7);
    LanesFold(hi, 3);
    XorComm(crc, LeWord(chunk[..4]));
  }

  /** Any split of the input gives the same register. */
  lemma {:induction false} FoldAppend(r: bv32, a: seq<u8>, b: seq<u8>)
    ensures Fold(r, a + b) == Fold(Fold(r, a), b)
    decreases |a|
  {
    hide Xor, ShiftN, Reg;
    if a == [] {
      assert a + b == b;
    } else {
      FoldAppend(ShiftN(Xor(r, Reg(a[0])), 8), a[1..], b);
      assert (a + b)[1..] == a[1..] + b;
    }
  }

  // ----- the tables and the streaming register

  /** `table[prev & 0xFF] ^ (prev >> 8)` extends a table by one zero byte. */
  lemma TableRecurrence(j: nat, b: u8)
    ensures Table(j + 1, b) == Xor(Table(0, LowByte(Table(j, b))), Down(Table(j, b)))
  {
    hide Xor, Shift, Down, LowByte, Reg;
    ShiftNAdd(Reg(b), 8 * (j + 1), 8);
    SarwateStep(Table(j, b));
  }

  /** `build_table`: 256 entries of eight division steps each. */
  method BuildTable() returns (table: array<bv32>)
    ensures fresh(table) && table.Length == 256
    ensures forall i :: 0 <= i < 256 ==> table[i] == Table(0, i)
  {
    hide Xor, Shift, Reg;
    table := new bv32[256];
    for i := 0 to 256
      invariant forall k :: 0 <= k < i ==> table[k] == Table(0, k)
    {
      var crc := Reg(i);
      for j := 0 to 8
        invariant crc == ShiftN(Reg(i), j)
      {
        crc := Shift(crc);
      }
      table[i] := crc;
    }
  }

  /** `build_tables`: each level from the one below and the first. */
  method BuildTables() returns (tables: array2<bv32>)
    ensures fresh(tables) && tables.Length0 == 8 && tables.Length1 == 256
    ensures forall j, i :: 0 <= j < 8 && 0 <= i < 256 ==> tables[j, i] == Table(j, i)
  {
    hide Xor, Down, LowByte, Table;
    var first := BuildTable();
    tables := new bv32[8, 256];
    for i := 0 to 256
      invariant forall k :: 0 <= k < 256 ==> first[k] == Table(0, k)
      invariant forall k :: 0 <= k < i ==> tables[0, k] == Table(0, k)
    {
      tables[0, i] := first[i];
    }
    for j := 1 to 8
      invariant forall l, k :: 0 <= l < j && 0 <= k < 256 ==> tables[l, k] == Table(l, k)
    {
      for i := 0 to 256
        invariant forall l, k :: 0 <= l < j && 0 <= k < 256 ==> tables[l, k] == Table(l, k)
        invariant forall k :: 0 <= k < i ==> tables[j, k] == Table(j, k)
      {
        var prev := tables[j - 1, i];
        TableRecurrence(j - 1, i);
        tables[j, i] := Xor(tables[0, LowByte(prev)], Down(prev));
      }
    }
  }

  /** The tables as built. */
  ghost predicate TablesHold(tables: array2<bv32>)
    reads tables
  {
    && tables.Length0 == 8 && tables.Length1 == 256
    && forall j, i :: 0 <= j < 8 && 0 <= i < 256 ==> tables[j, i] == Table(j, i)
  }

  /** The four lookups for the bytes of one word. */
  function LookUp(tables: array2<bv32>, x: bv32, j: nat): (r: bv32)
    requires 3 <= j < 8 && TablesHold(tables)
    reads tables
    ensures r == Lanes(x, j)
  {
    Xor(Xor(Xor(tables[j, LowByte(x)], tables[j - 1, LowByte(Down(x))]),
            tables[j - 2, LowByte(Down(Down(x)))]),
        tables[j - 3, LowByte(Down(Down(Down(x))))])
  }

  class Crc32 {
    const tables: array2<bv32>
    var state: bv32

    ghost predicate Valid()
      reads this, tables
    {
      TablesHold(tables)
    }

    constructor ()
      ensures Valid() && state == INIT
    {
      var built := BuildTables();
      tables := built;
      state := INIT;
    }

    /** The table-driven byte step. */
    method UpdateByte(b: u8)
      requires Valid()
      modifies this
      ensures Valid() && state == Fold(old(state), [b])
    {
      hide Xor, Down, LowByte, Reg, ShiftN, Table;
      ByteStep(state, b);
      state := Xor(tables[0, LowByte(Xor(state, Reg(b)))], Down(state));
    }

    /** Slice-by-8 over whole chunks, byte steps over the remainder. */
    method Update(bytes: seq<u8>)
      requires Valid()
      modifies this
      ensures Valid() && state == Fold(old(state), bytes)
    {
      hide Xor, Lanes, LeWord, Fold, Table, LookUp, TablesHold;
      var crc := state;
      var i := 0;
      FoldNothing(state);
      while i + 8 <= |bytes|
        invariant 0 <= i <= |bytes|
        invariant crc == Fold(old(state), bytes[..i])
      {
        var chunk := bytes[i..i + 8];
        SliceByEight(crc, chunk);
        FoldAppend(old(state), bytes[..i], chunk);
        assert bytes[..i] + chunk == bytes[..i + 8];
        var lo, hi := Xor(LeWord(chunk[..4]), crc), LeWord(chunk[4..]);
        crc := Xor(LookUp(tables, lo, 7), LookUp(tables, hi, 3));
        i := i + 8;
      }
      state := crc;
      while i < |bytes|
        invariant 0 <= i <= |bytes| && Valid()
        invariant state == Fold(old(state), bytes[..i])
      {
        FoldAppend(old(state), bytes[..i], [bytes[i]]);
        assert bytes[..i] + [bytes[i]] == bytes[..i + 1];
        UpdateByte(bytes[i]);
        i := i + 1;
      }
      assert bytes[..i] == bytes;
    }

    method Finalize() returns (crc: bv32)
      ensures crc == Xor(state, 0xFFFF_FFFF)
    {
      crc := Xor(state, 0xFFFF_FFFF);
    }
  }

  lemma {:induction false} FoldNothing(r: bv32)
    ensures Fold(r, []) == r
  {
  }

  lemma LowByteXorReg(r: bv32, b: u8)
    ensures Down(Xor(r, Reg(b))) == Down(r)
  {
    RegIsLow(b);
    DownIgnoresLow(r, Reg(b));
  }

  lemma DownIgnoresLow(r: bv32, x: bv32)
    requires x & 0xFFFF_FF00 == 0
    ensures Down(Xor(r, x)) == Down(r)
  {
  }

  lemma {:induction false} ByteStep(r: bv32, b: u8)
    ensures Fold(r, [b]) == Xor(Table(0, LowByte(Xor(r, Reg(b)))), Down(r))
  {
    hide Xor, Down, LowByte, Reg, Shift;
    SarwateStep(Xor(r, Reg(b)));
    LowByteXorReg(r, b);
    FoldNothing(ShiftN(Xor(r, Reg(b)), 8));
  }

  /** One-shot checksum. */
  method ComputeChecksum(bytes: seq<u8>) returns (crc: bv32)
    ensures crc == Checksum(bytes)
  {
    var h := new Crc32();
    h.Update(bytes);
    crc := h.Finalize();
  }

  // ----- detection

  /** What the register holds after a message and its own checksum. */
  const RESIDUE: bv32 := ShiftN(0xFFFF_FFFF, 32)

  /** The stored checksum matches exactly when message plus checksum leave the one
      fixed residue in the register. */
  lemma {:induction false} MatchesIffResidue(body: seq<u8>, stored: seq<u8>)
    requires |stored| == 4
    ensures LeWord(stored) == Checksum(body) <==> Fold(INIT, body + stored) == RESIDUE
  {
    hide Xor, Shift, ShiftN, LeWord, Fold;
    var r, w := Fold(INIT, body), LeWord(stored);
    FoldAppend(INIT, body, stored);
    FoldWord(r, stored);
    XorSelf(r, w);
    XorSelf(w, r);
    XorComm(r, w);
    XorSelf(w, 0xFFFF_FFFF);
    XorAssoc(r, w, w);
    if Fold(INIT, body + stored) == RESIDUE {
      ShiftNInjective(Xor(r, w), 0xFFFF_FFFF, 32);
      assert Xor(Xor(w, r), r) == Xor(0xFFFF_FFFF, r);
      XorComm(0xFFFF_FFFF, r);
    } else if w == Checksum(body) {
      XorSelf(0xFFFF_FFFF, r);
      XorComm(0xFFFF_FFFF, r);
    }
  }

  lemma XorInjective(a: bv32, b: bv32, c: bv32)
    requires Xor(a, c) == Xor(b, c)
    ensures a == b
  {
  }

  lemma {:induction false} FoldInjective(r: bv32, r': bv32, bytes: seq<u8>)
    requires Fold(r, bytes) == Fold(r', bytes)
    ensures r == r'
    decreases |bytes|
  {
    hide Xor, ShiftN, Reg;
    if bytes != [] {
      var x := Reg(bytes[0]);
      FoldInjective(ShiftN(Xor(r, x), 8), ShiftN(Xor(r', x), 8), bytes[1..]);
      ShiftNInjective(Xor(r, x), Xor(r', x), 8);
      XorInjective(r, r', x);
    }
  }

  /** Two byte strings of one length that differ, and only inside the four bytes
      from `at`. */
  ghost predicate DifferInWindow(m: seq<u8>, m': seq<u8>, at: nat) {
    && |m| == |m'| && at + 4 <= |m| && m != m'
    && m[..at] == m'[..at] && m[at + 4..] == m'[at + 4..]
  }

  /** A change confined to four consecutive bytes always changes the register. */
  lemma {:induction false} BurstChangesRegister(r: bv32, m: seq<u8>, m': seq<u8>, at: nat)
    requires DifferInWindow(m, m', at)
    ensures Fold(r, m) != Fold(r, m')
  {
    if Fold(r, m) == Fold(r, m') {
      hide Xor, Shift, ShiftN, LeWord, Fold, WordBytes;
      var pre, post := m[..at], m[at + 4..];
      var w, w' := m[at..at + 4], m'[at..at + 4];
      assert m == pre + w + post;
      assert m' == m'[..at] + w' + m'[at + 4..];
      FoldAppend(r, pre + w, post);
      FoldAppend(r, pre, w);
      FoldAppend(r, pre + w', post);
      FoldAppend(r, pre, w');
      var s := Fold(r, pre);
      FoldInjective(Fold(s, w), Fold(s, w'), post);
      FoldWord(s, w);
      FoldWord(s, w');
      ShiftNInjective(Xor(s, LeWord(w)), Xor(s, LeWord(w')), 32);
      XorComm(s, LeWord(w));
      XorComm(s, LeWord(w'));
      XorInjective(LeWord(w), LeWord(w'), s);
      LeWordBytes(w);
      LeWordBytes(w');
      assert false;
    }
  }

  /** Burst detection: if a message matches its stored checksum, no message that
      differs from the pair only within four consecutive bytes does. */
  lemma {:induction false} BurstDetected(body: seq<u8>, stored: seq<u8>, body': seq<u8>, stored': seq<u8>, at: nat)
    requires |stored| == 4 && |stored'| == 4
    requires DifferInWindow(body + stored, body' + stored', at)
    requires LeWord(stored) == Checksum(body)
    ensures LeWord(stored') != Checksum(body')
  {
    hide Fold, LeWord;
    MatchesIffResidue(body, stored);
    MatchesIffResidue(body', stored');
    BurstChangesRegister(INIT, body + stored, body' + stored', at);
  }
}
