/** Weight priming from a password (src/password.rs): bit-serial CRC-64 of ECMA-182,
    its eight bytes read as signed lanes. */
module Password {
  import opened Words
  import opened Bytes
  import Lms
  import opened LmsInvariants
  import opened Format

  const POLY64: bv64 := 0x42F0_E1EB_A9EA_3693
  const ALL_ONES: bv64 := 0xFFFF_FFFF_FFFF_FFFF

  function ShiftLeft(x: bv64): bv64 {
    if x & 0x8000_0000_0000_0000 != 0 then (x << 1) ^ POLY64 else x << 1
  }

  function ShiftLeftN(x: bv64, n: nat): bv64 {
    if n == 0 then x else ShiftLeft(ShiftLeftN(x, n - 1))
  }

  /** A byte enters the high end of the register. */
  function Enter(crc: bv64, b: u8): bv64 {
    crc ^ (((b as bv8) as bv64) << 56)
  }

  function Digest(crc: bv64, data: seq<u8>): bv64
    decreases |data|
  {
    if data == [] then crc else Digest(ShiftLeftN(Enter(crc, data[0]), 8), data[1..])
  }

  /** `crc64_ecma182`. */
  method Crc64(data: seq<u8>) returns (crc: bv64)
    ensures crc == Digest(ALL_ONES, data) ^ ALL_ONES
  {
    hide ShiftLeft, Enter;
    crc := ALL_ONES;
    assert data[0..] == data;
    for i := 0 to |data|
      invariant Digest(crc, data[i..]) == Digest(ALL_ONES, data)
    {
      ghost var c := Enter(crc, data[i]);
      crc := Enter(crc, data[i]);
      for j := 0 to 8
        invariant crc == ShiftLeftN(c, j)
      {
        crc := ShiftLeft(crc);
      }
      assert data[i..][1..] == data[i + 1..];
    }
    assert data[|data|..] == [];
    crc := crc ^ ALL_ONES;
  }

  /** Byte `i` of the digest, low byte first. */
  function LaneByte(digest: bv64, i: nat): bv8
    requires i < 8
  {
    match i
    case 0 => (digest & 0xFF) as bv8
    case 1 => ((digest >> 8) & 0xFF) as bv8
    case 2 => ((digest >> 16) & 0xFF) as bv8
    case 3 => ((digest >> 24) & 0xFF) as bv8
    case 4 => ((digest >> 32) & 0xFF) as bv8
    case 5 => ((digest >> 40) & 0xFF) as bv8
    case 6 => ((digest >> 48) & 0xFF) as bv8
    case _ => ((digest >> 56) & 0xFF) as bv8
  }

  /** `u8 as i8 as i32`. */
  function SignExtend(b: bv8): (x: i32)
    ensures -128 <= x < 128
  {
    ByteThroughInt(b);
    if (b as int) < 128 then b as int else b as int - 256
  }

  function Lanes(digest: bv64): Lms.Taps {
    seq(8, i requires 0 <= i < 8 => SignExtend(LaneByte(digest, i)))
  }

  /** The priming a password stands for. */
  function Priming(password: seq<u8>): Lms.Taps {
    Lanes(Digest(ALL_ONES, password) ^ ALL_ONES)
  }

  /** `derive_qm_priming`. */
  method DeriveQmPriming(password: seq<u8>) returns (lanes: Lms.Taps)
    ensures lanes == Priming(password)
  {
    hide LaneByte, SignExtend, Digest;
    var digest := Crc64(password);
    var out := new i32[8](_ => 0);
    for i := 0 to 8
      invariant forall j :: 0 <= j < i ==> out[j] == SignExtend(LaneByte(digest, j))
    {
      out[i] := SignExtend(LaneByte(digest, i));
    }
    lanes := out[..];
    assert lanes == Lanes(digest);
  }

  /** With any password or none, for any frame length the geometry allows, the weight
      update is exact integer arithmetic at every step of a frame. */
  lemma {:induction false} FrameWeightsNeverWrap(h: StreamHeader, password: seq<u8>, steps: seq<Step>)
    requires h.InScope() && |steps| <= h.RegularFrameSamples()
    ensures AdaptsExactly(After(Lms.FrameInit(h.BytesPerSample(), Priming(password)), steps))
    ensures AdaptsExactly(After(Lms.FrameInit(h.BytesPerSample(), Lms.NO_TAPS), steps))
  {
    hide LaneByte, SignExtend, Digest, After, AdaptsExactly;
    var shift := Lms.LMS_SHIFT[h.BytesPerSample() - 1];
    WeightsNeverWrap(Priming(password), shift, steps);
    WeightsNeverWrap(Lms.NO_TAPS, shift, steps);
  }

  /** The empty password primes like no password at all. */
  lemma EmptyPasswordPrimesNothing()
    ensures Priming([]) == Lms.NO_TAPS
  {
    ZeroDigest();
    hide LaneByte, Digest;
    LanesOfZero();
    assert Priming([]) == Lanes(0);
  }

  lemma ZeroDigest()
    ensures Digest(ALL_ONES, []) ^ ALL_ONES == 0
  {
  }

  lemma LanesOfZero()
    ensures Lanes(0) == Lms.NO_TAPS
  {
    forall i: nat | i < 8
      ensures SignExtend(LaneByte(0, i)) == 0
    {
      ZeroByte(i);
    }
  }

  lemma ZeroByte(i: nat)
    requires i < 8
    ensures LaneByte(0, i) == 0
  {
  }
}
