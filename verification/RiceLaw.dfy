/** The Rice coder in plain numbers: a frame's first codewords, the adaptation at its
    limits, and a frame body worked out bit by bit. */
module RiceLaw {
  import opened Words
  import opened Bits
  import opened Results
  import opened BitReader
  import opened Rice
  import opened Pipeline
  import opened ChannelSteps
  import opened Frame
  import opened FrameTheorems
  import LmsLaw
  import Lms

  // ----- frame entry

  /** The trackers of every channel at frame entry. */
  function Fresh(bytesPerSample: nat, prime: Priming): Trackers
    requires 2 <= bytesPerSample <= 3
  {
    FrameEntry(bytesPerSample, prime).rice
  }

  /** A first residual of magnitude below 1024 is a zero and ten bits; any other is ones
      for each 1024 of its excess and one more, a zero, and ten bits. */
  lemma FirstCodeword(bytesPerSample: nat, prime: Priming, e: i32)
    requires 2 <= bytesPerSample <= 3
    ensures var v, bits := Zigzag(e), Codeword(Fresh(bytesPerSample, prime), e);
            if v < 1024 then bits == [false] + NatBits(v, 10) && |bits| == 11
            else
              && 0 <= (v - 1024) / 1024
              && bits == Ones((v - 1024) / 1024 + 1) + [false] + NatBits(v - 1024, 10)
              && |bits| == (v - 1024) / 1024 + 12
  {
    Pow2Values();
    hide NatBits, Zigzag, Pow2;
    if Zigzag(e) < 1024 {
      assert Unary(0) == [false];
    } else {
      QuotientBounds(Zigzag(e) - 1024, 1024);
    }
  }

  /** What a first codeword of `u` ones and ten bits of value `tail` reads as. */
  lemma FirstRead(bytesPerSample: nat, prime: Priming, u: nat, tail: nat, rest: Bits)
    requires 2 <= bytesPerSample <= 3 && tail < 1024
    ensures var v := if u == 0 then tail else (u - 1) * 1024 + tail + 1024;
            v < TWO32 ==>
              match ReadResidual(Fresh(bytesPerSample, prime), Ones(u) + [false] + NatBits(tail, 10) + rest)
              case None => false
              case Some((e, _, rest')) => e == Dezigzag(v) && rest' == rest
  {
    Pow2Values();
    hide NatBits, Dezigzag, Pow2, AfterLow, AfterHigh, TakeUnary, TakeBits, WrapU32;
    var s := Ones(u) + [false] + NatBits(tail, 10) + rest;
    assert s == Unary(u) + (NatBits(tail, 10) + rest);
    TakeUnaryCode(u, NatBits(tail, 10) + rest);
    TakeBitsCode(tail, 10, rest);
    SmallMod(tail, 1024);
    WrapU32Same(tail);
    var v := if u == 0 then tail else (u - 1) * 1024 + tail + 1024;
    if u > 0 && v < TWO32 {
      WrapU32Same((u - 1) * 1024);
      WrapU32Same((u - 1) * 1024 + tail);
      WrapU32Same(v);
    }
  }

  /** After a first residual 0, and after a first residual 2000, whose magnitude is 3999. */
  lemma FirstAdaptation(bytesPerSample: nat, prime: Priming)
    requires 2 <= bytesPerSample <= 3
    ensures AfterCodeword(Fresh(bytesPerSample, prime), 0) == Trackers(9, 10, 15360, 16384)
    ensures AfterCodeword(Fresh(bytesPerSample, prime), 2000) == Trackers(10, 10, 19359, 18335)
  {
    Pow2Values();
    ZigzagInside(0);
    ZigzagInside(2000);
    hide Pow2, Zigzag;
  }

  // ----- a codeword of any trackers, from any stream

  /** An escape of `u` ones adds up `(u - 1) * 2^k1`, the tail and `2^k0`, modulo 2^32,
      however long it is. */
  lemma EscapeRead(t: Trackers, u: nat, tail: nat, rest: Bits)
    requires t.Valid() && u >= 1 && tail < Pow2(t.k1)
    ensures match ReadResidual(t, Unary(u) + NatBits(tail, t.k1) + rest)
            case None => false
            case Some((e, _, rest')) =>
              && rest' == rest
              && e == Dezigzag(((u - 1) * Pow2(t.k1) + tail + Pow2(t.k0)) % TWO32)
  {
    hide NatBits, Unary, Dezigzag, Pow2, AfterLow, AfterHigh, TakeUnary, TakeBits;
    assert Unary(u) + NatBits(tail, t.k1) + rest == Unary(u) + (NatBits(tail, t.k1) + rest);
    TakeUnaryCode(u, NatBits(tail, t.k1) + rest);
    TakeBitsCode(tail, t.k1, rest);
    SmallMod(tail, Pow2(t.k1));
    WrapsAddUp((u - 1) * Pow2(t.k1), tail, Pow2(t.k0));
  }

  lemma WrapsAddUp(x: int, y: int, z: int)
    ensures WrapU32(WrapU32(WrapU32(x) + y) + z) == (x + y + z) % TWO32
  {
  }

  // ----- the adaptation at its limits

  /** Without wrap-around the sum loses a sixteenth and gains the magnitude; with it, the
      same modulo 2^32. */
  lemma FeedbackLaw(sum: u32, value: u32)
    ensures (Feedback(sum, value) - (sum + value - sum / 16)) % TWO32 == 0
  {
    hide WrapU32;
    var inner: int := sum + value;
    var outer: int := WrapU32(inner) - sum / 16;
    assert (WrapU32(inner) - inner) % TWO32 == 0 && (WrapU32(outer) - outer) % TWO32 == 0;
  }

  /** Near the top the thresholds stand still at 2^31: a larger sum moves `k` up to 31 and
      no further, a smaller one moves it down. */
  lemma TopOfTheScale(k: nat, sum: u32)
    requires 27 <= k <= 31
    ensures sum > TWO31 ==> AdaptK(k, sum) == if k < 31 then k + 1 else 31
    ensures sum < TWO31 ==> AdaptK(k, sum) == k - 1
    ensures sum == TWO31 ==> AdaptK(k, sum) == k
  {
  }

  /** At zero it moves up above 32 and never down. */
  lemma BottomOfTheScale(sum: u32)
    ensures AdaptK(0, sum) == if sum > 32 then 1 else 0
  {
    Pow2Values();
    hide Pow2;
  }

  // ----- a frame body

  /** The bytes 0xF7, 0x39: three ones, a zero, and the ten bits of 927. */
  lemma TwoBytes()
    ensures BytesBits([0xF7, 0x39]) == Ones(3) + [false] + NatBits(927, 10) + [false, false]
  {
    hide BytesBits, ByteBits, NatBits;
    SevenF();
    ThreeNine();
    NineTwoSeven();
    TwoByteBits(0xF7, 0x39);
  }

  lemma TwoByteBits(a: u8, b: u8)
    ensures BytesBits([a, b]) == ByteBits(a) + ByteBits(b)
  {
    hide ByteBits;
    assert [a, b] == [a] + [b];
    BytesBitsAppend([a], [b]);
    assert [a][0..1] == [a] && [b][0..1] == [b];
    SingleByteBits([a], 0);
    SingleByteBits([b], 0);
  }

  lemma SevenF()
    ensures ByteBits(0xF7) == [true, true, true, false, true, true, true, true]
  {
    hide NatBits;
    LowBit(247, 8, true, 123);
    LowBit(123, 7, true, 61);
    LowBit(61, 6, true, 30);
    LowBit(30, 5, false, 15);
    LowBit(15, 4, true, 7);
    LowBit(7, 3, true, 3);
    LowBit(3, 2, true, 1);
    LowBit(1, 1, true, 0);
    NoBits();
  }

  lemma ThreeNine()
    ensures ByteBits(0x39) == [true, false, false, true, true, true, false, false]
  {
    hide NatBits;
    LowBit(57, 8, true, 28);
    LowBit(28, 7, false, 14);
    LowBit(14, 6, false, 7);
    LowBit(7, 5, true, 3);
    LowBit(3, 4, true, 1);
    LowBit(1, 3, true, 0);
    LowBit(0, 2, false, 0);
    LowBit(0, 1, false, 0);
    NoBits();
  }

  lemma NoBits()
    ensures NatBits(0, 0) == []
  {
  }

  lemma LowBit(v: nat, k: nat, b: bool, half: nat)
    requires k > 0 && v == 2 * half + if b then 1 else 0
    ensures NatBits(v, k) == [b] + NatBits(half, k - 1)
  {
    assert v / 2 == half && v % 2 == (if b then 1 else 0);
  }

  lemma NineTwoSeven()
    ensures NatBits(927, 10) == [true, true, true, true, true, false, false, true, true, true]
  {
    hide NatBits;
    LowBit(927, 10, true, 463);
    LowBit(463, 9, true, 231);
    LowBit(231, 8, true, 115);
    LowBit(115, 7, true, 57);
    LowBit(57, 6, true, 28);
    LowBit(28, 5, false, 14);
    LowBit(14, 4, false, 7);
    LowBit(7, 3, true, 3);
    LowBit(3, 2, true, 1);
    LowBit(1, 1, true, 0);
    NoBits();
  }

  /** The magnitude is 2 * 1024 + 927 + 1024 = 3999, the residual 2000, and so is the first
      sample of the frame. */
  lemma TwoByteBody()
    ensures BodySamples([0xF7, 0x39], 1, 2, None, 1) == Some([2000])
  {
    hide ReadResiduals, FrameSamples, BodySamples, BytesBits, InitialTrackings;
    BodyLayers([0xF7, 0x39], 1, 2, None, 1);
    TwoByteRead();
    OneSample(2000);
  }

  lemma TwoByteRead()
    ensures match ReadResiduals(InitialTrackings(1), BytesBits([0xF7, 0x39]), 1)
            case None => false
            case Some((es, _, _)) => es == [2000]
  {
    hide ReadResidual, ReadResiduals, BytesBits, Dezigzag, NatBits, Fresh;
    TwoBytes();
    FirstRead(2, None, 3, 927, [false, false]);
    DezigzagInside(3999);
    OneRead(BytesBits([0xF7, 0x39]), 2000, [false, false]);
  }

  lemma OneRead(s: Bits, e: i32, rest: Bits)
    requires match ReadResidual(Fresh(2, None), s) case None => false case Some((x, _, r)) => x == e && r == rest
    ensures match ReadResiduals(InitialTrackings(1), s, 1)
            case None => false
            case Some((es, _, _)) => es == [e]
  {
    hide ReadResidual;
    assert InitialTrackings(1)[0] == Fresh(2, None);
    var (_, t, s1) := ReadResidual(Fresh(2, None), s).value;
    assert ReadResiduals(Turn(InitialTrackings(1), t), s1, 0).Some?;
  }

  lemma OneSample(e: i32)
    ensures FrameSamples([e], 1, 2, None) == [e]
  {
    LmsLaw.SameEntry();
    LmsLaw.FirstStep(LmsLaw.QUIET, e);
    hide Rebuild, FrameSamples, FrameEntry, LmsLaw.Entry, Lms.Advance, Lms.Reconstruct, Restore;
    LmsLaw.MonoFrame([e], None);
    var p := FrameEntry(2, None).predictor;
    LmsLaw.RestoreStep(p, e, e, 0, Lms.Advance(p.lms, e, e));
    assert [e] == [e] + [];
    LmsLaw.RebuildOne(p, e, []);
    LmsLaw.RebuildNone(Restore(p, e).1);
  }
}
