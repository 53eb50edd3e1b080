/** Bit lists, least significant bit first, and their packing into bytes and integers. */
module Bits {
  import opened Words

  type Bits = seq<bool>

  function Zeros(n: nat): (r: Bits)
    ensures |r| == n
  {
    seq(n, _ => false)
  }

  function Ones(n: nat): (r: Bits)
    ensures |r| == n
  {
    seq(n, _ => true)
  }

  /** The low `k` bits of `v`. */
  function NatBits(v: nat, k: nat): (r: Bits)
    ensures |r| == k
  {
    if k == 0 then [] else [v % 2 == 1] + NatBits(v / 2, k - 1)
  }

  /** The integer with the given bits. */
  function BitsNat(s: Bits): (r: nat)
    ensures r < Pow2(|s|)
  {
    if s == [] then 0 else (if s[0] then 1 else 0) + 2 * BitsNat(s[1..])
  }

  lemma ModDouble(v: nat, p: int)
    requires p >= 1
    ensures v % (2 * p) == v % 2 + 2 * ((v / 2) % p)
  {
    var h := v / 2;
    var q, r := h / p, h % p;
    assert h == p * q + r;
    assert (2 * p) * q == 2 * (p * q);
    DivModUnique(v, 2 * p, q, 2 * r + v % 2);
  }

  lemma {:induction false} NatRoundTrip(v: nat, k: nat)
    ensures BitsNat(NatBits(v, k)) == v % Pow2(k)
  {
    if k > 0 {
      NatRoundTrip(v / 2, k - 1);
      ModDouble(v, Pow2(k - 1));
    }
  }

  lemma {:induction false} NatRoundTripBelow(v: nat, k: nat)
    requires v < Pow2(k)
    ensures BitsNat(NatBits(v, k)) == v
  {
    if k > 0 {
      NatRoundTripBelow(v / 2, k - 1);
    }
  }

  lemma {:induction false} BitsRoundTrip(s: Bits)
    ensures NatBits(BitsNat(s), |s|) == s
  {
    if s != [] {
      BitsRoundTrip(s[1..]);
    }
  }

  /** The eight bits of a byte. */
  function ByteBits(b: u8): (r: Bits)
    ensures |r| == 8
  {
    NatBits(b, 8)
  }

  function MakeByte(s: Bits): (b: u8)
    requires |s| == 8
    ensures ByteBits(b) == s
  {
    Pow2Values();
    BitsRoundTrip(s);
    BitsNat(s)
  }

  /** A byte is determined by its bits. */
  lemma ByteFromBits(a: u8, b: u8)
    requires ByteBits(a) == ByteBits(b)
    ensures a == b
  {
    Pow2Values();
    NatRoundTripBelow(a, 8);
    NatRoundTripBelow(b, 8);
  }

  /** The bit stream of a byte string: bytes in order, low bit of each byte first. */
  function BytesBits(bs: seq<u8>): (r: Bits)
    ensures |r| == 8 * |bs|
  {
    seq(8 * |bs|, i requires 0 <= i < 8 * |bs| => ByteBits(bs[i / 8])[i % 8])
  }

  lemma BytesBitsAppend(a: seq<u8>, b: seq<u8>)
    ensures BytesBits(a + b) == BytesBits(a) + BytesBits(b)
  {
    forall i | 0 <= i < 8 * (|a| + |b|)
      ensures BytesBits(a + b)[i] == (BytesBits(a) + BytesBits(b))[i]
    {
      if i >= 8 * |a| {
        assert i / 8 == |a| + (i - 8 * |a|) / 8 && i % 8 == (i - 8 * |a|) % 8;
      }
    }
  }

  lemma BytesBitsSlice(bs: seq<u8>, i: nat, j: nat)
    requires i <= j <= |bs|
    ensures BytesBits(bs)[8 * i..8 * j] == BytesBits(bs[i..j])
  {
    var a, b, c := bs[..i], bs[i..j], bs[j..];
    assert bs == a + b + c;
    BytesBitsAppend(a + b, c);
    BytesBitsAppend(a, b);
  }

  lemma SingleByteBits(bs: seq<u8>, i: nat)
    requires i < |bs|
    ensures BytesBits(bs[i..i + 1]) == ByteBits(bs[i])
  {
  }

  function BitAt(s: Bits, i: nat): bool {
    i < |s| && s[i]
  }

  /** Bits `8*i .. 8*i+8` of `s`, absent bits reading as zero. */
  function Window(s: Bits, i: nat): (w: Bits)
    ensures |w| == 8
    ensures forall j :: 0 <= j < 8 ==> w[j] == BitAt(s, 8 * i + j)
  {
    seq(8, j requires 0 <= j < 8 => BitAt(s, 8 * i + j))
  }

  function ByteAt(s: Bits, i: nat): (b: u8)
    ensures ByteBits(b) == Window(s, i)
  {
    MakeByte(Window(s, i))
  }

  /** `s` packed into whole bytes, padded with zero bits to the next byte boundary. */
  function Pack(s: Bits): (r: seq<u8>)
    ensures |r| == (|s| + 7) / 8
  {
    seq((|s| + 7) / 8, i requires 0 <= i => ByteAt(s, i))
  }

  function Padding(n: nat): nat {
    8 * ((n + 7) / 8) - n
  }

  /** Reading packed bytes back gives the bits, then fewer than eight zero bits. */
  lemma PackRoundTrip(s: Bits)
    ensures Padding(|s|) < 8
    ensures BytesBits(Pack(s)) == s + Zeros(Padding(|s|))
  {
    var t := s + Zeros(Padding(|s|));
    forall i | 0 <= i < |t|
      ensures BytesBits(Pack(s))[i] == t[i]
    {
      assert i == 8 * (i / 8) + i % 8;
      assert ByteBits(ByteAt(s, i / 8))[i % 8] == BitAt(s, i);
    }
  }

  lemma ByteAtBytesBits(bs: seq<u8>, i: nat)
    requires i < |bs|
    ensures ByteAt(BytesBits(bs), i) == bs[i]
  {
    var b := ByteAt(BytesBits(bs), i);
    forall j | 0 <= j < 8
      ensures ByteBits(b)[j] == ByteBits(bs[i])[j]
    {
      assert (8 * i + j) / 8 == i && (8 * i + j) % 8 == j;
    }
    ByteFromBits(b, bs[i]);
  }

  /** `u` one bits, then the zero terminator. */
  function Unary(u: nat): (r: Bits)
    ensures |r| == u + 1
  {
    Ones(u) + [false]
  }

  lemma {:induction false} NatBitsOnes(u: nat, k: nat)
    requires u <= k
    ensures NatBits(Pow2(u) - 1, k) == Ones(u) + Zeros(k - u)
  {
    if u == 0 {
      NatBitsZero(k);
    } else {
      var p := Pow2(u - 1);
      assert (2 * p - 1) / 2 == p - 1 && (2 * p - 1) % 2 == 1;
      NatBitsOnes(u - 1, k - 1);
    }
  }

  lemma {:induction false} NatBitsZero(k: nat)
    ensures NatBits(0, k) == Zeros(k)
  {
    if k > 0 {
      NatBitsZero(k - 1);
    }
  }
}
