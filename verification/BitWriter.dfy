/** LSB-first bit writer of the entropy encoder (src/encoder.rs, `BitWriter`). */
module BitWriter {
  import opened Words
  import opened Bits
  import opened Word64

  /** A writer state: fewer than 32 pending bits, and nothing set above them. */
  ghost predicate Pending(cache: Word, n: nat) {
    n < 64 && forall i :: n <= i < 64 ==> !cache[i]
  }

  /** The bits put so far. */
  ghost function Written(bytes: seq<u8>, cache: Word, n: nat): Bits
    requires n <= 64
  {
    BytesBits(bytes) + cache[..n]
  }

  /** OR-ing a chunk in at the first free position appends it. */
  lemma PutChunk(bytes: seq<u8>, cache: Word, n: nat, chunk: Bits)
    requires Pending(cache, n) && n + |chunk| < 64
    ensures var c := Or(cache, Shl(Extend(chunk), n));
            && Pending(c, n + |chunk|)
            && Written(bytes, c, n + |chunk|) == Written(bytes, cache, n) + chunk
  {
    var c := Or(cache, Shl(Extend(chunk), n));
    assert c[..n + |chunk|] == cache[..n] + chunk;
  }

  /** The four-byte flush moves the low half of the cache into the output. */
  lemma Flush(bytes: seq<u8>, cache: Word, n: nat)
    requires Pending(cache, n) && 32 <= n
    ensures Pending(Shr(cache, 32), n - 32)
    ensures Written(bytes + Pack(cache[..32]), Shr(cache, 32), n - 32) == Written(bytes, cache, n)
  {
    hide BytesBits, Pack;
    BytesBitsAppend(bytes, Pack(cache[..32]));
    PackRoundTrip(cache[..32]);
    assert cache[..32] + Zeros(0) == cache[..32];
    assert Shr(cache, 32)[..n - 32] == cache[32..n];
    assert cache[..n] == cache[..32] + cache[32..n];
  }

  /** One packed byte behind whole bytes. */
  lemma ByteAfterBytes(bytes: seq<u8>, tail: Bits, i: nat)
    ensures ByteAt(BytesBits(bytes) + tail, i) == if i < |bytes| then bytes[i] else ByteAt(tail, i - |bytes|)
  {
    hide BytesBits, MakeByte;
    var s := BytesBits(bytes) + tail;
    if i < |bytes| {
      ByteAtBytesBits(bytes, i);
      assert Window(s, i) == Window(BytesBits(bytes), i);
    } else {
      assert Window(s, i) == Window(tail, i - |bytes|);
    }
  }

  /** Packing is byte-wise: whole bytes already written stay as they are. */
  lemma PackAfterBytes(bytes: seq<u8>, tail: Bits)
    ensures Pack(BytesBits(bytes) + tail) == bytes + Pack(tail)
  {
    hide BytesBits, ByteAt;
    var s := BytesBits(bytes) + tail;
    assert (8 * |bytes| + |tail| + 7) / 8 == |bytes| + (|tail| + 7) / 8;
    forall i | 0 <= i < |Pack(s)|
      ensures Pack(s)[i] == (bytes + Pack(tail))[i]
    {
      ByteAfterBytes(bytes, tail, i);
    }
  }

  /** The byte flush of the final padding loop. */
  lemma FlushByte(bytes: seq<u8>, cache: Word, n: nat)
    requires Pending(cache, n) && 0 < n
    ensures var n' := if n < 8 then 0 else n - 8;
            && Pending(Shr(cache, 8), n')
            && Pack(cache[..n]) == [MakeByte(cache[..8])] + Pack(Shr(cache, 8)[..n'])
  {
    hide MakeByte;
    var n' := if n < 8 then 0 else n - 8;
    var t, rest := cache[..n], Shr(cache, 8)[..n'];
    assert |Pack(t)| == 1 + |Pack(rest)|;
    assert Window(t, 0) == cache[..8];
    forall i | 0 < i < |Pack(t)|
      ensures Pack(t)[i] == Pack(rest)[i - 1]
    {
      assert Window(t, i) == Window(rest, i - 1);
    }
  }

  class BitWriter {
    var bytes: seq<u8>
    var cache: Word
    var nbits: nat

    ghost predicate Valid()
      reads this
    {
      nbits < 32 && Pending(cache, nbits)
    }

    /** The bits put so far. */
    ghost function Contents(): Bits
      reads this
      requires Valid()
    {
      Written(bytes, cache, nbits)
    }

    constructor ()
      ensures Valid() && Contents() == []
    {
      bytes := [];
      cache := ZERO;
      nbits := 0;
    }

    /** Appends the low `k` bits of `value`. */
    method PutBits(value: u32, k: nat)
      requires Valid() && k <= 32
      modifies this
      ensures Valid() && Contents() == old(Contents()) + NatBits(value, k)
    {
      hide Pending, Written, Shl, Shr, Or, Extend, NatBits, Pack;
      if k == 0 {
        assert NatBits(value, 0) == [];
        return;
      }
      PutChunk(bytes, cache, nbits, NatBits(value, k));
      cache := Or(cache, Shl(Extend(NatBits(value, k)), nbits));
      nbits := nbits + k;
      if nbits >= 32 {
        Flush(bytes, cache, nbits);
        bytes := bytes + Pack(cache[..32]);
        cache := Shr(cache, 32);
        nbits := nbits - 32;
      }
    }

    /** Appends `u` one bits and the zero terminator. */
    method PutUnary(u: u32)
      requires Valid()
      modifies this
      ensures Valid() && Contents() == old(Contents()) + Unary(u)
    {
      hide Pending, Written, NatBits, Pow2;
      if u < 32 {
        UnaryWord(u);
        PutBits(Pow2(u) - 1, u + 1);
        return;
      }
      var remaining := u;
      while remaining >= 32
        invariant Valid() && 0 <= remaining <= u
        invariant Contents() == old(Contents()) + Ones(u - remaining)
      {
        OnesWord();
        assert Ones(u - remaining) + Ones(32) == Ones(u - (remaining - 32));
        PutBits(TWO32 - 1, 32);
        remaining := remaining - 32;
      }
      UnaryWord(remaining);
      assert Ones(u - remaining) + Unary(remaining) == Unary(u);
      PutBits(Pow2(remaining) - 1, remaining + 1);
    }

    /** Pads with zero bits to a byte boundary and returns the bytes. */
    method FinishByteAligned() returns (r: seq<u8>)
      requires Valid()
      modifies this
      ensures r == Pack(old(Contents()))
    {
      hide Pending, Shr, Pack, MakeByte;
      PackAfterBytes(bytes, cache[..nbits]);
      ghost var all := Pack(Contents());
      while nbits > 0
        invariant nbits < 32 && Pending(cache, nbits)
        invariant all == bytes + Pack(cache[..nbits])
      {
        FlushByte(bytes, cache, nbits);
        bytes := bytes + [MakeByte(cache[..8])];
        cache := Shr(cache, 8);
        nbits := if nbits < 8 then 0 else nbits - 8;
      }
      PackNothing();
      r := bytes;
    }
  }

  lemma PackNothing()
    ensures Pack([]) == []
  {
  }

  /** `(1 << u) - 1` over `u + 1` bits is the unary code of `u`. */
  lemma {:induction false} UnaryWord(u: nat)
    requires u < 32
    ensures Pow2(u) - 1 < TWO32
    ensures NatBits(Pow2(u) - 1, u + 1) == Unary(u)
  {
    NatBitsOnes(u, u + 1);
    Pow2Mono(u, 32);
    Pow2Values();
  }

  lemma OnesWord()
    ensures NatBits(TWO32 - 1, 32) == Ones(32)
  {
    NatBitsOnes(32, 32);
    Pow2Values();
  }
}
