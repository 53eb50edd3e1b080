/** LSB-first reader of a frame body behind a 64-bit cache (src/bitreader.rs). */
module BitReader {
  import opened Words
  import opened Bits
  import opened Word64
  import opened Results

  /** What a reader over a plain bit list returns for a `k`-bit read: the value
      and the bits left, or nothing when fewer than `k` bits remain. */
  function TakeBits(s: Bits, k: nat): Option<(nat, Bits)> {
    if k <= |s| then Some((BitsNat(s[..k]), s[k..])) else None
  }

  /** The plain bit-list meaning of a unary read: ones counted up to the
      terminating zero, nothing when no zero is left. */
  function TakeUnary(s: Bits): Option<(nat, Bits)> {
    if s == [] then None
    else if !s[0] then Some((0, s[1..]))
    else
      match TakeUnary(s[1..])
      case None => None
      case Some((u, rest)) => Some((u + 1, rest))
  }

  lemma {:induction false} TakeUnaryOnes(s: Bits, n: nat)
    requires n <= |s|
    requires forall i :: 0 <= i < n ==> s[i]
    ensures TakeUnary(s) ==
            match TakeUnary(s[n..])
            case None => None
            case Some((u, rest)) => Some((n + u, rest))
  {
    if n == 0 {
      assert s[0..] == s;
    } else {
      TakeUnaryOnes(s[1..], n - 1);
      assert s[1..][n - 1..] == s[n..];
    }
  }

  /** Reading back what the writer's unary code emits. */
  lemma {:induction false} TakeUnaryCode(u: nat, rest: Bits)
    ensures TakeUnary(Unary(u) + rest) == Some((u, rest))
  {
    var s := Unary(u) + rest;
    TakeUnaryOnes(s, u);
    assert s[u..] == [false] + rest;
  }

  lemma {:induction false} TakeBitsCode(v: nat, k: nat, rest: Bits)
    ensures TakeBits(NatBits(v, k) + rest, k) == Some((v % Pow2(k), rest))
  {
    var s := NatBits(v, k) + rest;
    assert s[..k] == NatBits(v, k) && s[k..] == rest;
    NatRoundTrip(v, k);
  }

  /** A successful unary read of value `u` consumes exactly `u + 1` bits. */
  lemma {:induction false} TakeUnaryLength(s: Bits)
    ensures match TakeUnary(s)
            case None => true
            case Some((u, rest)) => |s| == u + 1 + |rest|
  {
    if s != [] && s[0] {
      TakeUnaryLength(s[1..]);
    }
  }

  /** The cache invariant, for a cache with `n` valid bits in front of the unread
      stream `s`: below `n` the cache holds the next stream bits; at or above `n` a
      set bit is a stale duplicate of the stream bit due at that position. */
  ghost predicate Agrees(cache: Word, n: nat, s: Bits) {
    && n <= 64
    && n <= |s|
    && (forall i :: 0 <= i < 64 && cache[i] ==> BitAt(s, i))
    && (forall i :: 0 <= i < n ==> cache[i] == BitAt(s, i))
  }

  /** OR-ing in the chunk of stream that starts at the first invalid position
      validates any number of its bits, stale duplicates included. */
  lemma LoadAgrees(cache: Word, n: nat, s: Bits, chunk: Bits, m: nat)
    requires Agrees(cache, n, s)
    requires |chunk| <= 64 && n + |chunk| <= |s| && s[n..n + |chunk|] == chunk
    requires n <= m <= 63 && m <= n + |chunk|
    ensures Agrees(Or(cache, Shl(Extend(chunk), n)), m, s)
  {
    var c := Or(cache, Shl(Extend(chunk), n));
    forall i | 0 <= i < 64
      ensures c[i] ==> BitAt(s, i)
      ensures i < m ==> c[i] == BitAt(s, i)
    {
      if n <= i < n + |chunk| {
        assert chunk[i - n] == s[n..n + |chunk|][i - n] == s[i];
      }
    }
  }

  lemma DropAgrees(cache: Word, n: nat, s: Bits, k: nat)
    requires Agrees(cache, n, s)
    requires k <= n
    ensures Agrees(Shr(cache, k), n - k, s[k..])
  {
  }

  /** The unread bits of a body read up to byte `pos` with `n` bits still cached. */
  ghost function Unread(body: seq<u8>, pos: nat, n: nat): Bits
    requires pos <= |body| && n <= 8 * pos
  {
    BytesBits(body)[8 * pos - n..]
  }

  /** A reader state is sound when its cache agrees with the unread bits. */
  ghost predicate Sound(body: seq<u8>, pos: nat, cache: Word, n: nat) {
    pos <= |body| && n <= 63 && n <= 8 * pos && Agrees(cache, n, Unread(body, pos, n))
  }

  /** The bytes that fit whole above `n` cached bits fill the cache to `56 + n % 8`. */
  lemma WholeBytes(n: nat)
    requires n < 56
    ensures n + 8 * ((63 - n) / 8) == 56 + n % 8
  {
  }

  /** The bulk refill: eight bytes are OR-ed in, but `pos` advances only past the
      bytes that fit whole. */
  lemma LoadWord(body: seq<u8>, pos: nat, cache: Word, n: nat)
    requires Sound(body, pos, cache, n)
    requires n < 56 && pos + 8 <= |body|
    ensures var pos', n' := pos + (63 - n) / 8, 56 + n % 8;
            && Sound(body, pos', Or(cache, Shl(Extend(BytesBits(body[pos..pos + 8])), n)), n')
            && Unread(body, pos', n') == Unread(body, pos, n)
  {
    hide BytesBits, Agrees, Or, Shl, Extend;
    var s, chunk, n' := Unread(body, pos, n), BytesBits(body[pos..pos + 8]), 56 + n % 8;
    BytesBitsSlice(body, pos, pos + 8);
    assert s[n..n + 64] == chunk;
    WholeBytes(n);
    LoadAgrees(cache, n, s, chunk, n');
  }

  /** The tail refill: one byte at a time. */
  lemma LoadByte(body: seq<u8>, pos: nat, cache: Word, n: nat)
    requires Sound(body, pos, cache, n)
    requires n < 56 && pos < |body|
    ensures Sound(body, pos + 1, Or(cache, Shl(Extend(ByteBits(body[pos])), n)), n + 8)
    ensures Unread(body, pos + 1, n + 8) == Unread(body, pos, n)
  {
    hide Agrees, Or, Shl, Extend, ByteBits;
    var s, chunk := Unread(body, pos, n), ByteBits(body[pos]);
    BytesBitsSlice(body, pos, pos + 1);
    SingleByteBits(body, pos);
    assert s[n..n + 8] == chunk;
    LoadAgrees(cache, n, s, chunk, n + 8);
  }

  /** Consuming `k` valid bits: they are the next `k` bits of the stream. */
  lemma Drop(body: seq<u8>, pos: nat, cache: Word, n: nat, k: nat)
    requires Sound(body, pos, cache, n)
    requires k <= n
    ensures Sound(body, pos, Shr(cache, k), n - k)
    ensures Unread(body, pos, n - k) == Unread(body, pos, n)[k..]
    ensures cache[..k] == Unread(body, pos, n)[..k]
  {
    var s := Unread(body, pos, n);
    DropAgrees(cache, n, s, k);
    assert Unread(body, pos, n - k) == s[k..];
  }

  lemma SoundAgrees(body: seq<u8>, pos: nat, cache: Word, n: nat)
    requires Sound(body, pos, cache, n)
    ensures pos <= |body| && n <= 63 && n <= 8 * pos && Agrees(cache, n, Unread(body, pos, n))
  {
  }

  /** Emptying the cache consumes all its valid bits. */
  lemma DropAll(body: seq<u8>, pos: nat, cache: Word, n: nat)
    requires Sound(body, pos, cache, n)
    ensures Sound(body, pos, ZERO, 0)
    ensures Unread(body, pos, 0) == Unread(body, pos, n)[n..]
  {
  }

  lemma {:induction false} BitsNatWord(s: Bits)
    requires |s| <= 32
    ensures BitsNat(s) < TWO32
  {
    Pow2Mono(|s|, 32);
    Pow2Values();
  }

  /** `s` starts with `count` ones, followed by `rest`. */
  ghost predicate OnesThen(s: Bits, count: nat, rest: Bits) {
    count <= |s| && rest == s[count..] && forall i :: 0 <= i < count ==> s[i]
  }

  lemma StartOfRun(s: Bits)
    ensures OnesThen(s, 0, s)
  {
  }

  lemma {:induction false} UnaryExhausted(s: Bits, count: nat)
    requires OnesThen(s, count, [])
    ensures TakeUnary(s) == None
  {
    TakeUnaryOnes(s, count);
  }

  /** A run of valid cached ones extends the run counted so far; a valid cached
      zero after it ends the unary code. */
  lemma {:induction false} CachedOnes(s: Bits, count: nat, rest: Bits, cache: Word, n: nat, ones: nat)
    requires OnesThen(s, count, rest) && Agrees(cache, n, rest)
    requires ones <= n && forall i :: 0 <= i < ones ==> cache[i]
    ensures ones <= |rest| && OnesThen(s, count + ones, rest[ones..])
    ensures ones < n && !cache[ones] ==>
              ones < |rest| && TakeUnary(s) == Some((count + ones, rest[ones + 1..]))
  {
    forall i | count <= i < count + ones
      ensures s[i]
    {
      assert cache[i - count] == BitAt(rest, i - count);
    }
    if ones < n && !cache[ones] {
      assert cache[ones] == BitAt(rest, ones);
      TakeUnaryOnes(s, count + ones);
      assert s[count + ones..] == [s[count + ones]] + rest[ones + 1..];
    }
  }

  class BitReader {
    const body: seq<u8>
    var pos: nat
    var bcache: Word
    var bcount: nat

    ghost predicate Valid()
      reads this
    {
      Sound(body, pos, bcache, bcount)
    }

    /** The unread bits of the body. */
    ghost function Rest(): Bits
      reads this
      requires Valid()
    {
      Unread(body, pos, bcount)
    }

    constructor (body: seq<u8>)
      ensures Valid() && this.body == body
      ensures Rest() == BytesBits(body)
    {
      this.body := body;
      pos := 0;
      bcache := ZERO;
      bcount := 0;
    }

    /** Tops the cache up to at least 56 valid bits, or to the end of the body. */
    method Refill()
      requires Valid()
      modifies this
      ensures Valid() && Rest() == old(Rest())
      ensures bcount >= old(bcount)
      ensures bcount >= 56 || bcount == |Rest()|
    {
      hide Agrees, BytesBits, Or, Shl, Extend, ByteBits;
      if bcount >= 56 {
        return;
      }
      if pos + 8 <= |body| {
        LoadWord(body, pos, bcache, bcount);
        bcache := Or(bcache, Shl(Extend(BytesBits(body[pos..pos + 8])), bcount));
        pos := pos + (63 - bcount) / 8;
        // `bcount |= 56`, for a bcount below 64
        bcount := 56 + bcount % 8;
      } else {
        while bcount < 56 && pos < |body|
          invariant Valid() && Rest() == old(Rest())
          invariant bcount >= old(bcount)
        {
          LoadByte(body, pos, bcache, bcount);
          bcache := Or(bcache, Shl(Extend(ByteBits(body[pos])), bcount));
          pos := pos + 1;
          bcount := bcount + 8;
        }
      }
    }

    /** Reads `k` bits, low bit first; fails when fewer than `k` are left. */
    method ReadBits(k: nat) returns (r: Result<u32>)
      requires Valid() && k <= 32
      modifies this
      ensures Valid()
      ensures match TakeBits(old(Rest()), k)
              case None => r == Err(Truncated)
              case Some((v, rest)) => r == Ok(v) && Rest() == rest
    {
      hide Agrees, BytesBits, Shr, BitsNat;
      if k == 0 {
        return Ok(0);
      }
      if bcount < k {
        Refill();
        if bcount < k {
          return Err(Truncated);
        }
      }
      Drop(body, pos, bcache, bcount, k);
      BitsNatWord(bcache[..k]);
      var v := BitsNat(bcache[..k]);
      bcache := Shr(bcache, k);
      bcount := bcount - k;
      r := Ok(v);
    }

    /** Counts the one bits before the next zero bit and consumes both; fails when
        the stream ends first. */
    method ReadUnary() returns (r: Result<nat>)
      requires Valid()
      modifies this
      ensures Valid()
      ensures match TakeUnary(old(Rest()))
              case None => r == Err(Truncated)
              case Some((u, rest)) => r == Ok(u) && Rest() == rest
    {
      hide Agrees, BytesBits, Shr, TakeUnary, OnesThen, Unread, TrailingOnes, Zeros, Sound;
      var count: nat := 0;
      ghost var start := Rest();
      assert OnesThen(start, 0, start) by { StartOfRun(start); }
      while true
        invariant Valid()
        invariant OnesThen(start, count, Rest())
        decreases |Rest()|
      {
        if bcount == 0 {
          Refill();
          if bcount == 0 {
            assert Rest() == [];
            UnaryExhausted(start, count);
            return Err(Truncated);
          }
        }
        var t := TrailingOnes(bcache);
        var ones := if t < bcount then t else bcount;
        SoundAgrees(body, pos, bcache, bcount);
        DropAll(body, pos, bcache, bcount);
        CachedOnes(start, count, Rest(), bcache, bcount, ones);
        if ones < bcount {
          Drop(body, pos, bcache, bcount, ones + 1);
          count := count + ones;
          bcache := Shr(bcache, ones + 1);
          bcount := bcount - (ones + 1);
          return Ok(count);
        }
        count := count + bcount;
        bcache := ZERO;
        bcount := 0;
      }
    }
  }
}
