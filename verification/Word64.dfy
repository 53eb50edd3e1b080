/** The 64-bit bit cache shared by the reader and the writer, as its 64 bits,
    least significant first, with the `u64` operations both sides apply to it. */
module Word64 {
  import opened Bits

  type Word = w: seq<bool> | |w| == 64 witness seq(64, _ => false)

  const ZERO: Word := Zeros(64)

  /** A value of at most 64 bits, zero-extended. */
  function Extend(s: Bits): Word
    requires |s| <= 64
  {
    s + Zeros(64 - |s|)
  }

  /** `w << n`: bits shifted past position 63 are lost. */
  function Shl(w: Word, n: nat): Word {
    seq(64, i requires 0 <= i < 64 => n <= i && w[i - n])
  }

  /** `w >> n`: zeros enter at the top. */
  function Shr(w: Word, n: nat): Word {
    seq(64, i requires 0 <= i < 64 => i + n < 64 && w[i + n])
  }

  /** `a | b`. */
  function Or(a: Word, b: Word): Word {
    seq(64, i requires 0 <= i < 64 => a[i] || b[i])
  }

  /** The number of one bits before the lowest zero bit (64 when there is none). */
  function TrailingOnes(w: Word): (n: nat)
    ensures n <= 64
    ensures forall i :: 0 <= i < n ==> w[i]
    ensures n < 64 ==> !w[n]
  {
    OnesFrom(w, 0)
  }

  function OnesFrom(w: Word, i: nat): (n: nat)
    requires i <= 64
    ensures i <= n <= 64
    ensures forall j :: i <= j < n ==> w[j]
    ensures n < 64 ==> !w[n]
    decreases 64 - i
  {
    if i == 64 || !w[i] then i else OnesFrom(w, i + 1)
  }
}
