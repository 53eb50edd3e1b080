/** Bytes as integers and as bit vectors. */
module Bytes {

  lemma IntThroughByte(b: int)
    requires 0 <= b < 256
    ensures (b as bv8) as int == b
  {
  }

  lemma ByteThroughInt(b: bv8)
    ensures (b as int) as bv8 == b
  {
  }
}
