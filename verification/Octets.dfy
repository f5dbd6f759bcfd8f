/** Small integers as bit vectors. */
module Octets {
  lemma ReturnsFromBits(b: int)
    requires 0 <= b < 256
    ensures (b as bv8) as int == b
  {
  }
}
