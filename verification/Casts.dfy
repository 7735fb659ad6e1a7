// Numbers as bytes.

module Casts {
  // A number below 256 survives as a byte.
  lemma ToByte(x: int)
    requires 0 <= x < 256
    ensures (x as bv8) as int == x
  {
  }
}
