/** Bytes as the `uint8_t` values written to ports. */
module Bytes {
  /** A number below 256 survives conversion to a byte. */
  lemma ByteRoundTrip(x: int)
    requires 0 <= x < 256
    ensures (x as bv8) as int == x
  {
  }
}

