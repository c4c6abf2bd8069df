/** Bytes as 8-bit bit-vectors, and their conversion from integer values. */
module Bytes {
  type byte = bv8

  /** A value below 256 survives the conversion to a byte and back. */
  lemma ByteValue(n: int)
    requires 0 <= n < 256
    ensures (n as byte) as int == n
  {
  }
}
