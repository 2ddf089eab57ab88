/** Octets, as produced by a text encoding and consumed by Base64. */
module Bytes {
  /** One octet: an integer in [0, 256). */
  type byte = x: int | 0 <= x < 256
}
