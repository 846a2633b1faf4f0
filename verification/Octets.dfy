/** Bytes, as the wire and the UTF-8 code see them. */
module Octets {
  type byte = x: int | 0 <= x < 256
  type Bytes = seq<byte>
}
