/** Octets, as the routines on packets, digests and encodings see them. */
module Bytes {
  type Byte = b: int | 0 <= b < 256
}
