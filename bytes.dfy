/** Octets, as produced by String.getBytes and consumed by the Base64 encoder. */
module Bytes {

  type byte = b: int | 0 <= b < 256
}
