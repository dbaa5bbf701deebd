/** Octets, as the buffers and identifiers of the model hold them. */
module Bytes {

  type byte = x: int | 0 <= x < 0x100
}
