/** Bytes as the integers 0..255. */
module Bytes {

  type byte = x: int | 0 <= x < 256
}
