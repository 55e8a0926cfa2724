/** Python `bytes` are sequences of integers in 0..255. */
module Bytes {

  type byte = b: int | 0 <= b < 256
}
