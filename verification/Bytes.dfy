/** The bytes the tables and the strings are made of. */
module Bytes {
  type Byte = x: int | 0 <= x < 256
}
