/** Bytes, as the hash and the query decoder see them. */
module Bytes {

  newtype byte = x: int | 0 <= x < 256
}
