/** Bytes, as files, notes and target memory hold them. */
module Octets {
  newtype byte = x: int | 0 <= x < 256
}
