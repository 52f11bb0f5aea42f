/** Octets. */
module Bytes {
  type Byte = bv8
  type Bytes = seq<Byte>
}
