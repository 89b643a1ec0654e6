/** Bytes, as the characters of the program's strings. */
module Octets {

  type byte = b: int | 0 <= b < 256
  type bytes = seq<byte>
}
