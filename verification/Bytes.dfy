/** Texts as the program holds them: sequences of bytes, normally UTF-8. */
module Bytes {
  newtype Byte = b: int | 0 <= b < 256

  type Bytes = seq<Byte>
}
