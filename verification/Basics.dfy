/** What the machine and the models share: words, bytes, the range of int32_t, and optional values. */
module Basics {

  const WORD_LIMIT := 0x1_0000_0000

  type word = x: int | 0 <= x < WORD_LIMIT

  type byte = x: int | 0 <= x < 0x100

  newtype int32 = x: int | -0x8000_0000 <= x < 0x8000_0000

  predicate Fits32(x: int) {
    -0x8000_0000 <= x < 0x8000_0000
  }

  datatype Option<T> = None | Some(value: T)
}
