/** Fixed-width unsigned integers of the Rust program (`u8`, `u16`). Arithmetic on these types is
    checked by Dafny to stay in range, which models the absence of overflow. */
module Ints {
  newtype u8 = x: int | 0 <= x < 0x100
  newtype u16 = x: int | 0 <= x < 0x1_0000
}
