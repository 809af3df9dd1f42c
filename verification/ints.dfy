/** Fixed-width integer types of the editor design and the one cast it
    relies on. */
module Ints {

  /** Rust `i32`. */
  type i32 = x: int | -0x8000_0000 <= x < 0x8000_0000

  /** Rust `u32`. */
  type u32 = x: int | 0 <= x < 0x1_0000_0000

  /** Rust `u64` (and `usize` on a 64-bit target). */
  type u64 = x: int | 0 <= x < 0x1_0000_0000_0000_0000

  /** `x as usize` for an `i32` on a 64-bit target: sign extension, then the
      two's-complement bit pattern read as unsigned. */
  function AsUsize(x: i32): (r: u64)
    ensures x >= 0 ==> r == x
    ensures x < 0 ==> r >= 0x8000_0000_0000_0000
    ensures r % 0x1_0000_0000_0000_0000 == x % 0x1_0000_0000_0000_0000
  {
    if x >= 0 then x else x + 0x1_0000_0000_0000_0000
  }
}
