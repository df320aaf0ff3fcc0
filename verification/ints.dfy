/** Fixed-width integer types of the Go source, as subsets of the unbounded integers.
    Wrap-around is written out where the source relies on it (see U32Add). */
module Ints {
  const TWO_32: int := 0x1_0000_0000
  const TWO_64: int := 0x1_0000_0000_0000_0000

  type byte = x: int | 0 <= x < 0x100
  type u32 = x: int | 0 <= x < 0x1_0000_0000
  type u64 = x: int | 0 <= x < 0x1_0000_0000_0000_0000
  type i32 = x: int | -0x8000_0000 <= x < 0x8000_0000

  /** Go's `uint32(n)` for a non-negative `int`: keeps the low 32 bits. */
  function U32(n: nat): u32 { n % TWO_32 }

  /** Go's `a + b` on two `uint32` values: addition modulo 2^32. */
  function U32Add(a: u32, b: u32): u32 { (a + b) % TWO_32 }

  /** Go's `a - b` on two `uint64` values: subtraction modulo 2^64. */
  function U64Sub(a: u64, b: u64): u64 { (a - b) % TWO_64 }

  /** Go's `a + b` on two `uint64` values: addition modulo 2^64. */
  function U64Add(a: u64, b: u64): u64 { (a + b) % TWO_64 }

  function Min(a: int, b: int): int { if a <= b then a else b }
}
