/** Vocabulary shared by every part of the model: optional values and the
    fixed-width integers of the recorder and of the EVM. */
module Basics {

  datatype Option<+T> = None | Some(value: T)

  const U32_BOUND: int := 0x1_0000_0000
  const U64_BOUND: int := 0x1_0000_0000_0000_0000
  const U160_BOUND: int := 0x1_0000000000_0000000000_0000000000_0000000000
  const U256_BOUND: int := 0x1_0000000000000000_0000000000000000_0000000000000000_0000000000000000
  const I32_MIN: int := -0x8000_0000
  const I32_MAX: int := 0x7fff_ffff

  type byte = x: int | 0 <= x < 0x100
  type I32 = x: int | I32_MIN <= x <= I32_MAX
  type U64 = x: int | 0 <= x < U64_BOUND

  /** A 256-bit EVM word. */
  type Word = x: int | 0 <= x < U256_BOUND

  /** A 20-byte account address. */
  type Address = x: int | 0 <= x < U160_BOUND

  /** Two's complement truncation to 32 bits: a Rust `as i32` cast, or an `i32` sum in a release build. */
  function WrapI32(x: int): I32 {
    (x + 0x8000_0000) % 0x1_0000_0000 - 0x8000_0000
  }

  /** A `u64` sum in a release build. */
  function SumU64(a: U64, b: U64): U64 {
    if a + b < U64_BOUND then a + b else a + b - U64_BOUND
  }

  function Min(a: int, b: int): int {
    if a < b then a else b
  }

  function Max(a: int, b: int): int {
    if a < b then b else a
  }

  /** `n` times `v.pop()`: pops of an empty vector do nothing. */
  function Shrunk<T>(s: seq<T>, n: nat): (r: seq<T>)
    ensures |r| == Max(0, |s| - n) && r <= s
  {
    s[..Max(0, |s| - n)]
  }
}
