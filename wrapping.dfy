/**
 * Rust's `usize` on a 64-bit target and the two wrapping operations the
 * board's neighbour arithmetic uses.
 */
module Wrapping {

  /** 2^64: the number of values of a 64-bit `usize`. */
  const MODULUS: int := 0x1_0000_0000_0000_0000

  /** A value of Rust's `usize`. */
  type Usize = x: int | 0 <= x < MODULUS

  /** `a.wrapping_add(b)`: the sum, reduced by 2^64 when it overflows. */
  function WrappingAdd(a: Usize, b: Usize): (r: Usize)
    ensures a + b < MODULUS ==> r == a + b
    ensures MODULUS <= a + b ==> r == a + b - MODULUS
  {
    (a + b) % MODULUS
  }

  /** `a.wrapping_sub(b)`: the difference, raised by 2^64 when it underflows. */
  function WrappingSub(a: Usize, b: Usize): (r: Usize)
    ensures b <= a ==> r == a - b
    ensures a < b ==> r == a - b + MODULUS
  {
    (a - b) % MODULUS
  }
}
