/** Rust's `usize` on a 64-bit target, with the wrapping operations the ring
    buffer uses. Plain `+` and `-` on `usize` panic on overflow in Rust's debug
    builds; here a result outside `usize` is a verification error instead. */
module Usize {

  const MODULUS: int := 0x1_0000_0000_0000_0000

  /** `usize::MAX` */
  const MAX: int := MODULUS - 1

  type usize = x: int | 0 <= x < MODULUS

  /** `a.wrapping_add(b)`: the sum, reduced once by 2^64 on carry. */
  function WrappingAdd(a: usize, b: usize): (r: usize)
    ensures r == (a + b) % MODULUS
    ensures a + b < MODULUS ==> r == a + b
  {
    if a + b < MODULUS then a + b else a + b - MODULUS
  }

  /** `a.wrapping_sub(b)`: the difference, raised once by 2^64 on borrow. */
  function WrappingSub(a: usize, b: usize): (r: usize)
    ensures (b + r) % MODULUS == a
    ensures b <= a ==> r == a - b
  {
    if b <= a then a - b else a - b + MODULUS
  }
}
