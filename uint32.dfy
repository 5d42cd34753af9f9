/**
 Unsigned 32-bit arithmetic as the timer's target (a C++ `uint32_t`) performs
 it: every sum, difference and product is taken modulo 2^32.
 */
module UInt32 {

  const TwoPow32: int := 0x1_0000_0000

  /** The values of a `uint32_t`. */
  type U32 = x: int | 0 <= x < TwoPow32

  /** `std::numeric_limits<uint32_t>::max()` */
  const Max: U32 := 0xFFFF_FFFF

  /** `a + b` on `uint32_t`: the carry out of bit 31 is lost. */
  function WrapAdd(a: U32, b: U32): U32 {
    (a + b) % TwoPow32
  }

  /** `a - b` on `uint32_t`: a borrow wraps around to the top of the range. */
  function WrapSub(a: U32, b: U32): U32 {
    (a - b) % TwoPow32
  }

  /** `a * b` on `uint32_t`: only the low 32 bits of the product are kept. */
  function WrapMul(a: U32, b: U32): U32 {
    (a * b) % TwoPow32
  }
}
