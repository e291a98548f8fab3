/**
 Fixed-width integers of the C++ store: `uint64_t`/`size_t`/`hnswlib::labeltype`
 words and the `int` configuration fields, together with the conversion C++
 applies when a signed `int` is compared with an unsigned 64-bit value.
 */
module Bounded {

  const TWO_TO_THE_64: int := 0x1_0000_0000_0000_0000
  const TWO_TO_THE_31: int := 0x8000_0000

  /** An unsigned 64-bit word: user ids, labels, counts and sizes. */
  type U64 = x: int | 0 <= x < TWO_TO_THE_64

  /** A C++ `int` on the LP64 platforms hnswlib targets. */
  type I32 = x: int | -TWO_TO_THE_31 <= x < TWO_TO_THE_31

  /** The usual arithmetic conversion of an `int` operand to `size_t` when it
      meets an unsigned 64-bit operand: negative values wrap around. */
  function ToUnsigned(x: I32): (r: U64)
    ensures 0 <= x ==> r == x
    ensures x < 0 ==> r == x + TWO_TO_THE_64
  {
    x % TWO_TO_THE_64
  }
}
