/** The scalar field of the Ristretto group, and the truncating cast to u64 that
    the circuit code uses to read small values back out of a scalar. */
module Scalars {

  /** The order of the Ristretto255 scalar field, 2^252 + 27742317777372353535851937790883648493. */
  const ScalarOrder: nat := 0x1000_0000_0000_0000_0000_0000_0000_0000_14de_f9de_a2f7_9cd6_5812_631a_5cf5_d3ed

  const TwoTo64: nat := 0x1_0000_0000_0000_0000

  type Scalar = x: nat | x < ScalarOrder

  type U64 = x: nat | x < TwoTo64

  /** `scalar_to_u64`: the low eight little-endian bytes of the scalar. */
  function ScalarToU64(s: Scalar): (r: U64)
    ensures s < TwoTo64 ==> r == s
  {
    s % TwoTo64
  }
}
