/** Fixed-width integers of the source and the `as i64` cast. */
module Integers {

  const TwoTo16: int := 0x1_0000
  const TwoTo32: int := 0x1_0000_0000
  const TwoTo63: int := 0x8000_0000_0000_0000
  const TwoTo64: int := 0x1_0000_0000_0000_0000

  type U8 = x: int | 0 <= x < 256
  type U16 = x: int | 0 <= x < TwoTo16
  type U32 = x: int | 0 <= x < TwoTo32
  type I64 = x: int | -TwoTo63 <= x < TwoTo63

  /** Rust's `i as i64` on a wider integer keeps the low 64 bits, read in
      two's complement: the unique i64 congruent to `i` modulo 2^64. */
  function WrapI64(i: int): (r: I64)
    ensures (r - i) % TwoTo64 == 0
    ensures -TwoTo63 <= i < TwoTo63 ==> r == i
  {
    var low := i % TwoTo64;
    if low < TwoTo63 then low else low - TwoTo64
  }

  /** An i64 is determined by its residue modulo 2^64, so the two clauses of
      `WrapI64`'s contract pin its result down. */
  lemma I64CongruenceUnique(a: I64, b: I64)
    requires (a - b) % TwoTo64 == 0
    ensures a == b
  {
  }
}
