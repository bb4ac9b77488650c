/** Java's fixed-width integers, written out over Dafny's unbounded integers. */
module Primitives {

  newtype byte = x: int | 0 <= x < 0x100

  /** Java `int`. */
  type int32 = x: int | -0x8000_0000 <= x < 0x8000_0000

  /** The unsigned reading of a Java `long`'s 64 bits. */
  type uint64 = x: int | 0 <= x < 0x1_0000_0000_0000_0000

  const TwoTo32: nat := 0x1_0000_0000
  const TwoTo63: nat := 0x8000_0000_0000_0000
  const TwoTo64: nat := 0x1_0000_0000_0000_0000

  /** `Integer.MAX_VALUE`, the largest length a Java array or string may have. */
  const MaxInt32: nat := 0x7FFF_FFFF

  /** The Java `int` whose 32-bit two's-complement pattern is `u` (the `(int)` narrowing cast). */
  function Int32OfBits(u: nat): (r: int32)
    requires u < TwoTo32
    ensures r % TwoTo32 == u
    ensures r < 0 <==> u >= 0x8000_0000
  {
    if u < 0x8000_0000 then u else u - TwoTo32
  }

  /** The 64 bits of the Java `long` equal to `v`: sign extension of a negative `int`. */
  function SignExtend(v: int32): (r: uint64)
    ensures r % TwoTo32 == v % TwoTo32
    ensures v >= 0 ==> r == v
    ensures v < 0 ==> r >= TwoTo64 - 0x8000_0000
  {
    if v >= 0 then v else v + TwoTo64
  }

  /** Narrowing the sign-extended `long` back to 32 bits recovers the `int`. */
  lemma NarrowSignExtended(v: int32)
    ensures Int32OfBits(SignExtend(v) % TwoTo32) == v
  {
  }
}
