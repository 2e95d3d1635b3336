/** Java's fixed-width integer types, stated on Dafny's unbounded `int`. */
module JavaInts {

  const IntMin: int := -0x8000_0000
  const IntMax: int := 0x7fff_ffff
  const LongMin: int := -0x8000_0000_0000_0000
  const LongMax: int := 0x7fff_ffff_ffff_ffff

  /** The number of `long` values: Java's long arithmetic works modulo it. */
  const LongModulus: int := 0x1_0000_0000_0000_0000

  /** Java `int`: 32-bit two's complement. */
  type Int32 = x: int | IntMin <= x <= IntMax

  /** Java `long`: 64-bit two's complement. */
  type Int64 = x: int | LongMin <= x <= LongMax

  predicate InLongRange(x: int) {
    LongMin <= x <= LongMax
  }

  /** The value Java's `long` arithmetic produces for the mathematical result `x`:
      `x` reduced modulo 2^64 into the signed range. */
  function WrapLong(x: int): (r: Int64)
    ensures (r - x) % LongModulus == 0
    ensures InLongRange(x) ==> r == x
  {
    (x - LongMin) % LongModulus + LongMin
  }
}
