/** The fixed-width integers the SDK computes with. */
module MachineInts {
  const TWO_63: int := 0x8000_0000_0000_0000
  const TWO_64: int := 0x1_0000_0000_0000_0000

  type I64 = x: int | -TWO_63 <= x < TWO_63
  type U64 = x: int | 0 <= x < TWO_64

  /** Two's-complement truncation to 64 bits: what a release build leaves of an overflowing `i64`. */
  function WrapI64(x: int): (w: I64)
    ensures (x - w) % TWO_64 == 0
    ensures -TWO_63 <= x < TWO_63 ==> w == x
  {
    (x + TWO_63) % TWO_64 - TWO_63
  }
}
