/** `size_t` on the 64-bit platforms of the source. */
module SizeT {
  const SIZE_T_RANGE := 0x1_0000_0000_0000_0000

  /** The conversion of an `int` that is compared with a `size_t`. */
  function AsSize(n: int): int {
    if n < 0 then n + SIZE_T_RANGE else n
  }
}
