/**
 * The C machine types the vector library works with: the element type
 * `long` as an LP64 target has it (64 bits) with its two
 * limits, and the narrowing conversions that the library applies to
 * `size_t` counts when it returns them as `short` or `int`.
 */
module CTypes {

  /** A C `long`: the element type of the vector. */
  newtype Long = x: int | -0x8000_0000_0000_0000 <= x <= 0x7fff_ffff_ffff_ffff

  /** `LONG_MIN`, returned by pop when there is nothing to pop. */
  const LONG_MIN: Long := -0x8000_0000_0000_0000

  /** `LONG_MAX`, returned by the unchecked read on an invalid access. */
  const LONG_MAX: Long := 0x7fff_ffff_ffff_ffff

  /**
   * The value a `size_t` takes once converted to a 16-bit `short`: the low
   * 16 bits, read in two's complement.
   */
  function AsShort(n: nat): (r: int)
    ensures -0x8000 <= r < 0x8000
    ensures (n - r) % 0x1_0000 == 0
    ensures n < 0x8000 ==> r == n
  {
    var low := n % 0x1_0000;
    if low < 0x8000 then low else low - 0x1_0000
  }

  /**
   * The value a `size_t` takes once converted to a 32-bit `int`: the low
   * 32 bits, read in two's complement.
   */
  function AsInt(n: nat): (r: int)
    ensures -0x8000_0000 <= r < 0x8000_0000
    ensures (n - r) % 0x1_0000_0000 == 0
    ensures n < 0x8000_0000 ==> r == n
  {
    var low := n % 0x1_0000_0000;
    if low < 0x8000_0000 then low else low - 0x1_0000_0000
  }
}
