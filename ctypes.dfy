/** The fixed-width unsigned C integer types, as bounded mathematical integers. */
module CTypes {
  /** `uint8_t` (and the target's unsigned `char`). */
  type Uint8 = x: int | 0 <= x < 0x100

  /** The conversion `(uint8_t)n`: only the low eight bits are kept. */
  function ToUint8(n: nat): (r: Uint8)
    ensures n < 0x100 ==> r == n
    ensures n >= 0x100 ==> r == ToUint8(n - 0x100)
  {
    n % 0x100
  }
}
