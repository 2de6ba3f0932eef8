/**
 * Go's machine-word conversions, shared by the callback trampolines (which return
 * counts as uintptr) and the size packing of Create and CreateFreeThreaded.
 */
module GoWords {

  const TWO_31: int := 0x8000_0000
  const TWO_32: int := 0x1_0000_0000

  /** 2^64: a uintptr holds its value modulo this. */
  const TWO_64: int := 0x1_0000_0000_0000_0000

  /**
   * Go's `uintptr(x)` for a signed x: sign-extend, then keep the low 64 bits, so a
   * value in range is unchanged and a negative one is read as two's complement.
   */
  function Uintptr(x: int): (u: nat)
    ensures u < TWO_64
    ensures 0 <= x < TWO_64 ==> u == x
    ensures -TWO_64 <= x < 0 ==> u == x + TWO_64
  {
    x % TWO_64
  }
}
