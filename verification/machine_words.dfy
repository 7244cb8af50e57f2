/**
 * The C++ integer types the modelled sources use, as ranges of unbounded
 * integers.  Wrap-around is written out where the sources rely on it.
 */
module MachineWords {

  /** 2^32 and 2^64. */
  const TWO_TO_32: int := 0x1_0000_0000
  const TWO_TO_64: int := 0x1_0000_0000_0000_0000

  /** `int` on the targets of the sources: 32-bit two's complement. */
  type Int32 = x: int | -0x8000_0000 <= x < 0x8000_0000

  /** `uint64_t` and `size_t`. */
  type UInt64 = x: int | 0 <= x < TWO_TO_64

  /** `uint16_t`. */
  type UInt16 = x: int | 0 <= x < 0x1_0000

  /** `uint32_t`. */
  type UInt32 = x: int | 0 <= x < TWO_TO_32

  /** One byte of memory. */
  type Byte = x: int | 0 <= x < 0x100

  /** Conversion to `uint64_t`: the value modulo 2^64 (C++ [conv.integral]). */
  function ToUInt64(x: int): (r: UInt64)
    ensures (r - x) % TWO_TO_64 == 0
    ensures 0 <= x < TWO_TO_64 ==> r == x
  {
    x % TWO_TO_64
  }
}
