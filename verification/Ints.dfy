/** The integer widths of the source. */
module Ints {
  const TWO_TO_THE_32 := 0x1_0000_0000
  const TWO_TO_THE_64 := 0x1_0000_0000_0000_0000
  const UINT64_MAX := TWO_TO_THE_64 - 1
  const INT_MAX := 0x7FFF_FFFF

  type byte = x: int | 0 <= x < 256
  type uint32 = x: int | 0 <= x < TWO_TO_THE_32
  type uint64 = x: int | 0 <= x < TWO_TO_THE_64
  type int32 = x: int | -0x8000_0000 <= x < 0x8000_0000
  type int64 = x: int | -0x8000_0000_0000_0000 <= x < 0x8000_0000_0000_0000
}
