/** The machine integers of src/core/types.h that are used without arithmetic. */
module Bytes {
  type byte = x: int | 0 <= x < 0x100
  type wchar = x: int | 0 <= x < 0x1_0000
  type word = x: int | 0 <= x < 0x1_0000_0000
}
