/** Byte strings and the few number-theoretic constants shared by every component. */
module Bytes {
  type Byte = b: int | 0 <= b < 0x100
  type Bytes = seq<Byte>

  datatype Option<+T> = None | Some(value: T)

  const UINT16_MAX := 0xFFFF
  const UINT32_MAX := 0xFFFF_FFFF
  const UINT64_MAX := 0xFFFF_FFFF_FFFF_FFFF
  const INT64_MAX := 0x7FFF_FFFF_FFFF_FFFF
  const INT64_MIN := -0x8000_0000_0000_0000
  const TWO64 := 0x1_0000_0000_0000_0000

  const DOLLAR: Byte := 36
  const STAR: Byte := 42
  const MINUS: Byte := 45
  const ZERO: Byte := 48
}
