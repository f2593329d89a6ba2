/** Bytes, fixed-width unsigned integers and the small datatypes every component shares. */
module Bytes {

  datatype Option<+T> = None | Some(value: T)

  /** One byte of a file, a key or a name. */
  type byte = x: int | 0 <= x < 0x100

  type uint16 = x: int | 0 <= x < 0x1_0000
  type uint32 = x: int | 0 <= x < 0x1_0000_0000
  type uint64 = x: int | 0 <= x < 0x1_0000_0000_0000_0000

  const UINT32_MAX: uint32 := 0xFFFF_FFFF
  const UINT64_MAX: uint64 := 0xFFFF_FFFF_FFFF_FFFF

  /** Conversion to a 32-bit unsigned integer as the C++ casts do it: modulo 2^32. */
  function Wrap32(x: nat): uint32 {
    x % 0x1_0000_0000
  }
}
