/** Octets, fixed-width words and the small option type shared by all modules. */
module Octets {

  newtype byte = x: int | 0 <= x < 256

  type Bytes = seq<byte>

  const UINT16_MAX: nat := 0xFFFF
  const TWO_32: nat := 0x1_0000_0000
  const TWO_64: nat := 0x1_0000_0000_0000_0000

  type uint16 = x: int | 0 <= x <= 0xFFFF
  type uint32 = x: int | 0 <= x < 0x1_0000_0000
  type uint64 = x: int | 0 <= x < 0x1_0000_0000_0000_0000

  /** ASCII lower case. */
  function LowerByte(c: byte): byte
  {
    if 65 <= c <= 90 then c + 32 else c
  }

  datatype Option<+T> = None | Some(value: T)
}
