/** Machine integers of the C sources: fixed-width unsigned words as subset types,
    with the two's complement reading of a 32-bit word spelled out. */
module Words {
  type uint8 = x: int | 0 <= x < 0x100
  type uint16 = x: int | 0 <= x < 0x1_0000
  type uint32 = x: int | 0 <= x < 0x1_0000_0000

  datatype Option<+T> = None | Some(value: T)

  /** `(int32_t)x` */
  function Signed(x: uint32): int {
    if x < 0x8000_0000 then x else x - 0x1_0000_0000
  }

  /** `(uint32_t)v` */
  function Unsigned(v: int): uint32 {
    v % 0x1_0000_0000
  }

  lemma SignedUnsigned(v: int)
    requires -0x8000_0000 <= v < 0x8000_0000
    ensures Signed(Unsigned(v)) == v
  {
  }

  lemma UnsignedSigned(x: uint32)
    ensures Unsigned(Signed(x)) == x
  {
  }
}
