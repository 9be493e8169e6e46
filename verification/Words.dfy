/** Machine words and the optional value. */
module Words {

  const TWO64: nat := 0x1_0000_0000_0000_0000
  const U16_MAX: nat := 0xFFFF
  const U32_MAX: nat := 0xFFFF_FFFF
  const U64_MAX: nat := 0xFFFF_FFFF_FFFF_FFFF

  type u64 = x: nat | x <= U64_MAX

  function Min(a: nat, b: nat): nat {
    if a <= b then a else b
  }

  datatype Option<T> = None | Some(value: T)
}
