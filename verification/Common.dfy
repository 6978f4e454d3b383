// Small vocabulary shared by every component of the model.
module Common {
  datatype Option<+T> = None | Some(value: T)

  // An unsigned char. Strings handled by the server are byte strings.
  type byte = b: int | 0 <= b < 256

  type Str = seq<byte>

  // Widths of the C types the server computes with.
  const SIZE_MODULUS: nat := 0x1_0000_0000_0000_0000
  const INT_MODULUS: nat := 0x1_0000_0000

  function Min(a: nat, b: nat): nat {
    if a <= b then a else b
  }
}
