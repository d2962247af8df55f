// Types shared by every part of the model.
module Prelude {
  datatype Byte = Byte(bits: bv8)

  function Xor(a: Byte, b: Byte): Byte {
    Byte(a.bits ^ b.bits)
  }

  // A 64-bit `usize`; lengths and offsets of the source are of this type.
  const USIZE_LIMIT: nat := 0x1_0000_0000_0000_0000

  type usize = n: nat | n < USIZE_LIMIT

  datatype Option<+T> = None | Some(value: T)

  datatype Result<+T, +E> = Ok(value: T) | Err(error: E)

  function Min(a: nat, b: nat): nat {
    if a < b then a else b
  }

  function Max(a: nat, b: nat): nat {
    if a < b then b else a
  }
}
