/** Shared result types, machine-integer bounds and byte strings. */
module Base {
  datatype Option<+T> = None | Some(value: T)

  datatype Result<+T, +E> = Ok(value: T) | Err(error: E)

  const TWO_64 := 0x1_0000_0000_0000_0000

  const TWO_32 := 0x1_0000_0000

  type u64 = x: int | 0 <= x < TWO_64

  type u32 = x: int | 0 <= x < TWO_32

  type u16 = x: int | 0 <= x < 0x1_0000

  type byte = x: int | 0 <= x < 256

  type Bytes = seq<byte>

  // Content hashes and identifiers are opaque: only equality is ever used.
  type Ident = seq<byte>

  function Max(a: int, b: int): int { if a < b then b else a }

  function Min(a: int, b: int): int { if a < b then a else b }
}
