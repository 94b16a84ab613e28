/** Bytes and little-endian fields, as the ELF reader sees them. */
module ElfBytes {
  import opened Wrappers
  import opened Octet

  /** The field of `size` bytes at `offset`. */
  function Field(input: seq<byte>, offset: nat, size: nat): nat
    requires offset + size <= |input|
  {
    Le(input[offset..offset + size])
  }

  function U16(input: seq<byte>, offset: nat): nat
    requires offset + 2 <= |input|
  {
    Field(input, offset, 2)
  }

  function U32(input: seq<byte>, offset: nat): nat
    requires offset + 4 <= |input|
  {
    Field(input, offset, 4)
  }

  function U64At(input: seq<byte>, offset: nat): nat
    requires offset + 8 <= |input|
  {
    Field(input, offset, 8)
  }

  /** An addition the source leaves unchecked: the caller must show that it cannot overflow. */
  function Plus(a: nat, b: nat): nat
    requires a + b < U64
  {
    a + b
  }

  function CheckedAdd(a: nat, b: nat): Option<nat> {
    if a + b < U64 then Some(a + b) else None
  }
}
