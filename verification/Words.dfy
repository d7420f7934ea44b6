/** Fixed-width unsigned arithmetic of the C program, written out on unbounded integers. */
module Words {
  const WORD_16: int := 0x1_0000
  const WORD_32: int := 0x1_0000_0000
  const WORD_64: int := 0x1_0000_0000_0000_0000

  type uint16 = n: int | 0 <= n < 0x1_0000
  type uint32 = n: int | 0 <= n < 0x1_0000_0000
  type uint64 = n: int | 0 <= n < 0x1_0000_0000_0000_0000

  // What assigning `n` to a variable of the given width stores.
  function Word16(n: int): uint16 { n % 0x1_0000 }
  function Word32(n: int): uint32 { n % 0x1_0000_0000 }
  function Word64(n: int): uint64 { n % 0x1_0000_0000_0000_0000 }

  // Addition and subtraction of size_t variables.
  function Add64(a: uint64, b: uint64): uint64 {
    if a + b < WORD_64 then a + b else a + b - WORD_64
  }

  function Sub64(a: uint64, b: uint64): uint64 {
    if a >= b then a - b else a - b + WORD_64
  }

  datatype Option<+T> = None | Some(value: T)
}
