/** An optional value, in place of a nullable pointer. */
module Wrappers {
  datatype Option<+T> = None | Some(value: T)
}

/** Unsigned 64-bit words, with the wrap-around of C's u64 and of a flat address space. */
module Word64 {
  const TWO64: int := 0x1_0000_0000_0000_0000

  type u8 = x: int | 0 <= x < 256

  type u64 = x: int | 0 <= x < TWO64

  function Add(a: u64, b: u64): (r: u64)
    ensures r == (a + b) % TWO64
  {
    if a + b < TWO64 then a + b else a + b - TWO64
  }

  function Sub(a: u64, b: u64): (r: u64)
    ensures r == (a - b) % TWO64
  {
    if b <= a then a - b else a - b + TWO64
  }
}
