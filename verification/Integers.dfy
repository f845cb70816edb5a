/** 32-bit integers, and the conversion of wider ones to them. */
module Integers {
  type int32 = n: int | -0x8000_0000 <= n < 0x8000_0000

  /** Go's `int32(n)`: the low 32 bits, as a signed number. */
  function Int32(n: int): (r: int32)
    ensures r == n <==> -0x8000_0000 <= n < 0x8000_0000
    ensures (n - r) % 0x1_0000_0000 == 0
  {
    (n + 0x8000_0000) % 0x1_0000_0000 - 0x8000_0000
  }
}
