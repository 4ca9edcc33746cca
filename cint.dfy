/** Fixed-width C integers as the binding uses them.  Dafny's `int` is unbounded, so every
    narrowing the binding performs (an `int32_t` argument stored into an `int8_t` or `int16_t`)
    is written out here: the low bits are kept and read back in two's complement. */
module CInt {

  type int8 = x: int | -0x80 <= x < 0x80
  type int16 = x: int | -0x8000 <= x < 0x8000
  type int32 = x: int | -0x8000_0000 <= x < 0x8000_0000
  type byte = x: int | 0 <= x < 0x100

  /** `(int8_t) x`: the int8 that agrees with `x` modulo 2^8. */
  function Int8(x: int): (r: int8)
    ensures (r - x) % 0x100 == 0
    ensures -0x80 <= x < 0x80 ==> r == x
  {
    (x + 0x80) % 0x100 - 0x80
  }

  /** `(int16_t) x`: the int16 that agrees with `x` modulo 2^16. */
  function Int16(x: int): (r: int16)
    ensures (r - x) % 0x1_0000 == 0
    ensures -0x8000 <= x < 0x8000 ==> r == x
  {
    (x + 0x8000) % 0x1_0000 - 0x8000
  }

  /** `(uint8_t) x`: the byte that agrees with `x` modulo 2^8. */
  function Uint8(x: int): (r: byte)
    ensures (r - x) % 0x100 == 0
    ensures 0 <= x < 0x100 ==> r == x
  {
    x % 0x100
  }

  /** Narrowing to int8_t first and reading the result as a byte gives back every byte. */
  lemma ByteSurvivesInt8(b: byte)
    ensures Uint8(Int8(b)) == b
  {
    if b >= 0x80 {
      assert Int8(b) == b - 0x100;
    }
  }
}
