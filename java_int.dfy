/** Java's 32-bit two's-complement `int` and the arithmetic the hash codes use. */
module JavaInt {

  newtype int32 = x: int | -0x8000_0000 <= x < 0x8000_0000

  /** The Java `int` that an exact integer result wraps around to. */
  function Wrap(x: int): (r: int32)
    ensures (x - r as int) % 0x1_0000_0000 == 0
    ensures -0x8000_0000 <= x < 0x8000_0000 ==> r as int == x
  {
    ((x + 0x8000_0000) % 0x1_0000_0000 - 0x8000_0000) as int32
  }

  /** Adding a multiple of 2^32 does not change what a value wraps to. */
  lemma WrapShift(x: int, k: int)
    ensures Wrap(x + k * 0x1_0000_0000) == Wrap(x)
  {
  }

  /** `31 * acc + h` evaluated in Java `int` arithmetic. */
  function Mix(acc: int32, h: int32): (r: int32)
    ensures (31 * acc as int + h as int - r as int) % 0x1_0000_0000 == 0
    ensures -0x8000_0000 <= 31 * acc as int + h as int < 0x8000_0000 ==> r as int == 31 * acc as int + h as int
  {
    Wrap(31 * acc as int + h as int)
  }
}
