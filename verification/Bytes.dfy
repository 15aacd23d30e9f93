/** Bytes, words as four of them, and sizes of 64 bits. */
module Bytes {
  type Byte = x: int | 0 <= x < 0x100

  /** The number of values of `size_t`. */
  const SIZES: nat := 0x1_0000_0000_0000_0000

  type Size = x: nat | x < SIZES

  lemma SplitWord(u: int)
    requires 0 <= u < 0x1_0000_0000
    ensures u == u % 0x100 + 0x100 * (u / 0x100 % 0x100) + 0x1_0000 * (u / 0x1_0000 % 0x100) + 0x100_0000 * (u / 0x100_0000)
    ensures u / 0x100_0000 < 0x100
  {
    assert u / 0x1_0000 == (u / 0x100) / 0x100;
    assert u / 0x100_0000 == (u / 0x1_0000) / 0x100;
  }
}
