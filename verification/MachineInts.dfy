/** Fixed-width integers of the original's runtime. */
module MachineInts {
  newtype int64 = x: int | -0x8000_0000_0000_0000 <= x < 0x8000_0000_0000_0000
  newtype uint64 = x: int | 0 <= x < 0x1_0000_0000_0000_0000

  predicate FitsInt64(x: int) { -0x8000_0000_0000_0000 <= x < 0x8000_0000_0000_0000 }

  const MAX_INT64: int64 := 0x7FFF_FFFF_FFFF_FFFF

  /** A 64-bit product or sum that wraps around. */
  function WrapInt64(x: int): (r: int)
    ensures -0x8000_0000_0000_0000 <= r < 0x8000_0000_0000_0000
    ensures -0x8000_0000_0000_0000 <= x < 0x8000_0000_0000_0000 ==> r == x
    ensures 0 <= x ==> r <= x
  {
    (x + 0x8000_0000_0000_0000) % 0x1_0000_0000_0000_0000 - 0x8000_0000_0000_0000
  }

  /** Wrapping changes a number by a multiple of 2^64, so with its range it is the only such number. */
  lemma {:induction false} WrapsByWords(x: int)
    ensures (x - WrapInt64(x)) % 0x1_0000_0000_0000_0000 == 0
  {
    var y := x + 0x8000_0000_0000_0000;
    assert y - y % 0x1_0000_0000_0000_0000 == y / 0x1_0000_0000_0000_0000 * 0x1_0000_0000_0000_0000;
  }
}
