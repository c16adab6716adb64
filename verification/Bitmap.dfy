/** The free-block bitmap: one bit per block, eight to a byte, 8192 to a bitmap block. */
module Bitmap {
  import opened Blocks

  const BITS: nat := 8192   // BITMAP_PER_BLOCK

  /** `(x & (1 << k)) != 0` */
  predicate BitOf(x: nat, k: nat) {
    if k == 0 then x % 2 == 1 else BitOf(x / 2, k - 1)
  }

  function Pow2(n: nat): (p: nat) {
    if n == 0 then 1 else 2 * Pow2(n - 1)
  }

  /** `x | (1 << k)` or `x & ~(1 << k)` on n-bit numbers. */
  function WithBit(x: nat, k: nat, on: bool, n: nat): (y: nat)
    requires k < n && x < Pow2(n)
    ensures y < Pow2(n)
    ensures forall i :: BitOf(y, i) == if i == k then on else BitOf(x, i)
  {
    var half := if k == 0 then x / 2 else WithBit(x / 2, k - 1, on, n - 1);
    var y := 2 * half + if k == 0 then (if on then 1 else 0) else x % 2;
    assert y / 2 == half;
    y
  }

  lemma Pow2Of8()
    ensures Pow2(8) == 256
  {
    assert Pow2(4) == 16;
    assert Pow2(6) == 64;
  }

  predicate Bit(b: Block, j: nat)
    requires j < BITS
  {
    BitOf(b[j / 8], j % 8)
  }

  function PutBit(b: Block, j: nat, on: bool): (c: Block)
    requires j < BITS
    ensures forall i :: 0 <= i < BITS ==> Bit(c, i) == if i == j then on else Bit(b, i)
  {
    Pow2Of8();
    b[j / 8 := WithBit(b[j / 8], j % 8, on, 8)]
  }
}
