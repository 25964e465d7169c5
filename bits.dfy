/**
 * The integer and bit operations the pixel path uses, on unbounded naturals.
 * A 32-bit word is a natural below 2^32; each operator is written out with the
 * wrap-around or sign reinterpretation the pixel path depends on.
 */
module Bits {
  const WordModulus: nat := 0x1_0000_0000

  /** 2^k; `BitOrDisjoint` relies on it being positive. */
  function Pow2(k: nat): (r: nat)
    ensures r > 0
  {
    if k == 0 then 1 else 2 * Pow2(k - 1)
  }

  lemma Pow2Values()
    ensures Pow2(0) == 1 && Pow2(8) == 0x100 && Pow2(16) == 0x1_0000 && Pow2(24) == 0x100_0000
  {
  }

  /** The shift amounts the pixel path uses: whole bytes within a 32-bit word. */
  type ByteShift = k: nat | k == 0 || k == 8 || k == 16 || k == 24

  /** `x << k` on a 32-bit unsigned word: bits shifted past bit 31 are lost. */
  function Shl(x: nat, k: ByteShift): (r: nat)
    ensures r < WordModulus
  {
    if k == 0 then x % 0x1_0000_0000
    else if k == 8 then (x * 0x100) % 0x1_0000_0000
    else if k == 16 then (x * 0x1_0000) % 0x1_0000_0000
    else (x * 0x100_0000) % 0x1_0000_0000
  }

  /** `x >> k` on a 32-bit unsigned word (a logical shift). */
  function Shr(x: nat, k: ByteShift): (r: nat)
  {
    if k == 0 then x
    else if k == 8 then x / 0x100
    else if k == 16 then x / 0x1_0000
    else x / 0x100_0000
  }

  /** `v >> k` on a signed 32-bit integer (an arithmetic shift, rounding down). */
  function Sar(v: int, k: ByteShift): (r: int)
  {
    if k == 0 then v
    else if k == 8 then v / 0x100
    else if k == 16 then v / 0x1_0000
    else v / 0x100_0000
  }

  /** `v & 0xFF`: the low byte of the two's complement representation of `v`. */
  function Mask8(v: int): (r: nat)
    ensures r < 0x100
  {
    v % 0x100
  }

  /** JavaScript's ToInt32 applied to a number that already lies in [0, 2^32). */
  function ToInt32(w: nat): (v: int)
    requires w < WordModulus
  {
    if w < 0x8000_0000 then w else w - WordModulus
  }

  /** Bitwise `x | y` on naturals, bit by bit from the lowest. */
  function BitOr(x: nat, y: nat): (r: nat)
    decreases x + y
  {
    if x == 0 then y
    else if y == 0 then x
    else 2 * BitOr(x / 2, y / 2) + (if x % 2 == 1 || y % 2 == 1 then 1 else 0)
  }

  /** Or-ing a multiple of 2^k with a value below 2^k adds them: no bit is set in both. */
  lemma {:induction false} BitOrDisjoint(m: nat, y: nat, k: nat)
    requires y < Pow2(k)
    ensures BitOr(m * Pow2(k), y) == m * Pow2(k) + y
  {
    var x := m * Pow2(k);
    if k == 0 {
      assert y == 0;
    } else if x == 0 || y == 0 {
    } else {
      var p := Pow2(k - 1);
      assert x == 2 * (m * p);
      assert x % 2 == 0 && x / 2 == m * p;
      BitOrDisjoint(m, y / 2, k - 1);
    }
  }
}
