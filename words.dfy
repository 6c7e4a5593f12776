/** Machine words of an RV64 hart, seen two ways: as a 64-bit pattern (what a CSR holds
    and what the field constants are built from) and as an unsigned number (what an address,
    a timer value or a general-purpose register in arithmetic is). */
module Words {
  /** Width of `usize` and `u64` on RV64. */
  const WORD_BITS: nat := 64
  const WORD_MODULUS: int := 0x1_0000_0000_0000_0000

  /** A machine word as a bit pattern. */
  type Word = bv64

  /** A machine word as an unsigned number. */
  type Usize = x: int | 0 <= x < WORD_MODULUS

  /** `usize::MAX`. */
  const USIZE_MAX: Usize := WORD_MODULUS - 1

  /** The low 64 bits of an integer result, as RV64 `add`, `addi` and `mul` keep them. */
  function Wrap(x: int): (r: Usize)
    ensures 0 <= x < WORD_MODULUS ==> r == x
    ensures WORD_MODULUS <= x < 2 * WORD_MODULUS ==> r == x - WORD_MODULUS
  {
    x % WORD_MODULUS
  }

  /** Adding a multiple of 2^64 does not change the low 64 bits. */
  lemma {:induction false} WrapAddMultiple(y: int, q: int)
    ensures Wrap(y + WORD_MODULUS * q) == Wrap(y)
  {
    var m := WORD_MODULUS;
    assert m == 0x1_0000_0000_0000_0000;
    var r := y % m;
    assert y == m * (y / m) + r;
    assert y + m * q == m * (y / m + q) + r;
  }

  /** Wrapping the right operand of an addition first gives the same low 64 bits. */
  lemma {:induction false} WrapAddRight(a: int, x: int)
    ensures Wrap(a + Wrap(x)) == Wrap(a + x)
  {
    var m := WORD_MODULUS;
    assert x == m * (x / m) + Wrap(x);
    WrapAddMultiple(a + Wrap(x), x / m);
  }

  /** Wrapping the right operand of a multiplication first gives the same low 64 bits. */
  lemma {:induction false} WrapMulRight(c: int, x: int)
    ensures Wrap(c * Wrap(x)) == Wrap(c * x)
  {
    var m := WORD_MODULUS;
    var q := x / m;
    assert x == m * q + Wrap(x);
    assert c * x == c * Wrap(x) + m * (c * q) by {
      assert c * (m * q + Wrap(x)) == c * Wrap(x) + m * (c * q);
    }
    WrapAddMultiple(c * Wrap(x), c * q);
  }

  /** Exactly one bit of `w` is set (the classic `w & (w - 1)` test). */
  predicate IsSingleBit(w: Word) {
    w != 0 && w & (w - 1) == 0
  }

  /** Bit `i` of `w` is set. */
  predicate BitAt(w: Word, i: nat)
    requires i < WORD_BITS
  {
    (w >> i) & 1 == 1
  }

  /** Every bit set in `w` is also set in `mask` (`w & mask == w`). */
  predicate WithinMask(w: Word, mask: Word) {
    w & mask == w
  }

  /** `a` and `b` share no set bit. */
  predicate Disjoint(a: Word, b: Word) {
    a & b == 0
  }
}
