/**
 * Unsigned bytes and the bitwise operators the interpreter uses on them.
 *
 * Bytes are integers in [0, 256) rather than bit-vectors, so that the
 * arithmetic of the instruction set (carry, borrow, decimal digits) is plain
 * integer arithmetic.  AND, OR and XOR are defined bit by bit, least
 * significant bit first, over a given width; each is characterised by a
 * lemma that gives its truth table at every bit position.
 */
module Bits {

  /** An unsigned 8-bit value (a Rust `u8`). */
  type Byte = b: int | 0 <= b < 256

  function Pow2(k: nat): (p: nat)
    ensures p >= 1
  {
    if k == 0 then 1 else 2 * Pow2(k - 1)
  }

  /** Bit `i` of `a` (bit 0 is the least significant one). */
  function BitAt(a: nat, i: nat): (b: nat)
    ensures b <= 1
  {
    if i == 0 then a % 2 else BitAt(a / 2, i - 1)
  }

  /** The low `w` bits of `a & b`. */
  function AndBits(a: nat, b: nat, w: nat): (r: nat)
    ensures r < Pow2(w)
  {
    if w == 0 then 0
    else (if a % 2 == 1 && b % 2 == 1 then 1 else 0) + 2 * AndBits(a / 2, b / 2, w - 1)
  }

  /** The low `w` bits of `a | b`. */
  function OrBits(a: nat, b: nat, w: nat): (r: nat)
    ensures r < Pow2(w)
  {
    if w == 0 then 0
    else (if a % 2 == 1 || b % 2 == 1 then 1 else 0) + 2 * OrBits(a / 2, b / 2, w - 1)
  }

  /** The low `w` bits of `a ^ b`. */
  function XorBits(a: nat, b: nat, w: nat): (r: nat)
    ensures r < Pow2(w)
  {
    if w == 0 then 0
    else (if a % 2 != b % 2 then 1 else 0) + 2 * XorBits(a / 2, b / 2, w - 1)
  }

  lemma Pow2Eight()
    ensures Pow2(8) == 256
  {
  }

  /** `a & b` on bytes. */
  function BitAnd(a: Byte, b: Byte): Byte
  {
    Pow2Eight();
    AndBits(a, b, 8)
  }

  /** `a | b` on bytes. */
  function BitOr(a: Byte, b: Byte): Byte
  {
    Pow2Eight();
    OrBits(a, b, 8)
  }

  /** `a ^ b` on bytes. */
  function BitXor(a: Byte, b: Byte): Byte
  {
    Pow2Eight();
    XorBits(a, b, 8)
  }

  /** `!b` on bytes. */
  function BitNot(b: Byte): Byte
  {
    255 - b
  }

  // ---------------------------------------------------------------------
  // Truth tables, bit by bit

  lemma {:induction false} AndBitsAt(a: nat, b: nat, w: nat, i: nat)
    requires i < w
    ensures BitAt(AndBits(a, b, w), i) == (if BitAt(a, i) == 1 && BitAt(b, i) == 1 then 1 else 0)
  {
    if i > 0 {
      AndBitsAt(a / 2, b / 2, w - 1, i - 1);
    }
  }

  lemma {:induction false} OrBitsAt(a: nat, b: nat, w: nat, i: nat)
    requires i < w
    ensures BitAt(OrBits(a, b, w), i) == (if BitAt(a, i) == 1 || BitAt(b, i) == 1 then 1 else 0)
  {
    if i > 0 {
      OrBitsAt(a / 2, b / 2, w - 1, i - 1);
    }
  }

  lemma {:induction false} XorBitsAt(a: nat, b: nat, w: nat, i: nat)
    requires i < w
    ensures BitAt(XorBits(a, b, w), i) == (if BitAt(a, i) != BitAt(b, i) then 1 else 0)
  {
    if i > 0 {
      XorBitsAt(a / 2, b / 2, w - 1, i - 1);
    }
  }

  // ---------------------------------------------------------------------
  // Algebraic facts

  lemma {:induction false} XorBitsZero(a: nat, w: nat)
    requires a < Pow2(w)
    ensures XorBits(a, 0, w) == a
  {
    if w > 0 {
      XorBitsZero(a / 2, w - 1);
    }
  }

  lemma {:induction false} XorBitsTwice(a: nat, c: nat, w: nat)
    requires a < Pow2(w)
    ensures XorBits(XorBits(a, c, w), c, w) == a
  {
    if w > 0 {
      var t := XorBits(a / 2, c / 2, w - 1);
      assert XorBits(a, c, w) == (if a % 2 != c % 2 then 1 else 0) + 2 * t;
      XorBitsTwice(a / 2, c / 2, w - 1);
    }
  }

  lemma {:induction false} AndBitsZeroLeft(b: nat, w: nat)
    ensures AndBits(0, b, w) == 0
  {
    if w > 0 {
      AndBitsZeroLeft(b / 2, w - 1);
    }
  }

  lemma {:induction false} OrBitsZero(w: nat)
    ensures OrBits(0, 0, w) == 0
  {
    if w > 0 {
      OrBitsZero(w - 1);
    }
  }

  /** No bit of `r & k` lies outside `k`: `(r & k) & !k == 0` over `w` bits. */
  lemma {:induction false} AndBitsMask(r: nat, k: nat, w: nat)
    requires k < Pow2(w)
    ensures AndBits(AndBits(r, k, w), Pow2(w) - 1 - k, w) == 0
  {
    if w > 0 {
      var p := Pow2(w - 1);
      assert (Pow2(w) - 1 - k) / 2 == p - 1 - k / 2;
      assert AndBits(r, k, w) / 2 == AndBits(r / 2, k / 2, w - 1);
      AndBitsMask(r / 2, k / 2, w - 1);
    }
  }

  // ---------------------------------------------------------------------
  // The byte-level facts the interpreter relies on

  /** XOR with zero is the identity. */
  lemma BitXorZero(a: Byte)
    ensures BitXor(a, 0) == a
  {
    Pow2Eight();
    XorBitsZero(a, 8);
  }

  /** XOR twice with the same value restores the original. */
  lemma BitXorTwice(a: Byte, c: Byte)
    ensures BitXor(BitXor(a, c), c) == a
  {
    Pow2Eight();
    XorBitsTwice(a, c, 8);
  }

  /** XOR with one flips the lowest bit (and keeps the others). */
  lemma BitXorOne(a: Byte)
    ensures BitXor(a, 1) % 2 == 1 - a % 2
    ensures BitXor(a, 1) / 2 == a / 2
  {
    Pow2Eight();
    XorBitsZero(a / 2, 7);
  }

  /** On single-bit values XOR is inequality. */
  lemma BitXorBinary(a: Byte, c: Byte)
    requires a <= 1 && c <= 1
    ensures BitXor(a, c) == if a == c then 0 else 1
  {
    if c == 0 {
      BitXorZero(a);
    } else {
      BitXorOne(a);
    }
  }

  /** AND with a single-bit value selects the lowest bit of the other operand. */
  lemma BitAndBinary(c: Byte, p: Byte)
    requires c <= 1
    ensures BitAnd(c, p) == if c == 1 then p % 2 else 0
  {
    calc {
      BitAnd(c, p);
      (if c == 1 && p % 2 == 1 then 1 else 0) + 2 * AndBits(0, p / 2, 7);
      { AndBitsZeroLeft(p / 2, 7); }
      if c == 1 then p % 2 else 0;
    }
  }

  /** On single-bit values OR is disjunction. */
  lemma BitOrBinary(a: Byte, b: Byte)
    requires a <= 1 && b <= 1
    ensures BitOr(a, b) == if a == 1 || b == 1 then 1 else 0
  {
    calc {
      BitOr(a, b);
      (if a == 1 || b == 1 then 1 else 0) + 2 * OrBits(0, 0, 7);
      { OrBitsZero(7); }
      if a == 1 || b == 1 then 1 else 0;
    }
  }

  /** `(r & k) & !k == 0`: masking keeps only bits of the mask. */
  lemma BitAndMask(r: Byte, k: Byte)
    ensures BitAnd(BitAnd(r, k), BitNot(k)) == 0
  {
    Pow2Eight();
    AndBitsMask(r, k, 8);
  }

  /** Clearing bit 4 of a byte, which is what `& 0xEF` does. */
  lemma BitAndEF(b: Byte)
    ensures BitAnd(b, 0xEF) == if b / 16 % 2 == 1 then b - 16 else b
  {
    var b1, b2, b3, b4 := b / 2, b / 4, b / 8, b / 16;
    assert b2 == b1 / 2 && b3 == b2 / 2 && b4 == b3 / 2;
    assert Pow2(3) == 8;
    AndBitsAllOnes(b4 / 2, 3);
    var t := AndBits(b4 / 2, 7, 3);
    assert t == b4 / 2;
    assert AndBits(b4, 0x0E, 4) == 2 * t;
    assert AndBits(b3, 0x1D, 5) == b3 % 2 + 2 * AndBits(b4, 0x0E, 4);
    assert AndBits(b2, 0x3B, 6) == b2 % 2 + 2 * AndBits(b3, 0x1D, 5);
    assert AndBits(b1, 0x77, 7) == b1 % 2 + 2 * AndBits(b2, 0x3B, 6);
    assert AndBits(b, 0xEF, 8) == b % 2 + 2 * AndBits(b1, 0x77, 7);
    assert b == b % 16 + 16 * (b4 % 2) + 32 * (b4 / 2);
    assert b % 16 == b % 2 + 2 * (b1 % 2) + 4 * (b2 % 2) + 8 * (b3 % 2);
  }

  lemma {:induction false} AndBitsAllOnes(a: nat, w: nat)
    requires a < Pow2(w)
    ensures AndBits(a, Pow2(w) - 1, w) == a
  {
    if w > 0 {
      AndBitsAllOnes(a / 2, w - 1);
      assert (Pow2(w) - 1) / 2 == Pow2(w - 1) - 1;
    }
  }
}
