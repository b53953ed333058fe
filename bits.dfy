/** Unsigned machine words and the bitwise operations the packet filter
    uses, defined arithmetically on natural numbers so that proofs about
    them stay in linear integer arithmetic. */
module Bits {

  type uint8 = x: int | 0 <= x < 0x100
  type uint16 = x: int | 0 <= x < 0x1_0000
  type uint32 = x: int | 0 <= x < 0x1_0000_0000

  const WORD_MODULUS: nat := 0x1_0000_0000

  function Pow2(n: nat): (r: nat)
    ensures r > 0
  {
    if n == 0 then 1 else 2 * Pow2(n - 1)
  }

  /** The powers of two used as byte and word boundaries. */
  lemma Pow2Values()
    ensures Pow2(8) == 0x100 && Pow2(16) == 0x1_0000
    ensures Pow2(24) == 0x100_0000 && Pow2(32) == 0x1_0000_0000
  {
    assert Pow2(2) == 4;
    assert Pow2(4) == 16;
    assert Pow2(6) == 64;
    assert Pow2(8) == 0x100;
    assert Pow2(10) == 0x400;
    assert Pow2(12) == 0x1000;
    assert Pow2(14) == 0x4000;
    assert Pow2(16) == 0x1_0000;
    assert Pow2(18) == 0x4_0000;
    assert Pow2(20) == 0x10_0000;
    assert Pow2(22) == 0x40_0000;
    assert Pow2(24) == 0x100_0000;
    assert Pow2(26) == 0x400_0000;
    assert Pow2(28) == 0x1000_0000;
    assert Pow2(30) == 0x4000_0000;
  }

  /** Four bytes read as one big-endian (network order) word. */
  function BigEndianWord(b: seq<uint8>): (w: uint32)
    requires |b| == 4
  {
    (b[0] as int) * 0x100_0000 + (b[1] as int) * 0x1_0000 + (b[2] as int) * 0x100 + b[3]
  }

  /** C's `x << n` on a value that does not overflow. */
  function Shl(x: nat, n: nat): nat {
    x * Pow2(n)
  }

  /** Bitwise inclusive or, bit by bit from the least significant end. */
  function BitOr(a: nat, b: nat): nat
    decreases a + b
  {
    if a == 0 then b
    else if b == 0 then a
    else 2 * BitOr(a / 2, b / 2) + (if a % 2 == 1 || b % 2 == 1 then 1 else 0)
  }

  /** Bitwise and, bit by bit from the least significant end. */
  function BitAnd(a: nat, b: nat): nat
    decreases a + b
  {
    if a == 0 || b == 0 then 0
    else 2 * BitAnd(a / 2, b / 2) + (if a % 2 == 1 && b % 2 == 1 then 1 else 0)
  }

  /** Bit `n` (counting from 0 at the least significant end) of `a` is set. */
  predicate HasBit(a: nat, n: nat) {
    if n == 0 then a % 2 == 1 else HasBit(a / 2, n - 1)
  }

  /** Or-ing a value into the zero low bits of a shifted value is addition. */
  lemma {:induction false} BitOrLowBits(a: nat, b: nat, n: nat)
    requires b < Pow2(n)
    ensures BitOr(Shl(a, n), b) == Shl(a, n) + b
  {
    if n == 0 {
      assert b == 0;
    } else if a != 0 && b != 0 {
      var p := Pow2(n - 1);
      assert Shl(a, n) == 2 * (a * p);
      assert Shl(a, n) / 2 == Shl(a, n - 1) && Shl(a, n) % 2 == 0;
      BitOrLowBits(a, b / 2, n - 1);
    }
  }

  /** Or commutes with a common left shift. */
  lemma {:induction false} BitOrShifted(x: nat, y: nat, n: nat)
    ensures BitOr(Shl(x, n), Shl(y, n)) == Shl(BitOr(x, y), n)
  {
    if n > 0 {
      ShlDouble(x, n);
      ShlDouble(y, n);
      ShlDouble(BitOr(x, y), n);
      BitOrShifted(x, y, n - 1);
      BitOrDouble(Shl(x, n - 1), Shl(y, n - 1));
    }
  }

  lemma ShlDouble(x: nat, n: nat)
    requires n > 0
    ensures Shl(x, n) == 2 * Shl(x, n - 1)
  {
    calc {
      Shl(x, n);
      x * (2 * Pow2(n - 1));
      2 * (x * Pow2(n - 1));
    }
  }

  lemma {:induction false} BitOrCommutes(a: nat, b: nat)
    ensures BitOr(a, b) == BitOr(b, a)
    decreases a + b
  {
    if a != 0 && b != 0 {
      BitOrCommutes(a / 2, b / 2);
    }
  }

  lemma BitOrDouble(u: nat, v: nat)
    ensures BitOr(2 * u, 2 * v) == 2 * BitOr(u, v)
  {
  }

  /** The or of two n-bit values is an n-bit value. */
  lemma {:induction false} BitOrBound(a: nat, b: nat, n: nat)
    requires a < Pow2(n) && b < Pow2(n)
    ensures BitOr(a, b) < Pow2(n)
  {
    if n > 0 && a != 0 && b != 0 {
      BitOrBound(a / 2, b / 2, n - 1);
    }
  }

  /** Masking with `2^n` tests exactly bit `n`. */
  lemma {:induction false} BitAndPow2(a: nat, n: nat)
    ensures BitAnd(a, Pow2(n)) != 0 <==> HasBit(a, n)
  {
    if n > 0 {
      assert Pow2(n) / 2 == Pow2(n - 1) && Pow2(n) % 2 == 0;
      BitAndPow2(a / 2, n - 1);
    }
  }
}
