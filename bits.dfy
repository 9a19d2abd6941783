/**
  Ruby's integer bit operators on non-negative integers.

  `&`, `|`, `^`, `>>` and `<<` are defined exactly, bit by bit, so that
  the colour packing and the code mixing of the generator can be stated
  in the source's own terms; `Bit(n, k)` is Ruby's `n[k]`.
 */
module Bits {

  function Pow2(k: nat): (r: nat)
    ensures r >= 1
  {
    if k == 0 then 1 else 2 * Pow2(k - 1)
  }

  /** Ruby's `n[k]`: bit `k` of `n`. */
  function Bit(n: nat, k: nat): (b: nat)
    ensures b <= 1
  {
    if k == 0 then n % 2 else Bit(n / 2, k - 1)
  }

  /** Ruby's `n >> s`. */
  function Shr(n: nat, s: nat): nat
  {
    if s == 0 then n else Shr(n / 2, s - 1)
  }

  /** Ruby's `n << s`. */
  function Shl(n: nat, s: nat): nat
  {
    if s == 0 then n else 2 * Shl(n, s - 1)
  }

  /** Ruby's `a & b`; never larger than either operand. */
  function And(a: nat, b: nat): (r: nat)
    ensures r <= a && r <= b
  {
    if a == 0 || b == 0 then 0
    else 2 * And(a / 2, b / 2) + (if a % 2 == 1 && b % 2 == 1 then 1 else 0)
  }

  /** Ruby's `a | b`. */
  function Or(a: nat, b: nat): nat
  {
    if a == 0 then b
    else if b == 0 then a
    else 2 * Or(a / 2, b / 2) + (if a % 2 == 1 || b % 2 == 1 then 1 else 0)
  }

  /** Ruby's `a ^ b`. */
  function Xor(a: nat, b: nat): nat
  {
    if a == 0 then b
    else if b == 0 then a
    else 2 * Xor(a / 2, b / 2) + (if a % 2 != b % 2 then 1 else 0)
  }

  /** Ones in bits `0 .. w-1`: the mask `0xff` is `Mask(8)`, `0xffff` is `Mask(16)`. */
  function Mask(w: nat): nat
  {
    Pow2(w) - 1
  }

  lemma Pow2Values()
    ensures Pow2(3) == 8 && Pow2(4) == 16 && Pow2(8) == 256
    ensures Pow2(16) == 0x1_0000 && Pow2(24) == 0x100_0000 && Pow2(32) == 0x1_0000_0000
  {
    assert Pow2(4) == 16;
    assert Pow2(8) == 256;
    assert Pow2(12) == 4096;
    assert Pow2(16) == 0x1_0000;
    assert Pow2(20) == 0x10_0000;
    assert Pow2(24) == 0x100_0000;
    assert Pow2(28) == 0x1000_0000;
  }

  lemma MaskValues()
    ensures Mask(4) == 0x0f && Mask(8) == 0xff && Mask(16) == 0xffff && Mask(32) == 0xffff_ffff
  {
    Pow2Values();
  }

  lemma {:induction false} BitOfZero(k: nat)
    ensures Bit(0, k) == 0
  {
    if k > 0 { BitOfZero(k - 1); }
  }

  /** Two numbers with the same bits are equal. */
  lemma {:induction false} BitsEqual(a: nat, b: nat)
    requires forall k: nat :: Bit(a, k) == Bit(b, k)
    ensures a == b
    decreases a + b
  {
    if a != 0 || b != 0 {
      assert a % 2 == b % 2 by { assert Bit(a, 0) == Bit(b, 0); }
      forall k: nat ensures Bit(a / 2, k) == Bit(b / 2, k) {
        assert Bit(a, k + 1) == Bit(b, k + 1);
      }
      BitsEqual(a / 2, b / 2);
    }
  }

  /** `2x + d`, for a bit `d`, has low bit `d` and the bits of `x` above it. */
  lemma LowBit(x: nat, d: nat)
    requires d <= 1
    ensures (2 * x + d) / 2 == x && (2 * x + d) % 2 == d
  {
  }

  lemma {:induction false} BitAnd(a: nat, b: nat, k: nat)
    ensures Bit(And(a, b), k) == Bit(a, k) * Bit(b, k)
    decreases a
  {
    if a == 0 {
      BitOfZero(k);
    } else if b == 0 {
      BitOfZero(k);
    } else {
      LowBit(And(a / 2, b / 2), if a % 2 == 1 && b % 2 == 1 then 1 else 0);
      if k > 0 { BitAnd(a / 2, b / 2, k - 1); }
    }
  }

  lemma {:induction false} BitOr(a: nat, b: nat, k: nat)
    ensures Bit(Or(a, b), k) == if Bit(a, k) == 1 || Bit(b, k) == 1 then 1 else 0
    decreases a
  {
    if a == 0 {
      BitOfZero(k);
    } else if b == 0 {
      BitOfZero(k);
    } else {
      LowBit(Or(a / 2, b / 2), if a % 2 == 1 || b % 2 == 1 then 1 else 0);
      if k > 0 { BitOr(a / 2, b / 2, k - 1); }
    }
  }

  lemma {:induction false} BitXor(a: nat, b: nat, k: nat)
    ensures Bit(Xor(a, b), k) == (Bit(a, k) + Bit(b, k)) % 2
    decreases a
  {
    if a == 0 {
      BitOfZero(k);
    } else if b == 0 {
      BitOfZero(k);
    } else {
      LowBit(Xor(a / 2, b / 2), if a % 2 != b % 2 then 1 else 0);
      if k > 0 { BitXor(a / 2, b / 2, k - 1); }
    }
  }

  lemma {:induction false} BitShr(n: nat, s: nat, k: nat)
    ensures Bit(Shr(n, s), k) == Bit(n, k + s)
  {
    if s > 0 {
      BitShr(n / 2, s - 1, k);
    }
  }

  lemma {:induction false} BitShl(n: nat, s: nat, k: nat)
    ensures Bit(Shl(n, s), k) == if k < s then 0 else Bit(n, k - s)
  {
    if s > 0 {
      if k > 0 {
        BitShl(n, s - 1, k - 1);
      }
    }
  }

  lemma {:induction false} ShlIsProduct(n: nat, s: nat)
    ensures Shl(n, s) == n * Pow2(s)
  {
    if s > 0 {
      ShlIsProduct(n, s - 1);
      assert n * Pow2(s) == 2 * (n * Pow2(s - 1));
    }
  }

  lemma {:induction false} BitMask(w: nat, k: nat)
    ensures Bit(Mask(w), k) == if k < w then 1 else 0
  {
    if w == 0 {
      BitOfZero(k);
    } else if k > 0 {
      assert Mask(w) / 2 == Mask(w - 1);
      BitMask(w - 1, k - 1);
    }
  }

  /** A number below `2^w` has no bit at or above `w`. */
  lemma {:induction false} BitAboveWidth(n: nat, w: nat, k: nat)
    requires n < Pow2(w) && k >= w
    ensures Bit(n, k) == 0
  {
    if w == 0 {
      BitOfZero(k);
    } else {
      BitAboveWidth(n / 2, w - 1, k - 1);
    }
  }

  /** ... and conversely a number with no bit at or above `w` is below `2^w`. */
  lemma {:induction false} BelowFromBits(n: nat, w: nat)
    requires forall k: nat :: k >= w ==> Bit(n, k) == 0
    ensures n < Pow2(w)
  {
    if w == 0 {
      forall k: nat ensures Bit(n, k) == Bit(0, k) { BitOfZero(k); }
      BitsEqual(n, 0);
    } else {
      forall k: nat | k >= w - 1 ensures Bit(n / 2, k) == 0 {
        assert Bit(n, k + 1) == 0;
      }
      BelowFromBits(n / 2, w - 1);
    }
  }

  /** `|` of two numbers without a common bit is their sum. */
  lemma {:induction false} OrDisjoint(a: nat, b: nat)
    requires forall k: nat :: Bit(a, k) == 0 || Bit(b, k) == 0
    ensures Or(a, b) == a + b
    decreases a
  {
    if a != 0 && b != 0 {
      assert Bit(a, 0) == 0 || Bit(b, 0) == 0;
      forall k: nat ensures Bit(a / 2, k) == 0 || Bit(b / 2, k) == 0 {
        assert Bit(a, k + 1) == 0 || Bit(b, k + 1) == 0;
      }
      OrDisjoint(a / 2, b / 2);
    }
  }

  /** Masking with `2^w - 1` keeps exactly the bits below `w`. */
  lemma BitAndMask(n: nat, w: nat, k: nat)
    ensures Bit(And(n, Mask(w)), k) == if k < w then Bit(n, k) else 0
  {
    BitAnd(n, Mask(w), k);
    BitMask(w, k);
  }

  lemma AndComm(a: nat, b: nat)
    ensures And(a, b) == And(b, a)
  {
    forall k: nat ensures Bit(And(a, b), k) == Bit(And(b, a), k) {
      BitAnd(a, b, k);
      BitAnd(b, a, k);
    }
    BitsEqual(And(a, b), And(b, a));
  }

  /** `n & (2^w - 1)` fits in `w` bits. */
  lemma AndMaskBound(n: nat, w: nat)
    ensures And(n, Mask(w)) < Pow2(w)
  {
    forall k: nat | k >= w ensures Bit(And(n, Mask(w)), k) == 0 {
      BitAndMask(n, w, k);
    }
    BelowFromBits(And(n, Mask(w)), w);
  }

  /** A number that fits in `w` bits is unchanged by the mask `2^w - 1`. */
  lemma AndMaskSmall(n: nat, w: nat)
    requires n < Pow2(w)
    ensures And(n, Mask(w)) == n
  {
    forall k: nat ensures Bit(And(n, Mask(w)), k) == Bit(n, k) {
      BitAndMask(n, w, k);
      if k >= w { BitAboveWidth(n, w, k); }
    }
    BitsEqual(And(n, Mask(w)), n);
  }
}
