/**
 Machine words as natural numbers: powers of two, the bitwise OR that the C code
 uses to assemble results, and single-bit tests.
 */
module Bits {

  function Pow2(n: nat): (p: nat)
    ensures p >= 1
  {
    if n == 0 then 1 else 2 * Pow2(n - 1)
  }

  const U8: nat := 0x100
  const U32: nat := 0x1_0000_0000
  const U64: nat := 0x1_0000_0000_0000_0000

  /** Bitwise OR of two unsigned words of any width. */
  function Or(a: nat, b: nat): (r: nat)
    decreases a + b
  {
    if a == 0 && b == 0 then 0
    else (if a % 2 == 1 || b % 2 == 1 then 1 else 0) + 2 * Or(a / 2, b / 2)
  }

  predicate Bit(w: nat, k: nat) {
    if k == 0 then w % 2 == 1 else Bit(w / 2, k - 1)
  }

  lemma {:induction false} Pow2Add(a: nat, b: nat)
    ensures Pow2(a + b) == Pow2(a) * Pow2(b)
  {
    if a == 0 {
    } else {
      Pow2Add(a - 1, b);
      assert Pow2(a + b) == 2 * (Pow2(a - 1) * Pow2(b));
    }
  }

  lemma {:induction false} Pow2Monotone(a: nat, b: nat)
    requires a <= b
    ensures Pow2(a) <= Pow2(b)
  {
    if a < b { Pow2Monotone(a, b - 1); }
  }

  lemma Pow2Words()
    ensures Pow2(7) == 128 && Pow2(8) == U8
    ensures Pow2(28) == 0x1000_0000 && Pow2(31) == 0x8000_0000
    ensures Pow2(32) == U32 && Pow2(63) == 0x8000_0000_0000_0000 && Pow2(64) == U64
  {
    assert Pow2(4) == 16;
    assert Pow2(7) == 128 && Pow2(3) == 8;
    assert Pow2(8) == 256;
    assert Pow2(14) == 0x4000 by { Pow2Add(7, 7); }
    assert Pow2(28) == 0x1000_0000 by { Pow2Add(14, 14); }
    assert Pow2(31) == 0x8000_0000 by { Pow2Add(28, 3); }
    assert Pow2(63) == 0x8000_0000_0000_0000 by { Pow2Add(31, 32); }
  }

  lemma {:induction false} OrZero(b: nat)
    ensures Or(0, b) == b
  {
    if b != 0 { OrZero(b / 2); }
  }

  /** Where the operands share no bit position, OR is addition. */
  lemma {:induction false} OrDisjoint(a: nat, b: nat, k: nat)
    requires a < Pow2(k)
    ensures Or(a, b * Pow2(k)) == a + b * Pow2(k)
  {
    if k == 0 {
      OrZero(b);
    } else {
      var high := b * Pow2(k - 1);
      assert b * Pow2(k) == 2 * high;
      OrDisjoint(a / 2, b, k - 1);
      assert (2 * high) / 2 == high && (2 * high) % 2 == 0;
    }
  }

  lemma {:induction false} OrBit(a: nat, b: nat, k: nat)
    ensures Bit(Or(a, b), k) == (Bit(a, k) || Bit(b, k))
  {
    var r := Or(a, b);
    if a == 0 && b == 0 {
      ZeroHasNoBits(k);
    } else {
      assert r / 2 == Or(a / 2, b / 2);
      if k > 0 { OrBit(a / 2, b / 2, k - 1); }
    }
  }

  lemma {:induction false} ZeroHasNoBits(k: nat)
    ensures !Bit(0, k)
  {
    if k > 0 { ZeroHasNoBits(k - 1); }
  }

  /** `1 << j` has exactly the bit j. */
  lemma {:induction false} PowerBit(j: nat, k: nat)
    ensures Bit(Pow2(j), k) == (j == k)
  {
    if j == 0 {
      if k > 0 { ZeroHasNoBits(k - 1); }
    } else {
      assert Pow2(j) / 2 == Pow2(j - 1) && Pow2(j) % 2 == 0;
      if k > 0 { PowerBit(j - 1, k - 1); }
    }
  }

  /** Exactly the n lowest bits of w are set. */
  ghost predicate FullMask(w: nat, n: nat) {
    forall k: nat :: Bit(w, k) <==> k < n
  }

  lemma {:induction false} MaskIsFull(n: nat)
    ensures FullMask(Pow2(n) - 1, n)
  {
    if n == 0 {
      forall k: nat ensures !Bit(0, k) { ZeroHasNoBits(k); }
    } else {
      MaskIsFull(n - 1);
      var w := Pow2(n) - 1;
      assert w / 2 == Pow2(n - 1) - 1 && w % 2 == 1;
      forall k: nat ensures Bit(w, k) <==> k < n {
        if k > 0 { assert Bit(w, k) == Bit(w / 2, k - 1); }
      }
    }
  }

  /** A word equals the mask of its n lowest bits exactly when those bits and no others are set. */
  lemma {:induction false} FullMaskIsMask(w: nat, n: nat)
    requires FullMask(w, n)
    ensures w == Pow2(n) - 1
  {
    if n == 0 {
      NoBitsMeansZero(w);
    } else {
      forall k: nat ensures Bit(w / 2, k) <==> k < n - 1 {
        assert Bit(w, k + 1) == Bit(w / 2, k);
      }
      FullMaskIsMask(w / 2, n - 1);
      assert Bit(w, 0);
    }
  }

  lemma {:induction false} NoBitsMeansZero(w: nat)
    requires forall k: nat :: !Bit(w, k)
    ensures w == 0
  {
    if w != 0 {
      assert !Bit(w, 0);
      forall k: nat ensures !Bit(w / 2, k) {
        assert !Bit(w, k + 1);
      }
      NoBitsMeansZero(w / 2);
    }
  }
}
