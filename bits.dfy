/**
 * Go's `int64` bit operations on unbounded integers.
 *
 * A 64-bit word is represented by its unsigned bit pattern, a `nat` below
 * 2^64; `Int64Of` reads that pattern as Go's two's complement `int64`.
 * `Bit` and `Or` are defined by halving, which keeps every proof about them
 * to division and remainder by 2.
 */
module Bits {

  const WordBits: nat := 64

  /** 2^64, one more than the largest 64-bit pattern. */
  const WordLimit: nat := 0x1_0000_0000_0000_0000

  /** 2^63, the first pattern that reads as a negative `int64`. */
  const Int64Limit: nat := 0x8000_0000_0000_0000

  function Pow2(k: nat): (p: nat)
    ensures p >= 1
  {
    if k == 0 then 1 else 2 * Pow2(k - 1)
  }

  /** Bit `k` (0 = least significant) of a non-negative integer. */
  predicate Bit(h: nat, k: nat)
  {
    if k == 0 then h % 2 == 1 else Bit(h / 2, k - 1)
  }

  /** Bitwise OR of two non-negative integers, Go's `|`. */
  function Or(a: nat, b: nat): (r: nat)
    decreases a + b
  {
    if a == 0 && b == 0 then 0
    else 2 * Or(a / 2, b / 2) + (if a % 2 == 1 || b % 2 == 1 then 1 else 0)
  }

  /** The `int64` that a 64-bit pattern stands for (two's complement). */
  function Int64Of(word: nat): (v: int)
    requires word < WordLimit
    ensures -(Int64Limit as int) <= v < Int64Limit
    ensures word < Int64Limit <==> v == word
  {
    if word < Int64Limit then word else word - WordLimit
  }

  /** `Or` sets exactly the bits set in either operand. */
  lemma {:induction false} OrBit(a: nat, b: nat, k: nat)
    ensures Bit(Or(a, b), k) <==> Bit(a, k) || Bit(b, k)
    decreases k
  {
    if k > 0 {
      if a == 0 && b == 0 {
        ZeroHasNoBits(k);
      } else {
        OrBit(a / 2, b / 2, k - 1);
      }
    }
  }

  /** `OrBit` at every position. */
  lemma OrBits(a: nat, b: nat)
    ensures forall k :: Bit(Or(a, b), k) <==> Bit(a, k) || Bit(b, k)
  {
    forall k ensures Bit(Or(a, b), k) <==> Bit(a, k) || Bit(b, k) {
      OrBit(a, b, k);
    }
  }

  lemma NoBits()
    ensures forall k :: !Bit(0, k)
  {
    forall k ensures !Bit(0, k) {
      ZeroHasNoBits(k);
    }
  }

  lemma {:induction false} ZeroHasNoBits(k: nat)
    ensures !Bit(0, k)
  {
    if k > 0 {
      ZeroHasNoBits(k - 1);
    }
  }

  /** The single bit of 2^s is bit s. */
  lemma {:induction false} Pow2Bit(s: nat, k: nat)
    ensures Bit(Pow2(s), k) <==> k == s
    decreases k
  {
    if k == 0 {
    } else if s == 0 {
      assert Pow2(s) / 2 == 0;
      ZeroHasNoBits(k - 1);
    } else {
      assert Pow2(s) / 2 == Pow2(s - 1);
      Pow2Bit(s - 1, k - 1);
    }
  }

  lemma Pow2Bits(s: nat)
    ensures forall k :: Bit(Pow2(s), k) <==> k == s
  {
    forall k ensures Bit(Pow2(s), k) <==> k == s {
      Pow2Bit(s, k);
    }
  }

  /** Or-ing two values below 2^n stays below 2^n. */
  lemma {:induction false} OrBelowPow2(a: nat, b: nat, n: nat)
    requires a < Pow2(n) && b < Pow2(n)
    ensures Or(a, b) < Pow2(n)
    decreases a + b
  {
    if a != 0 || b != 0 {
      assert n > 0;
      OrBelowPow2(a / 2, b / 2, n - 1);
    }
  }

  lemma WordLimitIsPow2()
    ensures Pow2(WordBits) == WordLimit && Pow2(WordBits - 1) == Int64Limit
  {
    Pow2Plus8(0);
    assert Pow2(8) == 0x100;
    Pow2Plus8(8);
    assert Pow2(16) == 0x1_0000;
    Pow2Plus8(16);
    assert Pow2(24) == 0x100_0000;
    Pow2Plus8(24);
    assert Pow2(32) == 0x1_0000_0000;
    Pow2Plus8(32);
    assert Pow2(40) == 0x100_0000_0000;
    Pow2Plus8(40);
    assert Pow2(48) == 0x1_0000_0000_0000;
    Pow2Plus8(48);
    assert Pow2(56) == 0x100_0000_0000_0000;
    Pow2Plus8(55);
    Pow2Plus8(56);
  }

  lemma Pow2Plus8(k: nat)
    ensures Pow2(k + 8) == 0x100 * Pow2(k)
  {
    assert Pow2(k + 8) == 2 * Pow2(k + 7);
    assert Pow2(k + 7) == 2 * Pow2(k + 6);
    assert Pow2(k + 6) == 2 * Pow2(k + 5);
    assert Pow2(k + 5) == 2 * Pow2(k + 4);
    assert Pow2(k + 4) == 2 * Pow2(k + 3);
    assert Pow2(k + 3) == 2 * Pow2(k + 2);
    assert Pow2(k + 2) == 2 * Pow2(k + 1);
  }

  /** A single bit inside a 64-bit word: 2^s for s < 64 is a pattern that reads as itself. */
  lemma Pow2InWord(s: nat)
    requires s < WordBits
    ensures Pow2(s) < WordLimit && Pow2(s) <= Int64Limit
  {
    Pow2Monotone(s, WordBits - 1);
    WordLimitIsPow2();
  }

  /** Or-ing two 64-bit patterns gives a 64-bit pattern. */
  lemma OrInWord(a: nat, b: nat)
    requires a < WordLimit && b < WordLimit
    ensures Or(a, b) < WordLimit
  {
    WordLimitIsPow2();
    OrBelowPow2(a, b, WordBits);
  }

  lemma {:induction false} Pow2Monotone(m: nat, n: nat)
    requires m <= n
    ensures Pow2(m) <= Pow2(n)
    decreases n
  {
    if m < n {
      Pow2Monotone(m, n - 1);
    }
  }

  /** Two values with the same bits are equal: `Bit` determines a value. */
  lemma {:induction false} SameBitsSameValue(a: nat, b: nat)
    requires forall k :: Bit(a, k) <==> Bit(b, k)
    ensures a == b
    decreases a + b
  {
    if a != 0 || b != 0 {
      assert Bit(a, 0) <==> Bit(b, 0);
      forall k: nat ensures Bit(a / 2, k) <==> Bit(b / 2, k) {
        assert Bit(a, k + 1) <==> Bit(b, k + 1);
      }
      SameBitsSameValue(a / 2, b / 2);
    }
  }

  /** A value with no bit at or above n is below 2^n. */
  lemma {:induction false} NoHighBitsBelowPow2(h: nat, n: nat)
    requires forall k :: n <= k ==> !Bit(h, k)
    ensures h < Pow2(n)
    decreases n
  {
    if n == 0 {
      NoBits();
      SameBitsSameValue(h, 0);
    } else {
      forall k | n - 1 <= k ensures !Bit(h / 2, k) {
        assert Bit(h, k + 1) == Bit(h / 2, k);
      }
      NoHighBitsBelowPow2(h / 2, n - 1);
    }
  }
}
