/**
 * The unsigned 16-bit arithmetic the register uses, on natural numbers.
 *
 * A uint16_t is a Word, a natural number below 2^16. For unsigned operands
 * `x >> 1` is `x / 2` and `x & 1` is `x % 2`; the two-operand `&` and `|` are
 * And and Or below, defined bit by bit from the low end, and `1 << t` is
 * Pow2(t). Bit(x, p) reads bit p, bit 0 being the least significant.
 */
module Bits {

  /** The register's type, uint16_t. */
  type Word = x: nat | x < 0x1_0000

  /** 2^p, the value of `1 << p`. */
  function Pow2(p: nat): (r: nat)
    ensures r >= 1
  {
    if p == 0 then 1 else 2 * Pow2(p - 1)
  }

  lemma {:induction false} Pow2Monotone(p: nat, q: nat)
    requires p <= q
    ensures Pow2(p) <= Pow2(q)
  {
    if p < q {
      Pow2Monotone(p, q - 1);
    }
  }

  lemma Pow2OfTop()
    ensures Pow2(15) == 0x8000 && Pow2(16) == 0x1_0000
  {
    assert Pow2(1) == 2 && Pow2(2) == 4 && Pow2(3) == 8 && Pow2(4) == 0x10;
    assert Pow2(5) == 0x20 && Pow2(6) == 0x40 && Pow2(7) == 0x80 && Pow2(8) == 0x100;
    assert Pow2(9) == 0x200 && Pow2(10) == 0x400 && Pow2(11) == 0x800 && Pow2(12) == 0x1000;
    assert Pow2(13) == 0x2000 && Pow2(14) == 0x4000;
  }

  /** Bit p of x is a 1. */
  predicate Bit(x: nat, p: nat)
  {
    if p == 0 then x % 2 == 1 else Bit(x / 2, p - 1)
  }

  /** Bitwise and. */
  function And(a: nat, b: nat): (r: nat)
    ensures r <= a && r <= b
    decreases a
  {
    if a == 0 || b == 0 then 0
    else 2 * And(a / 2, b / 2) + (if a % 2 == 1 && b % 2 == 1 then 1 else 0)
  }

  /** Bitwise or. */
  function Or(a: nat, b: nat): nat
    decreases a + b
  {
    if a == 0 then b
    else if b == 0 then a
    else 2 * Or(a / 2, b / 2) + (if a % 2 == 1 || b % 2 == 1 then 1 else 0)
  }

  lemma {:induction false} BitOfZero(p: nat)
    ensures !Bit(0, p)
  {
    if p > 0 {
      BitOfZero(p - 1);
    }
  }

  /** A number below 2^p has no bit at p or above. */
  lemma {:induction false} BitAbove(x: nat, p: nat, q: nat)
    requires x < Pow2(p) && p <= q
    ensures !Bit(x, q)
  {
    if p == 0 {
      BitOfZero(q);
    } else {
      BitAbove(x / 2, p - 1, q - 1);
    }
  }

  /** 2^n - 1 has exactly the bits 0 .. n-1. */
  lemma {:induction false} BitOfLowOnes(n: nat, p: nat)
    ensures Bit(Pow2(n) - 1, p) == (p < n)
  {
    if n == 0 {
      BitOfZero(p);
    } else if p > 0 {
      assert (Pow2(n) - 1) / 2 == Pow2(n - 1) - 1;
      BitOfLowOnes(n - 1, p - 1);
    }
  }

  /** 1 << t has bit t only. */
  lemma {:induction false} BitOfPow2(t: nat, p: nat)
    ensures Bit(Pow2(t), p) == (p == t)
  {
    if p == 0 {
    } else if t == 0 {
      BitOfZero(p - 1);
    } else {
      BitOfPow2(t - 1, p - 1);
    }
  }

  lemma {:induction false} BitOfAnd(a: nat, b: nat, p: nat)
    ensures Bit(And(a, b), p) == (Bit(a, p) && Bit(b, p))
  {
    if a == 0 || b == 0 {
      BitOfZero(p);
    } else if p > 0 {
      BitOfAnd(a / 2, b / 2, p - 1);
    }
  }

  lemma {:induction false} BitOfOr(a: nat, b: nat, p: nat)
    ensures Bit(Or(a, b), p) == (Bit(a, p) || Bit(b, p))
  {
    if a == 0 || b == 0 {
      BitOfZero(p);
    } else if p > 0 {
      BitOfOr(a / 2, b / 2, p - 1);
    }
  }

  /** A number is determined by its bits. */
  lemma {:induction false} BitsDetermine(a: nat, b: nat)
    requires forall p: nat :: Bit(a, p) == Bit(b, p)
    ensures a == b
    decreases a + b
  {
    if a + b > 0 {
      assert Bit(a, 0) == Bit(b, 0);
      forall p: nat
        ensures Bit(a / 2, p) == Bit(b / 2, p)
      {
        assert Bit(a, p + 1) == Bit(b, p + 1);
      }
      BitsDetermine(a / 2, b / 2);
    }
  }

  /** Or of two numbers without a common bit is their sum. */
  lemma {:induction false} OrOfDisjoint(a: nat, b: nat)
    requires forall p: nat :: !(Bit(a, p) && Bit(b, p))
    ensures Or(a, b) == a + b
    decreases a + b
  {
    if a != 0 && b != 0 {
      assert !(Bit(a, 0) && Bit(b, 0));
      forall p: nat
        ensures !(Bit(a / 2, p) && Bit(b / 2, p))
      {
        assert !(Bit(a, p + 1) && Bit(b, p + 1));
      }
      OrOfDisjoint(a / 2, b / 2);
    }
  }

  /** Or keeps numbers below a power of two below it: the or of two uint16_t
      values is one. */
  lemma {:induction false} OrBelow(a: nat, b: nat, n: nat)
    requires a < Pow2(n) && b < Pow2(n)
    ensures Or(a, b) < Pow2(n)
    decreases a + b
  {
    if a != 0 && b != 0 {
      OrBelow(a / 2, b / 2, n - 1);
    }
  }

  // ---------------------------------------------------------------------
  // Population count
  // ---------------------------------------------------------------------

  /** The number of 1 bits of x among positions 0 .. n-1. */
  function OnesBelow(x: nat, n: nat): (r: nat)
    ensures r <= n
  {
    if n == 0 then 0 else OnesBelow(x, n - 1) + (if Bit(x, n - 1) then 1 else 0)
  }

  /** The number of 1 bits of a 16-bit value. */
  function Weight(x: nat): nat
  {
    OnesBelow(x, 16)
  }

  /** Counts of numbers that agree on the counted bits are equal. */
  lemma {:induction false} OnesBelowSameBits(x: nat, y: nat, n: nat)
    requires forall p: nat :: p < n ==> Bit(x, p) == Bit(y, p)
    ensures OnesBelow(x, n) == OnesBelow(y, n)
  {
    if n > 0 {
      OnesBelowSameBits(x, y, n - 1);
    }
  }

  lemma WeightOfZero()
    ensures Weight(0) == 0
  {
    ZeroCount(16);
  }

  lemma {:induction false} ZeroCount(n: nat)
    ensures OnesBelow(0, n) == 0
  {
    if n > 0 {
      ZeroCount(n - 1);
      BitOfZero(n - 1);
    }
  }

  /** The count of the low n+1 bits of x is its low bit plus the count of the
      low n bits of x / 2. */
  lemma {:induction false} OnesBelowShift(x: nat, n: nat)
    ensures OnesBelow(x, n + 1) == OnesBelow(x / 2, n) + (if x % 2 == 1 then 1 else 0)
  {
    if n > 0 {
      OnesBelowShift(x, n - 1);
    }
  }

  /** One step of the popcount loop: the weight of a word is its low bit plus
      the weight of the word shifted right by one. */
  lemma WeightShift(x: Word)
    ensures Weight(x) == Weight(x / 2) + (if x % 2 == 1 then 1 else 0)
  {
    OnesBelowShift(x, 15);
    Pow2OfTop();
    BitAbove(x / 2, 15, 15);
  }

  /** A word has weight 0 exactly when it is 0. */
  lemma {:induction false} WeightZeroIff(x: Word)
    ensures Weight(x) == 0 <==> x == 0
    decreases x
  {
    if x == 0 {
      WeightOfZero();
    } else {
      WeightShift(x);
      if x % 2 == 0 {
        WeightZeroIff(x / 2);
      }
    }
  }

  /** Setting a bit that was clear adds one to every count that covers it. */
  lemma {:induction false} OnesBelowSetBit(m: nat, t: nat, n: nat)
    requires !Bit(m, t)
    ensures OnesBelow(Or(m, Pow2(t)), n) == OnesBelow(m, n) + (if t < n then 1 else 0)
  {
    if n > 0 {
      OnesBelowSetBit(m, t, n - 1);
      BitOfOr(m, Pow2(t), n - 1);
      BitOfPow2(t, n - 1);
    }
  }
}
