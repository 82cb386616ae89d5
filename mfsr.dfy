/**
 * Majority Feedback Shift Register on a 16-bit register.
 *
 * Each step shifts the register right by one bit and inserts at the top
 * (bit 15) the INVERTED majority of the register's bits at an odd number of
 * distinct tap positions: 1 when the tapped zeros win, 0 when the tapped
 * ones win.
 *
 * The specification functions (TapMask, CountTapped, Vote, Step) and the
 * lemmas that say what they mean come first; the three operations of the C
 * program (PopCount, MajorityVote, Mfsr) follow and are proved against them.
 */
module Mfsr {
  import opened Bits

  // ---------------------------------------------------------------------
  // Tap configurations
  // ---------------------------------------------------------------------

  /** Every tap is a bit position of the register, 0 .. 15. */
  predicate InRange(taps: seq<int>)
  {
    forall j :: 0 <= j < |taps| ==> 0 <= taps[j] < 16
  }

  /** No bit position is tapped twice. */
  predicate Distinct(taps: seq<int>)
  {
    forall i, j :: 0 <= i < j < |taps| ==> taps[i] != taps[j]
  }

  /** What the vote asks of its callers: distinct positions in 0 .. 15, and an
      odd number of them so that the vote cannot tie. */
  predicate ValidTaps(taps: seq<int>)
  {
    InRange(taps) && Distinct(taps) && |taps| % 2 == 1
  }

  /** The mask with a 1 at each tap position, or-ed in the order of the taps. */
  function TapMask(taps: seq<int>): (r: Word)
    requires InRange(taps)
  {
    if |taps| == 0 then 0
    else
      var init, t := TapMask(taps[..|taps| - 1]), taps[|taps| - 1];
      Pow2OfTop();
      Pow2Monotone(t, 15);
      OrBelow(init, Pow2(t), 16);
      Or(init, Pow2(t))
  }

  /** Bit p of the mask is set exactly when p is one of the taps. */
  lemma {:induction false} TapMaskBits(taps: seq<int>)
    requires InRange(taps)
    ensures forall p: nat :: Bit(TapMask(taps), p) <==> p in taps
  {
    if |taps| == 0 {
      forall p: nat
        ensures !Bit(0, p)
      {
        BitOfZero(p);
      }
    } else {
      var init, t := taps[..|taps| - 1], taps[|taps| - 1];
      assert taps == init + [t];
      TapMaskBits(init);
      forall p: nat
        ensures Bit(TapMask(taps), p) <==> p in taps
      {
        BitOfOr(TapMask(init), Pow2(t), p);
        BitOfPow2(t, p);
      }
    }
  }

  /** How many of the taps see the bit value b in x. */
  function CountTapped(x: nat, taps: seq<int>, b: bool): (r: nat)
    requires InRange(taps)
    ensures r <= |taps|
  {
    if |taps| == 0 then 0
    else CountTapped(x, taps[..|taps| - 1], b) + (if Bit(x, taps[|taps| - 1]) == b then 1 else 0)
  }

  /** Every tap sees either a 1 or a 0. */
  lemma {:induction false} OnesPlusZeros(x: nat, taps: seq<int>)
    requires InRange(taps)
    ensures CountTapped(x, taps, true) + CountTapped(x, taps, false) == |taps|
  {
    if |taps| > 0 {
      OnesPlusZeros(x, taps[..|taps| - 1]);
    }
  }

  /** In the all-ones word every tap sees a 1. */
  lemma {:induction false} AllOnesTapped(taps: seq<int>)
    requires InRange(taps)
    ensures CountTapped(0xFFFF, taps, true) == |taps|
  {
    if |taps| > 0 {
      AllOnesTapped(taps[..|taps| - 1]);
      Pow2OfTop();
      BitOfLowOnes(16, taps[|taps| - 1]);
    }
  }

  /** Dropping the last tap keeps a configuration in range and distinct, and
      the dropped tap is not among the others. */
  lemma DropLastTap(taps: seq<int>)
    requires InRange(taps) && Distinct(taps) && |taps| > 0
    ensures InRange(taps[..|taps| - 1]) && Distinct(taps[..|taps| - 1])
    ensures taps[|taps| - 1] !in taps[..|taps| - 1]
  {
  }

  /** Or-ing the bit of a fresh tap t into a mask a adds bit t of x to the
      weight of the masked value. */
  lemma MaskedWeightStep(a: nat, x: nat, t: nat)
    requires t < 16 && !Bit(a, t)
    ensures Weight(And(Or(a, Pow2(t)), x)) == Weight(And(a, x)) + (if Bit(x, t) then 1 else 0)
  {
    var lhs, m := And(Or(a, Pow2(t)), x), And(a, x);
    if Bit(x, t) {
      forall p: nat
        ensures Bit(lhs, p) == Bit(Or(m, Pow2(t)), p)
      {
        BitOfAnd(Or(a, Pow2(t)), x, p);
        BitOfOr(a, Pow2(t), p);
        BitOfOr(m, Pow2(t), p);
        BitOfAnd(a, x, p);
        BitOfPow2(t, p);
      }
      BitsDetermine(lhs, Or(m, Pow2(t)));
      BitOfAnd(a, x, t);
      OnesBelowSetBit(m, t, 16);
    } else {
      forall p: nat
        ensures Bit(lhs, p) == Bit(m, p)
      {
        BitOfAnd(Or(a, Pow2(t)), x, p);
        BitOfOr(a, Pow2(t), p);
        BitOfAnd(a, x, p);
        BitOfPow2(t, p);
      }
      BitsDetermine(lhs, m);
    }
  }

  /** With distinct taps, popcount(mask & x) is the number of taps at which
      x holds a 1. */
  lemma {:induction false} MaskedWeight(x: nat, taps: seq<int>)
    requires InRange(taps) && Distinct(taps)
    ensures Weight(And(TapMask(taps), x)) == CountTapped(x, taps, true)
  {
    if |taps| == 0 {
      WeightOfZero();
    } else {
      var init, t := taps[..|taps| - 1], taps[|taps| - 1];
      DropLastTap(taps);
      TapMaskBits(init);
      MaskedWeight(x, init);
      MaskedWeightStep(TapMask(init), x, t);
    }
  }

  /** A configuration of distinct taps has at most 16 of them: distinct taps
      set distinct bits of a 16-bit mask. */
  lemma TapCountBound(taps: seq<int>)
    requires InRange(taps) && Distinct(taps)
    ensures |taps| <= 16
  {
    MaskedWeight(0xFFFF, taps);
    AllOnesTapped(taps);
  }

  // ---------------------------------------------------------------------
  // The vote and the step
  // ---------------------------------------------------------------------

  /** The feedback bit: 1 minus "more than half of the tapped bits are 1". */
  function Vote(x: nat, taps: seq<int>): (r: nat)
    requires InRange(taps)
    ensures r <= 1
  {
    var majority1 := if Weight(And(TapMask(taps), x)) * 2 > |taps| then 1 else 0;
    1 - majority1
  }

  /** The vote never meets a tie: the tapped ones are at most the taps, and
      twice their number is never the (odd) number of taps. */
  lemma NoTie(x: nat, taps: seq<int>)
    requires ValidTaps(taps)
    ensures Weight(And(TapMask(taps), x)) <= |taps|
    ensures Weight(And(TapMask(taps), x)) * 2 != |taps|
  {
    MaskedWeight(x, taps);
  }

  /** The vote is the inverted majority of the tapped bits: 1 exactly when the
      tapped zeros outnumber the tapped ones, 0 exactly when the ones do. */
  lemma VoteIsInvertedMajority(x: nat, taps: seq<int>)
    requires ValidTaps(taps)
    ensures Vote(x, taps) == 1 <==> CountTapped(x, taps, false) > CountTapped(x, taps, true)
    ensures Vote(x, taps) == 0 <==> CountTapped(x, taps, true) > CountTapped(x, taps, false)
  {
    MaskedWeight(x, taps);
    OnesPlusZeros(x, taps);
  }

  /** The vote reads x only at the tap positions. */
  lemma VoteReadsOnlyTaps(x: nat, y: nat, taps: seq<int>)
    requires InRange(taps)
    requires forall j :: 0 <= j < |taps| ==> Bit(x, taps[j]) == Bit(y, taps[j])
    ensures Vote(x, taps) == Vote(y, taps)
  {
    var m := TapMask(taps);
    TapMaskBits(taps);
    forall p: nat
      ensures Bit(And(m, x), p) == Bit(And(m, y), p)
    {
      BitOfAnd(m, x, p);
      BitOfAnd(m, y, p);
    }
    BitsDetermine(And(m, x), And(m, y));
  }

  /** The new register value built from the new bit v and the old value x,
      `(v << 15) | (x >> 1)`: bits 0 .. 14 are the old bits 1 .. 15 and bit 15
      is v. */
  function Insert(v: nat, x: Word): (r: Word)
    requires v <= 1
    ensures r == v * 0x8000 + x / 2
    ensures r % 0x8000 == x / 2
    ensures forall p: nat :: p < 15 ==> (Bit(r, p) <==> Bit(x, p + 1))
    ensures Bit(r, 15) <==> v == 1
  {
    var r := v * 0x8000 + x / 2;
    InsertIsSum(x, v);
    InsertedBits(x, v, r);
    InsertedLow(x, v, r);
    Or(v * Pow2(15), x / 2)
  }

  /** The next register value: the vote of x inserted above x shifted right by
      one. */
  function Step(x: Word, taps: seq<int>): (r: Word)
    requires InRange(taps)
    ensures r == Vote(x, taps) * 0x8000 + x / 2
    ensures r % 0x8000 == x / 2
    ensures forall p: nat :: p < 15 ==> (Bit(r, p) <==> Bit(x, p + 1))
    ensures Bit(r, 15) <==> Vote(x, taps) == 1
  {
    Insert(Vote(x, taps), x)
  }

  /** Or-ing v << 15 with x >> 1 adds them: they have no bit in common. */
  lemma InsertIsSum(x: Word, v: nat)
    requires v <= 1
    ensures Or(v * Pow2(15), x / 2) == v * 0x8000 + x / 2
  {
    Pow2OfTop();
    var top, low := v * Pow2(15), x / 2;
    forall p: nat
      ensures !(Bit(top, p) && Bit(low, p))
    {
      if v == 0 {
        BitOfZero(p);
      } else {
        BitOfPow2(15, p);
        if p == 15 {
          BitAbove(low, 15, p);
        }
      }
    }
    OrOfDisjoint(top, low);
  }

  /** Below bit 15, v * 2^15 + x / 2 holds x shifted right by one. */
  lemma InsertedLow(x: Word, v: nat, r: nat)
    requires v <= 1 && r == v * 0x8000 + x / 2
    ensures r < 0x1_0000 && r % 0x8000 == x / 2
  {
    var low := x / 2;
    assert low < 0x8000;
    if v == 0 {
      assert r == low;
    } else {
      assert r == 0x8000 + low;
    }
  }

  /** The bits of v * 2^15 + x / 2: the old bits 1 .. 15 of x, and v on top. */
  lemma InsertedBits(x: Word, v: nat, r: nat)
    requires v <= 1 && r == v * 0x8000 + x / 2
    ensures forall p: nat :: p < 15 ==> (Bit(r, p) <==> Bit(x, p + 1))
    ensures Bit(r, 15) <==> v == 1
  {
    Pow2OfTop();
    InsertIsSum(x, v);
    var top, low := v * Pow2(15), x / 2;
    forall p: nat
      ensures Bit(r, p) == ((v == 1 && p == 15) || (p < 15 && Bit(x, p + 1)))
    {
      BitOfOr(top, low, p);
      if v == 0 {
        BitOfZero(p);
      } else {
        BitOfPow2(15, p);
      }
      if p >= 15 {
        BitAbove(low, 15, p);
      }
      assert Bit(low, p) == Bit(x, p + 1);
    }
  }

  /** From the all-zero register no tap sees a 1, so a 1 is shifted in. */
  lemma StepOfZero(taps: seq<int>)
    requires InRange(taps)
    ensures Step(0, taps) == 0x8000
  {
    WeightOfZero();
  }

  /** From the all-ones register every tap sees a 1, so a 0 is shifted in;
      so the all-ones word is not a fixed point either. */
  lemma StepOfAllOnes(taps: seq<int>)
    requires ValidTaps(taps)
    ensures Step(0xFFFF, taps) == 0x7FFF
  {
    MaskedWeight(0xFFFF, taps);
    AllOnesTapped(taps);
  }

  /** With a valid configuration no register value is a fixed point of the
      step: a fixed point would have to be 0 or 0xFFFF, and neither is one. */
  lemma NoFixedPoint(x: Word, taps: seq<int>)
    requires ValidTaps(taps)
    ensures Step(x, taps) != x
  {
    if Step(x, taps) == x {
      if Vote(x, taps) == 0 {
        assert x == 0;
        StepOfZero(taps);
      } else {
        assert x == 0xFFFF;
        StepOfAllOnes(taps);
      }
    }
  }

  /** The first step of the demonstration run: taps 0, 4 and 7 on the seed
      0x95C1 see 1, 0 and 1, the ones win, and a 0 is shifted in. */
  lemma DemoStep()
    ensures Step(0x95C1, [0, 4, 7]) == 0x4AE0
  {
    var taps := [0, 4, 7];
    assert ValidTaps(taps);
    VoteIsInvertedMajority(0x95C1, taps);
    assert taps[..2] == [0, 4] && [0, 4][..1] == [0] && [0][..0] == [];
    // Bit p of x is bit 0 of x shifted right p times.
    assert Bit(0x95C1, 0);
    assert Bit(0x95C1, 4) == Bit(0x4AE0, 3) == Bit(0x2570, 2) == Bit(0x12B8, 1) == Bit(0x95C, 0);
    assert !Bit(0x95C1, 4);
    assert Bit(0x95C1, 7) == Bit(0x4AE0, 6) == Bit(0x2570, 5) == Bit(0x12B8, 4);
    assert Bit(0x12B8, 4) == Bit(0x95C, 3) == Bit(0x4AE, 2) == Bit(0x257, 1) == Bit(0x12B, 0);
    assert Bit(0x95C1, 7);
    assert CountTapped(0x95C1, taps, true) == 2;
    assert CountTapped(0x95C1, taps, false) == 1;
  }

  // ---------------------------------------------------------------------
  // The program's operations
  // ---------------------------------------------------------------------

  /** popcount: counts the 1 bits of x by testing its low bit (x & 1) and
      shifting it right (x >> 1) until nothing is left. */
  method PopCount(x: Word) returns (count: nat)
    ensures count == Weight(x)
    ensures count <= 16
    ensures count == 0 <==> x == 0
  {
    count := 0;
    var y := x;
    while y != 0
      invariant count + Weight(y) == Weight(x)
      decreases y
    {
      WeightShift(y);
      if y % 2 == 1 {
        count := count + 1;
      }
      y := y / 2;
    }
    WeightOfZero();
    WeightZeroIff(x);
  }

  /** majority_vote: builds the tap mask in a loop over the first numTaps taps,
      then returns 1 minus "popcount(mask & x) * 2 > numTaps". */
  method MajorityVote(x: nat, taps: array<int>, numTaps: nat) returns (vote: nat)
    requires numTaps <= taps.Length
    requires InRange(taps[..numTaps])
    ensures vote == Vote(x, taps[..numTaps])
    ensures ValidTaps(taps[..numTaps]) ==>
              (vote == 1 <==> CountTapped(x, taps[..numTaps], false) > CountTapped(x, taps[..numTaps], true))
    ensures ValidTaps(taps[..numTaps]) ==>
              (vote == 0 <==> CountTapped(x, taps[..numTaps], true) > CountTapped(x, taps[..numTaps], false))
  {
    var mask: Word := 0;
    var i := 0;
    while i < numTaps
      invariant i <= numTaps
      invariant mask == TapMask(taps[..i])
    {
      assert taps[..i + 1][..i] == taps[..i];
      assert Or(mask, Pow2(taps[i])) == TapMask(taps[..i + 1]);
      mask := Or(mask, Pow2(taps[i]));
      i := i + 1;
    }
    assert taps[..i] == taps[..numTaps];
    var masked := And(mask, x);
    var ones := PopCount(masked);
    var majority1 := if ones * 2 > numTaps then 1 else 0;
    vote := 1 - majority1;
    if ValidTaps(taps[..numTaps]) {
      VoteIsInvertedMajority(x, taps[..numTaps]);
    }
  }

  /** The register a caller owns and passes by pointer (uint16_t *). */
  class Register {
    var value: Word

    constructor (seed: Word)
      ensures value == seed
    {
      value := seed;
    }
  }

  /** mfsr: one step of the register in place, the vote of the old value
      inserted at bit 15 above the old value shifted right by one. */
  method Mfsr(up: Register, taps: array<int>, numTaps: nat)
    requires numTaps <= taps.Length
    requires InRange(taps[..numTaps])
    modifies up
    ensures up.value == Step(old(up.value), taps[..numTaps])
    ensures up.value % 0x8000 == old(up.value) / 2
    ensures ValidTaps(taps[..numTaps]) ==>
              (Bit(up.value, 15) <==>
                 CountTapped(old(up.value), taps[..numTaps], false) > CountTapped(old(up.value), taps[..numTaps], true))
  {
    var x := up.value;
    ghost var ts := taps[..numTaps];
    var myNewBit := MajorityVote(x, taps, numTaps);
    assert myNewBit == Vote(x, ts);
    var next := Insert(myNewBit, x);
    up.value := next;
  }

  /** The first iteration of the demonstration driver: taps 0, 4, 7 and the
      seed 0x95C1 give 0x4AE0. */
  method DemoFirstStep() returns (next: Word)
    ensures next == 0x4AE0
  {
    var taps := new int[3];
    taps[0], taps[1], taps[2] := 0, 4, 7;
    assert taps[..3] == [0, 4, 7];
    assert InRange(taps[..3]);
    var x := new Register(0x95C1);
    Mfsr(x, taps, 3);
    assert x.value == Step(0x95C1, [0, 4, 7]);
    DemoStep();
    next := x.value;
  }
}
