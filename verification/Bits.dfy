/** The bit operations of C on unsigned numbers, bit by bit. */
module Bits {

  function BitAnd(a: nat, b: nat): nat {
    if a == 0 || b == 0 then 0 else 2 * BitAnd(a / 2, b / 2) + if a % 2 == 1 && b % 2 == 1 then 1 else 0
  }

  function BitOr(a: nat, b: nat): nat
    decreases a + b
  {
    if a == 0 then b
    else if b == 0 then a
    else 2 * BitOr(a / 2, b / 2) + if a % 2 == 1 || b % 2 == 1 then 1 else 0
  }

  function ShiftLeft(a: nat, k: nat): nat {
    if k == 0 then a else 2 * ShiftLeft(a, k - 1)
  }

  function ShiftRight(a: nat, k: nat): nat {
    if k == 0 then a else ShiftRight(a / 2, k - 1)
  }

  function LowBits(a: nat, k: nat): nat {
    if k == 0 then 0 else 2 * LowBits(a / 2, k - 1) + a % 2
  }

  function Mask(k: nat): nat {
    if k == 0 then 0 else 2 * Mask(k - 1) + 1
  }

  lemma AndBit(a: nat, b: nat)
    ensures BitAnd(a, b) == 2 * BitAnd(a / 2, b / 2) + if a % 2 == 1 && b % 2 == 1 then 1 else 0
  {
  }

  lemma OrBit(a: nat, b: nat)
    ensures BitOr(a, b) == 2 * BitOr(a / 2, b / 2) + if a % 2 == 1 || b % 2 == 1 then 1 else 0
  {
  }

  lemma {:induction false} AndMask(a: nat, k: nat)
    ensures BitAnd(a, Mask(k)) == LowBits(a, k)
  {
    if k > 0 {
      AndMask(a / 2, k - 1);
      AndBit(a, Mask(k));
    }
  }

  lemma Unshifted(a: nat)
    ensures ShiftLeft(a, 0) == a && Mask(0) == 0
  {
  }

  lemma OneMore(a: nat, k: nat)
    ensures ShiftLeft(a, k + 1) == 2 * ShiftLeft(a, k) && ShiftRight(a, k + 1) == ShiftRight(a / 2, k)
    ensures LowBits(a, k + 1) == 2 * LowBits(a / 2, k) + a % 2 && Mask(k + 1) == 2 * Mask(k) + 1
  {
  }

  /** The low `k` bits and the bits above them do not meet. */
  lemma {:induction false} OrSplits(a: nat, b: nat, low: nat, k: nat)
    requires ShiftRight(low, k) == 0
    ensures BitOr(ShiftLeft(a, k) + low, ShiftLeft(b, k)) == ShiftLeft(BitOr(a, b), k) + low
  {
    hide BitOr, ShiftLeft;
    if k == 0 {
      Unshifted(a);
      Unshifted(b);
      Unshifted(BitOr(a, b));
    } else {
      OneMore(a, k - 1);
      OneMore(b, k - 1);
      OneMore(BitOr(a, b), k - 1);
      OrSplits(a, b, low / 2, k - 1);
      OrBit(ShiftLeft(a, k) + low, ShiftLeft(b, k));
    }
  }

  lemma {:induction false} AndSplits(a: nat, b: nat, low: nat, k: nat)
    requires ShiftRight(low, k) == 0
    ensures BitAnd(ShiftLeft(a, k) + low, ShiftLeft(b, k) + Mask(k)) == ShiftLeft(BitAnd(a, b), k) + low
  {
    hide BitAnd, ShiftLeft, Mask;
    if k == 0 {
      Unshifted(a);
      Unshifted(b);
      Unshifted(BitAnd(a, b));
    } else {
      OneMore(a, k - 1);
      OneMore(b, k - 1);
      OneMore(BitAnd(a, b), k - 1);
      AndSplits(a, b, low / 2, k - 1);
      AndBit(ShiftLeft(a, k) + low, ShiftLeft(b, k) + Mask(k));
    }
  }

  lemma {:induction false} OrCommutes(a: nat, b: nat)
    ensures BitOr(a, b) == BitOr(b, a)
    decreases a + b
  {
    if a != 0 && b != 0 {
      OrCommutes(a / 2, b / 2);
    }
  }

  /** Bits above the low `k` and bits below are put side by side. */
  lemma OrIsSum(high: nat, low: nat, k: nat)
    requires ShiftRight(low, k) == 0
    ensures BitOr(ShiftLeft(high, k), low) == BitOr(low, ShiftLeft(high, k)) == ShiftLeft(high, k) + low
  {
    OrSplits(0, high, low, k);
    OrCommutes(low, ShiftLeft(high, k));
    ZeroShifted(k);
  }

  lemma {:induction false} ZeroShifted(k: nat)
    ensures ShiftLeft(0, k) == 0
  {
    if k > 0 {
      ZeroShifted(k - 1);
    }
  }

  // The widths in use.

  lemma ThreeMore(a: nat, k: nat)
    ensures ShiftLeft(a, k + 3) == 8 * ShiftLeft(a, k) && ShiftRight(a, k + 3) == ShiftRight(a / 8, k)
    ensures LowBits(a, k + 3) == 8 * LowBits(a / 8, k) + a % 8 && Mask(k + 3) == 8 * Mask(k) + 7
  {
    hide ShiftLeft, ShiftRight, LowBits, Mask;
    OneMore(a, k + 2);
    OneMore(a, k + 1);
    OneMore(a, k);
    OneMore(a / 2, k + 1);
    OneMore(a / 2 / 2, k);
    assert a / 8 == a / 2 / 2 / 2;
  }

  lemma FewBits(a: nat)
    ensures ShiftLeft(a, 3) == 8 * a && ShiftLeft(a, 4) == 16 * a && ShiftLeft(a, 5) == 32 * a
    ensures ShiftRight(a, 3) == a / 8 && ShiftRight(a, 4) == a / 16 && ShiftRight(a, 5) == a / 32
  {
    ThreeMore(a, 0);
    ThreeMore(a / 2, 0);
    ThreeMore(a / 2 / 2, 0);
    OneMore(a, 3);
    OneMore(a, 4);
    OneMore(a / 2, 3);
  }

  lemma SixBits(a: nat)
    ensures ShiftLeft(a, 6) == 64 * a && ShiftRight(a, 6) == a / 64 && LowBits(a, 6) == a % 64 && Mask(6) == 63
  {
    ThreeMore(a, 3);
    ThreeMore(a, 0);
    ThreeMore(a / 8, 0);
  }

  lemma EightBits(a: nat)
    ensures ShiftLeft(a, 8) == 256 * a && ShiftRight(a, 8) == a / 256 && LowBits(a, 8) == a % 256 && Mask(8) == 255
  {
    hide ShiftLeft, ShiftRight, LowBits, Mask;
    OneMore(a, 7);
    OneMore(a, 6);
    OneMore(a / 2, 6);
    SixBits(a);
    SixBits(a / 2 / 2);
  }

  lemma TenBits(a: nat)
    ensures ShiftLeft(a, 10) == 1024 * a && ShiftRight(a, 10) == a / 1024 && LowBits(a, 10) == a % 1024
    ensures Mask(10) == 1023
  {
    hide ShiftLeft, ShiftRight, LowBits, Mask;
    OneMore(a, 9);
    OneMore(a, 8);
    OneMore(a / 2, 8);
    EightBits(a);
    EightBits(a / 2 / 2);
  }

  lemma SevenBits(a: nat)
    ensures LowBits(a, 7) == a % 128 && Mask(7) == 127
  {
    OneMore(a, 6);
    SixBits(a / 2);
  }
}
