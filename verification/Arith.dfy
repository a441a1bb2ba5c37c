/** Powers of two and bitwise-or on numbers. */
module Arith {
  function Pow2(k: nat): (p: nat)
    ensures p >= 1
  {
    if k == 0 then 1 else 2 * Pow2(k - 1)
  }

  lemma {:induction false} Pow2Adds(a: nat, b: nat)
    ensures Pow2(a + b) == Pow2(a) * Pow2(b)
    decreases b
  {
    if b > 0 {
      Pow2Adds(a, b - 1);
      assert Pow2(a + b) == 2 * Pow2(a + b - 1);
      assert Pow2(a) * (2 * Pow2(b - 1)) == 2 * (Pow2(a) * Pow2(b - 1));
    }
  }

  lemma {:induction false} Pow2Grows(a: nat, b: nat)
    requires a <= b
    ensures Pow2(a) <= Pow2(b)
    decreases b - a
  {
    if a < b { Pow2Grows(a + 1, b); }
  }

  /** Bitwise or, digit by digit. */
  function BitOr(a: nat, b: nat): nat
    decreases a + b
  {
    if a == 0 && b == 0 then 0
    else (if a % 2 == 1 || b % 2 == 1 then 1 else 0) + 2 * BitOr(a / 2, b / 2)
  }

  lemma {:induction false} BitOrZero(b: nat)
    ensures BitOr(0, b) == b
  {
    if b > 0 { BitOrZero(b / 2); }
  }

  /** `a` shifted left by `s`. */
  function Scale(a: nat, s: nat): nat {
    a * Pow2(s)
  }

  lemma ScaleStep(a: nat, s: nat)
    ensures Scale(a, s + 1) == 2 * Scale(a, s)
  {
    assert a * (2 * Pow2(s)) == 2 * (a * Pow2(s));
  }

  lemma ScaleSum(a: nat, b: nat, s: nat)
    ensures Scale(a + b, s) == Scale(a, s) + Scale(b, s)
  {}

  lemma ScaleGrows(a: nat, b: nat, s: nat)
    requires a <= b
    ensures Scale(a, s) <= Scale(b, s)
  {}

  lemma MulAssoc(a: nat, b: nat, c: nat)
    ensures (a * b) * c == a * (c * b)
  {}

  lemma ScaleTwice(a: nat, k: nat, s: nat)
    ensures Scale(Scale(a, k), s) == Scale(a, s + k)
  {
    hide Pow2;
    Pow2Adds(s, k);
    MulAssoc(a, Pow2(k), Pow2(s));
  }

  /** Low digits stay in place, the rest moves up. */
  lemma ScaleSplit(low: nat, high: nat, k: nat, s: nat)
    ensures Scale(low + Scale(high, k), s) == Scale(low, s) + Scale(high, s + k)
  {
    hide Scale;
    ScaleSum(low, Scale(high, k), s);
    ScaleTwice(high, k, s);
  }

  /** Or-ing in digits above the ones in use is addition. */
  lemma {:induction false} BitOrAbove(a: nat, b: nat, s: nat)
    requires a < Pow2(s)
    ensures BitOr(a, Scale(b, s)) == a + Scale(b, s)
    decreases s
  {
    if s == 0 {
      BitOrZero(b);
    } else {
      ScaleStep(b, s - 1);
      BitOrAbove(a / 2, b, s - 1);
    }
  }

  lemma Pow64()
    ensures Pow2(7) == 128 && Pow2(63) == 0x8000_0000_0000_0000 && Pow2(64) == 0x1_0000_0000_0000_0000
  {
    assert Pow2(7) == 128;
    assert Pow2(16) == 0x1_0000;
    Pow2Adds(16, 16);
    Pow2Adds(32, 31);
    Pow2Adds(16, 15);
    Pow2Adds(32, 32);
    assert Pow2(15) == 0x8000;
  }
}
