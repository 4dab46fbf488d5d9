/** Bitwise operations of unsigned machine words, as functions of natural numbers. */
module Bits {

  function Pow2(n: nat): (p: nat)
    ensures p > 0
  {
    if n == 0 then 1 else 2 * Pow2(n - 1)
  }

  lemma NextPow2(n: nat)
    ensures Pow2(n + 1) == 2 * Pow2(n)
  {
  }

  function And(a: nat, b: nat): (r: nat)
    decreases a
  {
    if a == 0 || b == 0 then 0
    else 2 * And(a / 2, b / 2) + (if a % 2 == 1 && b % 2 == 1 then 1 else 0)
  }

  function Or(a: nat, b: nat): (r: nat)
    decreases a
  {
    if a == 0 then b else if b == 0 then a
    else 2 * Or(a / 2, b / 2) + (if a % 2 == 1 || b % 2 == 1 then 1 else 0)
  }

  /** `high` consecutive bits above `low` others. */
  function Mask(high: nat, low: nat): (r: nat) {
    if low > 0 then 2 * Mask(high, low - 1)
    else if high > 0 then 2 * Mask(high - 1, 0) + 1
    else 0
  }

  lemma {:induction false} MaskValue(high: nat, low: nat)
    ensures Mask(high, low) == (Pow2(high) - 1) * Pow2(low)
  {
    if low > 0 {
      MaskValue(high, low - 1);
    } else if high > 0 {
      MaskValue(high - 1, 0);
    }
  }

  lemma {:induction false} AndBits(a: nat, b: nat)
    ensures And(a, b) / 2 == And(a / 2, b / 2) && And(a, b) % 2 == (if a % 2 == 1 && b % 2 == 1 then 1 else 0)
  {
  }

  lemma {:induction false} OrBits(a: nat, b: nat)
    ensures Or(a, b) / 2 == Or(a / 2, b / 2) && Or(a, b) % 2 == (if a % 2 == 1 || b % 2 == 1 then 1 else 0)
  {
  }

  lemma Zeros(a: nat)
    ensures And(a, 0) == 0 && And(0, a) == 0 && Or(a, 0) == a && Or(0, a) == a
  {
  }

  lemma {:induction false} AndOverOr(a: nat, b: nat, m: nat)
    ensures And(Or(a, b), m) == Or(And(a, m), And(b, m))
    decreases m
  {
    if m > 0 {
      AndOverOr(a / 2, b / 2, m / 2);
      OrBits(a, b);
      AndBits(a, m);
      AndBits(b, m);
      AndBits(Or(a, b), m);
      OrBits(And(a, m), And(b, m));
    }
  }

  lemma {:induction false} AndTwice(a: nat, m: nat, n: nat)
    ensures And(And(a, m), n) == And(a, And(m, n))
    decreases n
  {
    if n > 0 {
      AndTwice(a / 2, m / 2, n / 2);
      AndBits(a, m);
      AndBits(m, n);
      AndBits(And(a, m), n);
      AndBits(a, And(m, n));
    }
  }

  lemma {:induction false} AndSelf(a: nat)
    ensures And(a, a) == a
  {
    if a > 0 {
      AndSelf(a / 2);
    }
  }

  function Low(x: nat, size: nat): (r: nat)
    requires size > 0
  {
    x % size
  }

  lemma EmptyLowMask(x: nat)
    ensures And(x, Mask(0, 0)) == Low(x, Pow2(0))
  {
    Zeros(x);
  }

  lemma LowMaskStep(n: nat)
    ensures Mask(n + 1, 0) == 2 * Mask(n, 0) + 1 && Pow2(n + 1) == 2 * Pow2(n)
  {
  }

  /** A field of the low bits is a remainder. */
  lemma {:induction false} AndLowMask(x: nat, high: nat)
    ensures And(x, Mask(high, 0)) == Low(x, Pow2(high))
  {
    hide And, Low, Mask, Pow2;
    if high == 0 {
      EmptyLowMask(x);
    } else {
      LowMaskStep(high - 1);
      AndLowMask(x / 2, high - 1);
      AndBits(x, Mask(high, 0));
      HalfRemainder(x, Pow2(high - 1));
    }
  }

  lemma HalfRemainder(x: nat, p: nat)
    requires p > 0
    ensures Low(x, 2 * p) == 2 * Low(x / 2, p) + x % 2
  {
    var q, r := x / 2 / p, x / 2 % p;
    assert x == (2 * p) * q + (2 * r + x % 2);
    RemainderIs(x, 2 * p, q, 2 * r + x % 2);
  }

  lemma RemainderIs(x: nat, d: nat, q: nat, r: nat)
    requires r < d && x == d * q + r
    ensures x % d == r && x / d == q
  {
    var k := q - x / d;
    assert d * k == x % d - r;
    if k >= 1 {
      AtLeast(d, k);
    } else if k <= -1 {
      AtLeast(d, -k);
    }
  }

  lemma AtLeast(d: nat, k: nat)
    requires k >= 1
    ensures d * k >= d
  {
  }

  /** The part of x that is a multiple of `unit`, reduced modulo `size` units. */
  function Field(x: nat, unit: nat, size: nat): (r: nat)
    requires unit > 0 && size > 0
  {
    Low(x / unit, size) * unit
  }

  /** A field higher up is a shift down, a remainder, and a shift up. */
  lemma {:induction false} AndMask(x: nat, high: nat, low: nat)
    ensures And(x, Mask(high, low)) == Field(x, Pow2(low), Pow2(high))
  {
    if low == 0 {
      AndLowMask(x, high);
    } else {
      assert Mask(high, low) == 2 * Mask(high, low - 1) && Pow2(low) == 2 * Pow2(low - 1);
      hide And, Field, Mask, Pow2;
      AndMask(x / 2, high, low - 1);
      AndBits(x, Mask(high, low));
      FieldStep(x, Pow2(low - 1), Pow2(high));
    }
  }

  lemma ShiftFurther(x: nat, p: nat)
    requires p > 0
    ensures x / 2 / p == x / (2 * p)
  {
    var q, r := x / 2 / p, x / 2 % p;
    assert x == (2 * p) * q + (2 * r + x % 2);
    RemainderIs(x, 2 * p, q, 2 * r + x % 2);
  }

  lemma FieldStep(x: nat, p: nat, h: nat)
    requires p > 0 && h > 0
    ensures Field(x, 2 * p, h) == 2 * Field(x / 2, p, h)
  {
    ShiftFurther(x, p);
    Doubling(Low(x / 2 / p, h), p);
  }

  lemma Doubling(a: nat, p: nat)
    ensures a * (2 * p) == 2 * (a * p)
  {
  }
}
