/** Unsigned words as naturals: a left shift by `k` multiplies by `Pow2(k)`, a right shift divides,
    a mask keeps a remainder, and `|` is written out digit by digit. */
module Bits {
  import opened Division

  function Pow2(k: nat): (p: nat)
    ensures p > 0
  {
    if k == 0 then 1 else 2 * Pow2(k - 1)
  }

  function BitOr(a: nat, b: nat): nat {
    if a == 0 && b == 0 then 0
    else (if a % 2 + b % 2 == 0 then 0 else 1) + 2 * BitOr(a / 2, b / 2)
  }

  lemma {:induction false} Pow2Plus(j: nat, k: nat)
    ensures Pow2(j + k) == Pow2(j) * Pow2(k)
  {
    if j > 0 {
      Pow2Plus(j - 1, k);
      assert Pow2(j + k) == 2 * Pow2(j - 1 + k);
      assert Pow2(j) * Pow2(k) == 2 * (Pow2(j - 1) * Pow2(k));
    }
  }

  lemma {:induction false} Pow2Monotone(j: nat, k: nat)
    requires j <= k
    ensures Pow2(j) <= Pow2(k)
    decreases k
  {
    if j < k { Pow2Monotone(j, k - 1); }
  }

  // ----- Division by powers of two --------------------------------------------------------------

  function Shl(a: nat, k: nat): nat {
    a * Pow2(k)
  }

  function Shr(a: nat, k: nat): nat {
    Quotient(a, Pow2(k))
  }

  function Quotient(a: nat, d: nat): nat
    requires d > 0
  {
    a / d
  }

  /** The `k` low bits. */
  function Mask(a: nat, k: nat): nat {
    a % Pow2(k)
  }

  lemma SplitIs(a: nat, k: nat)
    ensures a == Shl(Shr(a, k), k) + Mask(a, k) && Mask(a, k) < Pow2(k)
  {
  }

  lemma SplitUnique(q: nat, r: nat, k: nat)
    requires r < Pow2(k)
    ensures Shr(Shl(q, k) + r, k) == q && Mask(Shl(q, k) + r, k) == r
  {
    DivUnique(q * Pow2(k) + r, Pow2(k), q, r);
  }

  lemma ShlStep(a: nat, k: nat)
    requires k > 0
    ensures Shl(a, k) == 2 * Shl(a, k - 1) && Pow2(k) == 2 * Pow2(k - 1)
  {
    assert a * Pow2(k) == 2 * (a * Pow2(k - 1));
  }

  /** Splitting off the `k` low bits, one digit at a time. */
  lemma SplitStep(a: nat, k: nat)
    requires k > 0
    ensures Mask(a, k) == a % 2 + 2 * Mask(a / 2, k - 1)
    ensures Shr(a, k) == Shr(a / 2, k - 1)
  {
    SplitIs(a / 2, k - 1);
    ShlStep(Shr(a / 2, k - 1), k);
    hide Shl, Shr, Mask, Pow2;
    SplitUnique(Shr(a / 2, k - 1), a % 2 + 2 * Mask(a / 2, k - 1), k);
  }

  lemma ShiftUp(b: nat, k: nat)
    ensures Mask(Shl(b, k), k) == 0 && Shr(Shl(b, k), k) == b
  {
    SplitUnique(b, 0, k);
  }

  lemma MaskSmall(a: nat, k: nat)
    requires a < Pow2(k)
    ensures Mask(a, k) == a && Shr(a, k) == 0
  {
    SplitUnique(0, a, k);
  }

  // ----- Or -------------------------------------------------------------------------------------

  lemma OrDigits(a: nat, b: nat)
    ensures BitOr(a, b) % 2 == (if a % 2 + b % 2 == 0 then 0 else 1)
    ensures BitOr(a, b) / 2 == BitOr(a / 2, b / 2)
  {
    LastDigit(if a % 2 + b % 2 == 0 then 0 else 1, BitOr(a / 2, b / 2));
  }

  lemma OrStep(d: nat, c: nat, e: nat, f: nat)
    requires d < 2 && e < 2
    ensures BitOr(d + 2 * c, e + 2 * f) == (if d + e == 0 then 0 else 1) + 2 * BitOr(c, f)
  {
    LastDigit(d, c);
    LastDigit(e, f);
  }

  lemma LastDigit(d: nat, c: nat)
    requires d < 2
    ensures (d + 2 * c) % 2 == d && (d + 2 * c) / 2 == c
  {
  }

  lemma {:induction false} OrZero(b: nat)
    ensures BitOr(0, b) == b && BitOr(b, 0) == b
  {
    if b > 0 { OrZero(b / 2); }
  }

  lemma {:induction false} OrAssoc(a: nat, b: nat, c: nat)
    ensures BitOr(BitOr(a, b), c) == BitOr(a, BitOr(b, c))
    decreases a + b + c
  {
    if a + b + c > 0 {
      OrDigits(a, b);
      OrDigits(b, c);
      OrAssoc(a / 2, b / 2, c / 2);
      OrDigits(BitOr(a, b), c);
      OrDigits(a, BitOr(b, c));
    }
  }

  /** Masks and right shifts go through an or. */
  lemma {:induction false} OrSplit(a: nat, b: nat, k: nat)
    ensures Mask(BitOr(a, b), k) == BitOr(Mask(a, k), Mask(b, k))
    ensures Shr(BitOr(a, b), k) == BitOr(Shr(a, k), Shr(b, k))
    decreases k
  {
    if k == 0 {
      OrZero(0);
    } else {
      hide Shl, Shr, Mask, Pow2, BitOr;
      SplitStep(a, k);
      SplitStep(b, k);
      SplitStep(BitOr(a, b), k);
      OrDigits(a, b);
      OrStep(a % 2, Mask(a / 2, k - 1), b % 2, Mask(b / 2, k - 1));
      OrSplit(a / 2, b / 2, k - 1);
    }
  }

  lemma {:induction false} OrShift(a: nat, b: nat, k: nat)
    ensures BitOr(Shl(a, k), Shl(b, k)) == Shl(BitOr(a, b), k)
    decreases k
  {
    if k > 0 {
      hide Shl, Shr, Mask, Pow2, BitOr;
      OrShift(a, b, k - 1);
      ShlStep(a, k);
      ShlStep(b, k);
      ShlStep(BitOr(a, b), k);
      OrStep(0, Shl(a, k - 1), 0, Shl(b, k - 1));
    }
  }

  lemma ShlTwice(a: nat, j: nat, k: nat)
    ensures Shl(Shl(a, j), k) == Shl(a, j + k)
  {
    Pow2Plus(j, k);
    MulAssoc(a, Pow2(j), Pow2(k));
  }

  lemma MulAssoc(a: nat, b: nat, c: nat)
    ensures a * b * c == a * (b * c)
  {
  }

  /** Bits or-ed in above the `k` low bits leave those alone. */
  lemma OrAbove(a: nat, b: nat, k: nat)
    ensures Mask(BitOr(a, Shl(b, k)), k) == Mask(a, k)
    ensures Shr(BitOr(a, Shl(b, k)), k) == BitOr(Shr(a, k), b)
  {
    hide Shl, Shr, Mask, Pow2, BitOr;
    OrSplit(a, Shl(b, k), k);
    ShiftUp(b, k);
    OrZero(Mask(a, k));
  }

  /** Or-ing in bits above the ones in use adds them. */
  lemma OrIsPlus(a: nat, b: nat, k: nat)
    requires a < Pow2(k)
    ensures BitOr(a, Shl(b, k)) == a + Shl(b, k)
  {
    hide Shl, Shr, Mask, Pow2, BitOr;
    OrAbove(a, b, k);
    MaskSmall(a, k);
    OrZero(b);
    SplitIs(BitOr(a, Shl(b, k)), k);
  }
}
