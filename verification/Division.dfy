/** Facts about quotients and remainders of natural numbers. */
module Division {

  lemma DivUnique(x: nat, d: nat, q: nat, r: nat)
    requires x == q * d + r && r < d
    ensures x / d == q && x % d == r
  {
    var q', r' := x / d, x % d;
    assert (q' - q) * d == q' * d - q * d == r - r';
    SmallMultiple(q' - q, d);
  }

  lemma SmallMultiple(z: int, d: int)
    requires -d < z * d < d
    ensures z == 0
  {
    assert z >= 1 ==> z * d >= d;
    assert z <= -1 ==> z * d <= -d;
  }

  lemma DivPlus(x: nat, d: nat)
    requires d > 0
    ensures (x + d) / d == x / d + 1 && (x + d) % d == x % d
  {
    var q := x / d;
    assert (q + 1) * d == q * d + d;
    DivUnique(x + d, d, q + 1, x % d);
  }

  lemma MulDivMod(k: nat, d: nat)
    requires d > 0
    ensures k * d >= 0 && k * d / d == k && k * d % d == 0
  {
    DivUnique(k * d, d, k, 0);
  }

  /** The block an offset lies in begins at `off / d * d`. */
  lemma DivMod(off: nat, d: nat)
    requires d > 0
    ensures 0 <= off / d * d <= off == off / d * d + off % d < off / d * d + d
    ensures off / d * d % d == 0 && off / d * d / d == off / d
  {
    MulDivMod(off / d, d);
  }

  lemma AtMostZero(z: int, d: int)
    requires z * d < d && d > 0
    ensures z <= 0
  {
    assert z >= 1 ==> z * d >= d;
  }

  lemma QuotientMonotone(m: nat, n: nat, d: nat)
    requires d > 0 && m <= n
    ensures m / d <= n / d && m / d * d <= n / d * d
  {
    DivMod(m, d);
    DivMod(n, d);
    var a, b := m / d, n / d;
    assert (a - b) * d == a * d - b * d;
    AtMostZero(a - b, d);
  }

  lemma NextMultiple(a: int, b: int, d: int)
    requires a * d < b * d && d > 0
    ensures a * d + d <= b * d
  {
    assert (a - b + 1) * d == a * d - b * d + d;
    AtMostZero(a - b + 1, d);
    assert (b - a) * d == b * d - a * d;
    AtLeast(b - a, d);
  }

  lemma AtLeast(z: int, d: int)
    requires z >= 1 && d > 0
    ensures z * d >= d
  {
  }

  // ----- Whole blocks -----------------------------------------------------------------------

  /** The bytes in `k` blocks of `n`. */
  function Span(k: nat, n: nat): nat {
    k * n
  }

  lemma SpanNone(n: nat)
    ensures Span(0, n) == 0
  {
  }

  lemma SpanNext(k: nat, n: nat)
    requires k > 0
    ensures Span(k, n) == n + Span(k - 1, n)
  {
  }

  lemma SpanSplit(k: nat, m: nat, n: nat)
    requires m <= k
    ensures Span(k, n) == Span(m, n) + Span(k - m, n)
  {
  }
}
