/** Multiplication and division facts used by every index computation. */
module Arith {

  function Min(a: nat, b: nat): nat { if a < b then a else b }

  lemma MulMono(a: int, b: int, c: int)
    requires a <= b && 0 <= c
    ensures a * c <= b * c
  {}

  lemma MulNonNeg(a: int, b: int)
    requires 0 <= a && 0 <= b
    ensures 0 <= a * b
  {}

  lemma Distrib(a: int, b: int, c: int)
    ensures (a + b) * c == a * c + b * c
    ensures (a - b) * c == a * c - b * c
  {}

  lemma Assoc(a: int, b: int, c: int)
    ensures (a * b) * c == a * (b * c)
  {}

  /** A quotient and remainder by d are determined by their value. */
  lemma SameQuotient(d: int, q: int, r: int, q': int, r': int)
    requires 0 <= r < d && 0 <= r' < d && q * d + r == q' * d + r'
    ensures q == q' && r == r'
  {
    if q < q' {
      MulMono(1, q' - q, d);
      Distrib(q', q, d);
    } else if q' < q {
      MulMono(1, q - q', d);
      Distrib(q, q', d);
    }
  }

  lemma DivMod(a: int, d: int)
    requires 0 < d
    ensures (a / d) * d + a % d == a && 0 <= a % d < d
  {}

  lemma DivUnique(a: int, d: int, q: int, r: int)
    requires 0 <= r < d && a == q * d + r
    ensures a / d == q && a % d == r
  {
    DivMod(a, d);
    SameQuotient(d, q, r, a / d, a % d);
  }

  lemma DivBelow(a: int, d: int, q: int)
    requires 0 < d && a < q * d
    ensures a / d < q
  {
    DivMod(a, d);
    if q <= a / d { MulMono(q, a / d, d); }
  }

  lemma DivAtLeast(a: int, d: int, q: int)
    requires 0 < d && q * d <= a
    ensures q <= a / d
  {
    DivMod(a, d);
    if a / d < q {
      MulMono(a / d + 1, q, d);
      Distrib(a / d, 1, d);
    }
  }

  lemma DivNonNeg(a: int, d: int)
    requires 0 <= a && 0 < d
    ensures 0 <= a / d
  {
    DivAtLeast(a, d, 0);
  }

  lemma MulCancelNonNeg(a: int, c: int)
    requires 0 < c && 0 <= a * c
    ensures 0 <= a
  {
    if a < 0 { MulMono(a, -1, c); }
  }

  /** Division rounded up, written as (length + parts - 1) / parts. */
  function CeilDiv(length: nat, parts: nat): (q: nat)
    requires parts > 0
    ensures length > 0 ==> q > 0
  {
    CeilDivPositive(length, parts);
    (length + parts - 1) / parts
  }

  lemma CeilDivPositive(length: nat, parts: nat)
    requires parts > 0
    ensures 0 <= (length + parts - 1) / parts && (length > 0 ==> (length + parts - 1) / parts > 0)
  {
    DivNonNeg(length + parts - 1, parts);
    if length > 0 { DivAtLeast(length + parts - 1, parts, 1); }
  }

  /** That many parts of length t cover the length, and one fewer does not. */
  lemma CeilDivBounds(length: nat, t: nat)
    requires t > 0
    ensures length <= CeilDiv(length, t) * t < length + t
  {
    DivMod(length + t - 1, t);
  }
}
