/** The few facts about products and quotients of variables that the codecs rely on. */
module Arithmetic {

  lemma MulMono(a: int, b: int, c: int)
    requires a <= b && c >= 0
    ensures a * c <= b * c
  {
  }

  lemma DivIsQuotient(a: int, b: int)
    requires b > 0
    ensures a / b * b + a % b == a
    ensures 0 <= a % b < b
  {
  }

  /** A quotient is at most q exactly when the dividend stays below (q + 1) * b. */
  lemma DivAtMost(a: int, b: int, q: int)
    requires b > 0
    ensures a / b <= q <==> a < (q + 1) * b
    ensures q <= a / b <==> q * b <= a
  {
    DivIsQuotient(a, b);
    if a / b <= q {
      MulMono(a / b, q, b);
    } else {
      MulMono(q + 1, a / b, b);
    }
    if q <= a / b {
      MulMono(q, a / b, b);
    } else {
      MulMono(a / b + 1, q, b);
    }
  }

  lemma DivNat(a: int, b: int)
    requires a >= 0 && b > 0
    ensures 0 <= a / b <= a
  {
    DivAtMost(a, b, 0);
    DivAtMost(a, b, a);
    MulMono(1, b, a);
  }

  /** Quotient and remainder are determined by their defining equation. */
  lemma DivModUnique(a: int, b: int, q: int, r: int)
    requires b > 0 && 0 <= r < b && a == q * b + r
    ensures a / b == q && a % b == r
  {
    DivAtMost(a, b, q);
    DivIsQuotient(a, b);
  }
}
