/**
 * Facts about integer division shared by the countdown and the gallery:
 * a quotient and a remainder below the divisor are unique.
 */
module Arithmetic {

  lemma {:induction false} MulAtLeast(k: int, m: int)
    requires k >= 1 && m > 0
    ensures k * m >= m
  {
    if k > 1 {
      MulAtLeast(k - 1, m);
      assert k * m == (k - 1) * m + m;
    }
  }

  /** a * m + ra == b * m + rb with both remainders below m forces equal quotients and remainders. */
  lemma UniqueQuotient(a: int, b: int, ra: int, rb: int, m: int)
    requires m > 0 && 0 <= ra < m && 0 <= rb < m
    requires a * m + ra == b * m + rb
    ensures a == b && ra == rb
  {
    if a > b {
      MulAtLeast(a - b, m);
    } else if a < b {
      MulAtLeast(b - a, m);
    }
  }

  /** Dafny's / and % by m give back any quotient and remainder below m. */
  lemma DivModOf(t: int, q: int, r: int, m: int)
    requires m > 0 && 0 <= r < m && t == q * m + r
    ensures t / m == q && t % m == r
  {
    UniqueQuotient(q, t / m, r, t % m, m);
  }
}
