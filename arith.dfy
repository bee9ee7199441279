/** Facts about integer division and multiplication that the word and
    counting proofs rest on. */
module Arithmetic {

  /** Quotient and remainder are determined by the division equation. */
  lemma DivModUnique(a: int, b: int, q: int, r: int)
    requires b > 0 && a == q * b + r && 0 <= r < b
    ensures a / b == q && a % b == r
  {
    var q', r' := a / b, a % b;
    assert a == q' * b + r';
    if q' > q {
      MulAtLeast(q' - q, b);
      assert false;
    } else if q' < q {
      MulAtLeast(q - q', b);
      assert false;
    }
  }

  /** A product of a positive factor and a positive multiplier is at least the multiplier. */
  lemma MulAtLeast(m: int, b: int)
    requires m >= 1 && b > 0
    ensures m * b >= b
  {
    assert m * b == (m - 1) * b + b;
    MulNonNegative(m - 1, b);
  }

  lemma MulNonNegative(x: int, y: int)
    requires x >= 0 && y >= 0
    ensures x * y >= 0
  {
  }

  /** Dividing by b and then by c is dividing by b * c. */
  lemma DivDiv(a: nat, b: nat, c: nat)
    requires b > 0 && c > 0
    ensures a / (b * c) == (a / b) / c
  {
    var q1, r1 := a / b, a % b;
    DivisionEquation(a, b);
    DivisionEquation(q1, c);
    var q2, r2 := q1 / c, q1 % c;
    NestedDivision(a, b, c, q1, r1, q2, r2);
    DivModUnique(a, b * c, q2, r2 * b + r1);
  }

  /** The algebra of DivDiv: two nested division equations make one. */
  lemma NestedDivision(a: int, b: int, c: int, q1: int, r1: int, q2: int, r2: int)
    requires b > 0 && c > 0
    requires a == q1 * b + r1 && 0 <= r1 < b
    requires q1 == q2 * c + r2 && 0 <= r2 < c
    ensures a == q2 * (b * c) + (r2 * b + r1)
    ensures 0 <= r2 * b + r1 < b * c
  {
    assert q1 * b == q2 * (b * c) + r2 * b by {
      assert (q2 * c + r2) * b == q2 * c * b + r2 * b;
    }
    MulNonNegative(r2, b);
    MulNonNegative(c - 1 - r2, b);
    assert (c - 1 - r2) * b == b * c - b - r2 * b;
  }

  /** If a < m * b then a / b < m. */
  lemma QuotientBound(a: nat, b: nat, m: nat)
    requires b > 0 && a < m * b
    ensures a / b < m
  {
    var q := a / b;
    assert a == q * b + a % b;
    if q >= m {
      MulNonNegative(q - m, b);
      assert false;
    }
  }

  /** The quotient of a non-negative number by a positive one is non-negative. */
  lemma QuotientNonNegative(a: int, b: int)
    requires a >= 0 && b > 0
    ensures a / b >= 0
  {
    var q := a / b;
    assert a == q * b + a % b;
    if q < 0 {
      MulAtLeast(-q, b);
      assert false;
    }
  }

  /** Comparing q * p + r with m * p, for a remainder r below p, compares q with m. */
  lemma ScaledLess(q: int, r: int, m: int, p: int)
    requires p > 0 && 0 <= r < p
    ensures q * p + r < m * p <==> q < m
  {
    if q < m {
      MulNonNegative(m - 1 - q, p);
      assert (m - 1 - q) * p == m * p - p - q * p;
    } else {
      MulNonNegative(q - m, p);
      assert (q - m) * p == q * p - m * p;
    }
  }

  /** The division equation, with the bounds of the remainder. */
  lemma DivisionEquation(a: int, b: int)
    requires b > 0
    ensures a == a / b * b + a % b && 0 <= a % b < b
  {
  }
}
