/**
 * Integer helpers used by the tree relations and the tile sizes:
 * integer power (`math::ipow`) and the binomial coefficient
 * (`math::binomial_coefficient`). Both are computed on unbounded integers.
 */
module IntMath {

  /** b^e */
  function Pow(b: int, e: nat): int
    decreases e
  {
    if e == 0 then 1 else b * Pow(b, e - 1)
  }

  /** C(n, k) by Pascal's rule; 0 when k > n. */
  function Binomial(n: nat, k: nat): nat
    decreases n
  {
    if k == 0 then 1
    else if n == 0 then 0
    else Binomial(n - 1, k - 1) + Binomial(n - 1, k)
  }

  lemma {:induction false} PowPositive(b: int, e: nat)
    requires b > 0
    ensures Pow(b, e) > 0
  {
    if e > 0 {
      PowPositive(b, e - 1);
    }
  }

  lemma {:induction false} PowNonNegative(b: int, e: nat)
    requires b >= 0
    ensures Pow(b, e) >= 0
  {
    if e > 0 {
      PowNonNegative(b, e - 1);
    }
  }

  lemma {:induction false} PowAdd(b: int, e1: nat, e2: nat)
    ensures Pow(b, e1 + e2) == Pow(b, e1) * Pow(b, e2)
  {
    if e1 > 0 {
      PowAdd(b, e1 - 1, e2);
      calc {
        Pow(b, e1 + e2);
        b * Pow(b, e1 - 1 + e2);
        b * (Pow(b, e1 - 1) * Pow(b, e2));
        (b * Pow(b, e1 - 1)) * Pow(b, e2);
      }
    }
  }

  lemma {:induction false} PowMul(b: int, e1: nat, e2: nat)
    ensures Pow(Pow(b, e1), e2) == Pow(b, e1 * e2)
  {
    if e2 > 0 {
      PowMul(b, e1, e2 - 1);
      PowAdd(b, e1, e1 * (e2 - 1));
      assert e1 + e1 * (e2 - 1) == e1 * e2;
    }
  }

  /** 0^e is 0 for every positive exponent. */
  lemma {:induction false} PowZeroBase(e: nat)
    requires e > 0
    ensures Pow(0, e) == 0
  {
  }

  /** Strictly increasing in the exponent for a base above 1. */
  lemma {:induction false} PowStrictlyIncreasing(b: int, e1: nat, e2: nat)
    requires b > 1 && e1 < e2
    ensures Pow(b, e1) < Pow(b, e2)
  {
    PowPositive(b, e2 - 1);
    if e1 < e2 - 1 {
      PowStrictlyIncreasing(b, e1, e2 - 1);
    }
    assert Pow(b, e2) == b * Pow(b, e2 - 1);
  }

  lemma {:induction false} BinomialAbove(n: nat, k: nat)
    requires k > n
    ensures Binomial(n, k) == 0
  {
    if n > 0 {
      BinomialAbove(n - 1, k - 1);
      BinomialAbove(n - 1, k);
    }
  }

  lemma {:induction false} BinomialDiagonal(n: nat)
    ensures Binomial(n, n) == 1
  {
    if n > 0 {
      BinomialDiagonal(n - 1);
      BinomialAbove(n - 1, n);
    }
  }

  /** Euclidean division is unique: x == m * a + b with 0 <= b < m fixes quotient and remainder. */
  lemma DivUnique(x: int, m: int, a: int, b: int)
    requires m > 0 && x == m * a + b && 0 <= b < m
    ensures x / m == a && x % m == b
  {
    var k := x / m - a;
    assert m * k == b - x % m;
    if k > 0 {
      MulAtLeast(m, k);
      assert false;
    } else if k < 0 {
      MulAtLeast(m, -k);
      assert false;
    }
  }

  lemma MulAtLeast(m: int, k: int)
    requires m > 0 && k >= 1
    ensures m * k >= m
  {
  }
}
