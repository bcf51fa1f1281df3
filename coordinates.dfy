/**
 * Coordinates of the cells of a square tile of side c: the cube test, the
 * linear index i + c * j + c^2 * k (in any number of axes) and its inverse for
 * one, two and three axes.
 */
module Coordinates {
  import opened IntMath
  import opened Boxes

  /** Every coordinate of x lies in [a, b]. */
  predicate InCube(x: seq<int>, a: int, b: int)
  {
    forall d :: 0 <= d < |x| ==> a <= x[d] <= b
  }

  lemma Cube1(y: seq<int>, a: int, b: int)
    requires |y| == 1
    ensures InCube(y, a, b) <==> a <= y[0] <= b
  {
  }

  lemma Cube2(y: seq<int>, a: int, b: int)
    requires |y| == 2
    ensures InCube(y, a, b) <==> a <= y[0] <= b && a <= y[1] <= b
  {
    if a <= y[0] <= b && a <= y[1] <= b {
      forall d | 0 <= d < 2 ensures a <= y[d] <= b {
        if d == 0 {} else {}
      }
    }
  }

  lemma Cube3(y: seq<int>, a: int, b: int)
    requires |y| == 3
    ensures InCube(y, a, b) <==> a <= y[0] <= b && a <= y[1] <= b && a <= y[2] <= b
  {
    if a <= y[0] <= b && a <= y[1] <= b && a <= y[2] <= b {
      forall d | 0 <= d < 3 ensures a <= y[d] <= b {
        if d == 0 {} else if d == 1 {} else {}
      }
    }
  }

  lemma CubeWithin(y: seq<int>, a: int, b: int, a': int, b': int)
    requires a' <= a && b <= b'
    ensures InCube(y, a, b) ==> InCube(y, a', b')
  {
  }

  /** The box [(a, ..., a), (b, ..., b)] holds each cell of the cube once and has (b - a + 1)^n cells. */
  lemma CubeMultiplicity(n: nat, a: int, b: int, y: seq<int>)
    ensures multiset(Box(Constant(n, a), Constant(n, b)))[y] == if |y| == n && InCube(y, a, b) then 1 else 0
    ensures |Box(Constant(n, a), Constant(n, b))| == Pow(Width(a, b), n)
  {
    BoxMultiplicity(Constant(n, a), Constant(n, b), y);
    BoxLength(Constant(n, a), Constant(n, b));
    ConstantVolume(n, a, b);
  }

  lemma {:induction false} ConstantVolume(n: nat, lo: int, hi: int)
    ensures Volume(Constant(n, lo), Constant(n, hi)) == Pow(Width(lo, hi), n)
  {
    if n > 0 {
      assert Init(Constant(n, lo)) == Constant(n - 1, lo);
      assert Init(Constant(n, hi)) == Constant(n - 1, hi);
      ConstantVolume(n - 1, lo, hi);
    }
  }

  // ------------------------------------------------------------------
  // Linear index arithmetic

  /** Linear index of coordinates x in a tile of side c: the sum of x[d] * c^d. */
  function Linear(x: seq<int>, c: int): int
    decreases |x|
  {
    if |x| == 0 then 0 else Linear(Init(x), c) + Last(x) * Pow(c, |x| - 1)
  }

  /** The coordinates of a linear index, as the source computes them for 1, 2 and 3 axes. */
  function Digits(idx: nat, c: nat, n: nat): (r: seq<int>)
    requires 1 <= n <= 3 && (n == 1 || c > 0)
    ensures |r| == n
  {
    if n == 1 then [idx]
    else if n == 2 then [idx % c, idx / c]
    else [idx % c, (idx / c) % c, (idx / c) / c]
  }

  /** Changing coordinate d by delta changes the linear index by delta * c^d. */
  lemma {:induction false} LinearUpdate(x: seq<int>, c: int, d: nat, v: int)
    requires d < |x|
    ensures Linear(x[d := v], c) == Linear(x, c) + (v - x[d]) * Pow(c, d)
    decreases |x|
  {
    var y := x[d := v];
    if d == |x| - 1 {
      assert Init(y) == Init(x);
    } else {
      assert Init(y) == Init(x)[d := v];
      LinearUpdate(Init(x), c, d, v);
      assert Last(y) == Last(x);
    }
  }

  /** Coordinates inside a tile of side c have a linear index in [0, c^|x|). */
  lemma {:induction false} LinearBelow(x: seq<int>, c: nat)
    requires InCube(x, 0, c - 1)
    ensures 0 <= Linear(x, c) < Pow(c, |x|)
    decreases |x|
  {
    if |x| > 0 {
      var xi, p := Init(x), Pow(c, |x| - 1);
      assert InCube(xi, 0, c - 1) by {
        assert forall d :: 0 <= d < |x| - 1 ==> xi[d] == x[d];
      }
      LinearBelow(xi, c);
      BelowStep(Linear(xi, c), Last(x), p, c);
    }
  }

  /** One more digit below c on top of an index below p stays below c * p. */
  lemma BelowStep(a: int, l: int, p: int, c: int)
    requires 0 <= a < p && 0 <= l <= c - 1
    ensures 0 <= a + l * p < c * p
  {
    MulLe(l, c - 1, p);
    MulLe(0, l, p);
    assert (c - 1) * p + p == c * p;
  }

  /** Digits and linear index are inverse on the cells of the tile. */
  lemma LinearOfDigits(idx: nat, c: nat, n: nat)
    requires 1 <= n <= 3 && idx < Pow(c, n)
    ensures c > 0
    ensures InCube(Digits(idx, c, n), 0, c - 1)
    ensures Linear(Digits(idx, c, n), c) == idx
  {
    PowSmall(c);
    if c == 0 {
      assert false;
    }
    if n == 1 {
      LinearSmall([idx], c);
    } else if n == 2 {
      LinearOfDigits2(idx, c);
    } else {
      LinearOfDigits3(idx, c);
    }
  }

  lemma LinearOfDigits2(idx: nat, c: nat)
    requires c > 0 && idx < c * c
    ensures InCube(Digits(idx, c, 2), 0, c - 1)
    ensures Linear(Digits(idx, c, 2), c) == idx
  {
    var y := Digits(idx, c, 2);
    Decompose2(idx, c);
    LinearSmall(y, c);
    Cube2(y, 0, c - 1);
  }

  lemma LinearOfDigits3(idx: nat, c: nat)
    requires c > 0 && idx < c * (c * c)
    ensures InCube(Digits(idx, c, 3), 0, c - 1)
    ensures Linear(Digits(idx, c, 3), c) == idx
  {
    var i, j, k := Decompose3(idx, c);
    Linear3(i, j, k, c);
    Cube3([i, j, k], 0, c - 1);
  }

  lemma Linear3(i: int, j: int, k: int, c: int)
    ensures Linear([i, j, k], c) == i + c * j + (c * c) * k
  {
    LinearSmall([i, j, k], c);
  }

  lemma DigitsOfLinear(x: seq<int>, c: nat)
    requires 1 <= |x| <= 3 && InCube(x, 0, c - 1)
    ensures c > 0 && 0 <= Linear(x, c)
    ensures Digits(Linear(x, c), c, |x|) == x
  {
    LinearBelow(x, c);
    LinearSmall(x, c);
    assert 0 <= x[0] <= c - 1;
    if |x| == 1 {
    } else if |x| == 2 {
      Cube2(x, 0, c - 1);
      DigitsOfLinear2(x[0], x[1], c);
      assert x == [x[0], x[1]];
    } else {
      Cube3(x, 0, c - 1);
      DigitsOfLinear3(x[0], x[1], x[2], c);
      assert x == [x[0], x[1], x[2]];
    }
  }

  lemma DigitsOfLinear2(i: int, j: int, c: nat)
    requires 0 <= i < c && 0 <= j < c
    ensures Digits(i + c * j, c, 2) == [i, j]
  {
    DivUnique(i + c * j, c, j, i);
  }

  lemma DigitsOfLinear3(i: int, j: int, k: int, c: nat)
    requires 0 <= i < c && 0 <= j < c && 0 <= k < c
    ensures 0 <= i + c * j + (c * c) * k
    ensures Digits(i + c * j + (c * c) * k, c, 3) == [i, j, k]
  {
    var q := j + c * k;
    MulLe(0, k, c);
    Distribute(c, q, k, j);
    MulLe(0, q, c);
    DivUnique(c * q + i, c, q, i);
    DivUnique(q, c, k, j);
  }

  lemma PowSmall(c: int)
    ensures Pow(c, 1) == c && Pow(c, 2) == c * c && Pow(c, 3) == c * (c * c)
  {
    assert Pow(c, 1) == c * Pow(c, 0);
    assert Pow(c, 2) == c * Pow(c, 1);
    assert Pow(c, 3) == c * Pow(c, 2);
  }

  lemma MulLe(a: int, b: int, p: int)
    requires a <= b && p >= 0
    ensures a * p <= b * p
  {
    assert b * p - a * p == (b - a) * p;
  }

  lemma DivBelow(x: nat, c: nat, n: nat)
    requires c > 0 && x < c * n
    ensures x / c < n
  {
    if x / c >= n {
      MulLe(n, x / c, c);
      assert false;
    }
  }

  /** x == i + c * j with i, j in [0, c). */
  lemma Decompose2(x: nat, c: nat)
    requires c > 0 && x < c * c
    ensures x / c < c
    ensures x == x % c + c * (x / c)
  {
    DivBelow(x, c, c);
  }

  /** x == i + c * j + c^2 * k with i, j, k in [0, c): the digits the
      source computes. */
  lemma Decompose3(x: nat, c: nat) returns (i: int, j: int, k: int)
    requires c > 0 && x < c * (c * c)
    ensures Digits(x, c, 3) == [i, j, k]
    ensures 0 <= i < c && 0 <= j < c && 0 <= k < c
    ensures x == i + c * j + (c * c) * k
  {
    var q;
    q, i := DivMod(x, c);
    DivBelow(x, c, c * c);
    k, j := DivMod(q, c);
    DivBelow(q, c, c);
    Distribute(c, q, k, j);
  }

  /** Euclidean division of x by c. */
  lemma DivMod(x: nat, c: nat) returns (q: nat, r: nat)
    requires c > 0
    ensures q == x / c && r == x % c
    ensures x == c * q + r && r < c
  {
    q, r := x / c, x % c;
  }

  lemma Distribute(c: int, q: int, k: int, j: int)
    requires q == c * k + j
    ensures c * q == c * j + (c * c) * k
  {
    assert c * (c * k + j) == c * (c * k) + c * j;
    assert c * (c * k) == (c * c) * k;
  }

  /** The small cases of Linear, as the source writes them for 1, 2 and 3 axes. */
  lemma LinearSmall(x: seq<int>, c: int)
    requires 1 <= |x| <= 3
    ensures |x| == 1 ==> Linear(x, c) == x[0]
    ensures |x| == 2 ==> Linear(x, c) == x[0] + c * x[1]
    ensures |x| == 3 ==> Linear(x, c) == x[0] + c * x[1] + (c * c) * x[2]
  {
    PowSmall(c);
    assert Init(x[..1]) == [];
    assert Linear(x[..1], c) == x[0];
    if |x| >= 2 {
      assert Init(x[..2]) == x[..1];
      assert Linear(x[..2], c) == x[0] + x[1] * c;
    }
    if |x| == 3 {
      assert Init(x) == x[..2];
    }
    assert x == x[..|x|];
  }
}
