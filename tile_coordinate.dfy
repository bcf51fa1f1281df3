/**
 * The coordinate of a cell of a square tile with nd axes and nc cells per
 * axis, as the tile iterators use it: a coordinate is valid when every
 * component lies in [0, nc); its index is the linear index of the
 * Coordinates module. The tile coordinate class itself is not part of this
 * model; the semantics below are the ones the iterators rely on.
 */
module TileCoordinate {
  import opened IntMath
  import opened Boxes
  import opened Coordinates

  /** The coordinate's conversion to bool: it lies inside the tile. */
  predicate Valid(nd: nat, nc: int, x: seq<int>)
  {
    |x| == nd && InCube(x, 0, nc - 1)
  }

  /** Moves every axis of x by o, axis by axis, but only where the moved
      component stays inside the tile; the other components are kept. */
  function OffsetIfValid(nc: int, x: seq<int>, o: int): (r: seq<int>)
    ensures |r| == |x|
  {
    seq(|x|, d requires 0 <= d < |x| => if 0 <= x[d] + o < nc then x[d] + o else x[d])
  }

  /** x moved by the vector dist * o (no validity check: the caller tests the result). */
  function Shifted(x: seq<int>, o: seq<int>, dist: int): (r: seq<int>)
    requires |o| == |x|
    ensures |r| == |x|
  {
    seq(|x|, d requires 0 <= d < |x| => x[d] + dist * o[d])
  }

  /** Squared Euclidean distance between two coordinates. */
  function Dist2(x: seq<int>, y: seq<int>): (r: int)
    requires |x| == |y|
    ensures r >= 0
    decreases |x|
  {
    if |x| == 0 then 0
    else Dist2(Init(x), Init(y)) + (Last(x) - Last(y)) * (Last(x) - Last(y))
  }

  /** x moved by o along axis d. */
  function Offset(x: seq<int>, d: nat, o: int): (r: seq<int>)
    requires d < |x|
  {
    x[d := x[d] + o]
  }

  /** x moved by o along every axis. */
  function OffsetAll(x: seq<int>, o: int): (r: seq<int>)
  {
    seq(|x|, d requires 0 <= d < |x| => x[d] + o)
  }

  /** Moving along one axis changes the linear index by o * c^d and leaves
      the other axes alone. */
  lemma OffsetLinear(x: seq<int>, c: int, d: nat, o: int)
    requires d < |x|
    ensures |Offset(x, d, o)| == |x| && Offset(x, d, o)[d] == x[d] + o
    ensures forall e :: 0 <= e < |x| && e != d ==> Offset(x, d, o)[e] == x[e]
    ensures Linear(Offset(x, d, o), c) == Linear(x, c) + o * Pow(c, d)
  {
    LinearUpdate(x, c, d, x[d] + o);
  }

  /** The linear index is linear: moving by dist * o moves the index by
      dist times the index of o. */
  lemma {:induction false} ShiftedLinear(x: seq<int>, o: seq<int>, dist: int, c: int)
    requires |o| == |x|
    ensures Linear(Shifted(x, o, dist), c) == Linear(x, c) + dist * Linear(o, c)
    decreases |x|
  {
    if |x| > 0 {
      var n := |x| - 1;
      var s := Shifted(x, o, dist);
      assert Init(s) == Shifted(Init(x), Init(o), dist);
      ShiftedLinear(Init(x), Init(o), dist, c);
      var p := Pow(c, n);
      assert Last(s) * p == Last(x) * p + dist * (Last(o) * p) by {
        assert Last(s) == Last(x) + dist * Last(o);
      }
    }
  }

  /** Moving every axis by o is moving by the vector with every component o. */
  lemma OffsetAllShifted(x: seq<int>, o: int)
    ensures OffsetAll(x, o) == Shifted(x, Constant(|x|, 1), o)
  {
  }

  /** A valid coordinate stays valid under OffsetIfValid, and every axis
      moves by o or not at all. */
  lemma OffsetIfValidValid(nd: nat, nc: int, x: seq<int>, o: int)
    requires Valid(nd, nc, x)
    ensures Valid(nd, nc, OffsetIfValid(nc, x, o))
    ensures forall d :: 0 <= d < nd ==>
      OffsetIfValid(nc, x, o)[d] == x[d] + o || OffsetIfValid(nc, x, o)[d] == x[d]
  {
  }

  /** The distance vanishes exactly between equal coordinates. */
  lemma {:induction false} Dist2Zero(x: seq<int>, y: seq<int>)
    requires |x| == |y|
    ensures Dist2(x, y) == 0 <==> x == y
    decreases |x|
  {
    if |x| > 0 {
      Dist2Zero(Init(x), Init(y));
      var e := Last(x) - Last(y);
      assert e * e >= 0;
      assert e * e == 0 <==> e == 0;
      assert x == Init(x) + [Last(x)] && y == Init(y) + [Last(y)];
      if Init(x) == Init(y) && Last(x) == Last(y) {
        assert x == y;
      }
    }
  }
}
