/**
 * The coordinate of a cell of a square structured grid tile with nd axes,
 * nic internal cells and nhl halo layers per axis: a tile coordinate of a
 * tile of side nic + 2 * nhl that can also tell internal from halo cells.
 * Every operation other than the classification delegates to the tile
 * coordinate (the TileCoordinate module).
 */
module CellCoordinates {
  import opened IntMath
  import opened Boxes
  import opened Coordinates
  import opened TileCoordinate
  import StructuredGrid

  /** The grid bounds the coordinate lives in. */
  datatype Bounds = Bounds(nd: nat, nic: nat, nhl: nat) {
    function CellsPerLength(): nat
    {
      nic + 2 * nhl
    }

    function FirstInternal(): int
    {
      nhl
    }

    function LastInternal(): int
    {
      nhl + nic - 1
    }

    /** The structured grid indices with the same parameters. */
    function Grid(): StructuredGrid.Indices
    {
      StructuredGrid.Indices(nd, nic, nhl)
    }
  }

  /** is_internal: the components are checked one after the other and the
      first one outside [first internal, last internal] answers false. */
  method IsInternal(b: Bounds, x: seq<int>) returns (r: bool)
    requires |x| == b.nd
    ensures r <==> forall d :: 0 <= d < b.nd ==> b.FirstInternal() <= x[d] <= b.LastInternal()
    ensures r == b.Grid().Internal(x)
  {
    var d := 0;
    while d < b.nd
      invariant 0 <= d <= b.nd
      invariant forall e :: 0 <= e < d ==> b.FirstInternal() <= x[e] <= b.LastInternal()
    {
      var i := x[d];
      if i < b.FirstInternal() || i > b.LastInternal() {
        return false;
      }
      d := d + 1;
    }
    return true;
  }

  /** is_halo is the negation of is_internal: every coordinate is exactly
      one of the two. */
  method IsHalo(b: Bounds, x: seq<int>) returns (r: bool)
    requires |x| == b.nd
    ensures r <==> exists d :: 0 <= d < b.nd && (x[d] < b.FirstInternal() || x[d] > b.LastInternal())
    ensures r == !b.Grid().Internal(x)
  {
    var internal := IsInternal(b, x);
    r := !internal;
  }

  /** constant(i): every component equal to i; it is a cell of the tile
      exactly when i is, and an internal cell exactly when i is internal. */
  function ConstantCoordinate(b: Bounds, i: int): (r: seq<int>)
    ensures |r| == b.nd && forall d :: 0 <= d < b.nd ==> r[d] == i
    ensures b.nd > 0 ==> (Valid(b.nd, b.CellsPerLength(), r) <==> 0 <= i < b.CellsPerLength())
    ensures b.nd > 0 ==> (b.Grid().Internal(r) <==> b.FirstInternal() <= i <= b.LastInternal())
  {
    var r := Constant(b.nd, i);
    assert b.nd > 0 ==> r[0] == i;
    r
  }

  /** from(i): the coordinate of linear index i, the grid's own conversion;
      for an index of the tile it is a cell of the tile whose index is i. */
  function FromIndex(b: Bounds, idx: nat): (r: seq<int>)
    requires 1 <= b.nd <= 3 && (b.nd == 1 || b.CellsPerLength() > 0)
    ensures r == b.Grid().FromIndex(idx).x
    ensures idx < Pow(b.CellsPerLength(), b.nd)
            ==> Valid(b.nd, b.CellsPerLength(), r) && Linear(r, b.CellsPerLength()) == idx
  {
    if idx < Pow(b.CellsPerLength(), b.nd) then
      LinearOfDigits(idx, b.CellsPerLength(), b.nd);
      Digits(idx, b.CellsPerLength(), b.nd)
    else
      Digits(idx, b.CellsPerLength(), b.nd)
  }

  /** offset(d, o): the tile move along axis d; inside the tile it is the
      grid's `at(i, d, o)`. */
  function OffsetAxis(b: Bounds, x: seq<int>, d: nat, o: int): (r: seq<int>)
    requires |x| == b.nd && d < b.nd
    ensures |r| == b.nd && r[d] == x[d] + o
    ensures forall e :: 0 <= e < b.nd && e != d ==> r[e] == x[e]
    ensures Linear(r, b.CellsPerLength()) == Linear(x, b.CellsPerLength()) + o * Pow(b.CellsPerLength(), d)
  {
    OffsetLinear(x, b.CellsPerLength(), d, o);
    Offset(x, d, o)
  }

  /** offset(o) for an offset vector: every axis moves by its own component,
      and the linear index moves by the index of the offset. */
  function OffsetVector(b: Bounds, x: seq<int>, o: seq<int>): (r: seq<int>)
    requires |x| == b.nd && |o| == b.nd
    ensures |r| == b.nd && forall d :: 0 <= d < b.nd ==> r[d] == x[d] + o[d]
    ensures Linear(r, b.CellsPerLength()) == Linear(x, b.CellsPerLength()) + Linear(o, b.CellsPerLength())
  {
    ShiftedLinear(x, o, 1, b.CellsPerLength());
    Shifted(x, o, 1)
  }

  /** offset(o) for a scalar: every axis moves by o. */
  function OffsetScalar(b: Bounds, x: seq<int>, o: int): (r: seq<int>)
    requires |x| == b.nd
    ensures |r| == b.nd && forall d :: 0 <= d < b.nd ==> r[d] == x[d] + o
    ensures Linear(r, b.CellsPerLength()) == Linear(x, b.CellsPerLength()) + o * Linear(Constant(b.nd, 1), b.CellsPerLength())
  {
    OffsetAllShifted(x, o);
    ShiftedLinear(x, Constant(b.nd, 1), o, b.CellsPerLength());
    OffsetAll(x, o)
  }

  /** offset_if_valid(o): a cell of the tile stays a cell of the tile, each
      axis moving by o or staying. */
  function OffsetIfValidCoordinate(b: Bounds, x: seq<int>, o: int): (r: seq<int>)
    requires Valid(b.nd, b.CellsPerLength(), x)
    ensures Valid(b.nd, b.CellsPerLength(), r)
    ensures forall d :: 0 <= d < b.nd ==> r[d] == x[d] + o || r[d] == x[d]
  {
    OffsetIfValidValid(b.nd, b.CellsPerLength(), x, o);
    OffsetIfValid(b.CellsPerLength(), x, o)
  }

  /** Inside the tile, the axis move of the coordinate and the grid's
      `at(i, d, o)` give the same cell and the same index. */
  lemma OffsetAxisMatchesAt(b: Bounds, x: seq<int>, d: nat, o: int)
    requires 1 <= b.nd <= 3 && Valid(b.nd, b.CellsPerLength(), x) && d < b.nd
    requires 0 <= x[d] + o < b.CellsPerLength()
    ensures b.Grid().InTile(x)
    ensures b.Grid().At(b.Grid().FromCoords(x), d, o).x == OffsetAxis(b, x, d, o)
    ensures b.Grid().At(b.Grid().FromCoords(x), d, o).idx
            == Linear(OffsetAxis(b, x, d, o), b.CellsPerLength())
  {
  }
}
