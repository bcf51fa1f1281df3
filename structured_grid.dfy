/**
 * Indices of a square structured grid (`square_structured_indices<Nd, Nic, Nhl>`):
 * a tile of `nic` internal cells per axis surrounded by `nhl` halo layers on
 * each side, so `nic + 2 * nhl` cells per axis. A cell is addressed by its
 * coordinates {i, j, k} (here a sequence of `nd` integers) or by its linear
 * index i + cpl * j + cpl^2 * k.
 *
 * The iterators that issue a callback per cell are modelled by the sequence of
 * coordinates they pass to the callback, in order.
 */
module StructuredGrid {
  import opened IntMath
  import opened Boxes
  import opened Coordinates

  /** The index type: linear cell index together with the coordinates. */
  datatype Index = Index(idx: nat, x: seq<int>)

  datatype Indices = Indices(nd: nat, nic: nat, nhl: nat) {

    /** Only 1, 2 and 3 dimensions have index conversions. */
    predicate Valid()
    {
      1 <= nd <= 3
    }

    function CellsPerLength(): nat
    {
      nic + 2 * nhl
    }

    function Size(): nat
    {
      PowNonNegative(CellsPerLength(), nd);
      Pow(CellsPerLength(), nd)
    }

    /** First internal cell per axis, widened by h layers (the unsigned source needs h <= nhl). */
    function InternalBegin(h: nat): nat
      requires h <= nhl
    {
      nhl - h
    }

    /** One past the last internal cell per axis, widened by h layers. */
    function InternalEnd(h: nat): nat
    {
      nhl + nic + h
    }

    function LeftHalosBegin(): nat { 0 }
    function LeftHalosEnd(): nat { nhl }
    function RightHalosBegin(): nat { InternalEnd(0) }
    function RightHalosEnd(): nat { InternalEnd(0) + nhl }

    /** Coordinates inside the tile. */
    predicate InTile(x: seq<int>)
    {
      |x| == nd && InCube(x, 0, CellsPerLength() - 1)
    }

    /** Every coordinate lies in the internal range [nhl, nhl + nic). */
    predicate Internal(x: seq<int>)
    {
      InCube(x, nhl, nhl + nic - 1)
    }

    /** Linear index of a cell: i + cpl * j + cpl^2 * k. */
    function FromCoords(x: seq<int>): (r: Index)
      requires Valid() && InTile(x)
      ensures r.x == x && r.idx < Size()
      ensures r.idx == Linear(x, CellsPerLength())
    {
      var c := CellsPerLength();
      LinearBelow(x, c);
      LinearSmall(x, c);
      if nd == 1 then Index(x[0], x)
      else if nd == 2 then Index(x[0] + c * x[1], x)
      else Index(x[0] + c * x[1] + (c * c) * x[2], x)
    }

    /** Coordinates of a linear index (no range check, as in the source). */
    function FromIndex(idx: nat): (r: Index)
      requires Valid() && (nd == 1 || CellsPerLength() > 0)
      ensures r.idx == idx && |r.x| == nd
    {
      Index(idx, Digits(idx, CellsPerLength(), nd))
    }

    /** Both round trips: coordinates -> index -> coordinates ... */
    lemma CoordsRoundTrip(x: seq<int>)
      requires Valid() && InTile(x)
      ensures FromIndex(FromCoords(x).idx) == FromCoords(x)
    {
      DigitsOfLinear(x, CellsPerLength());
    }

    /** ... and index -> coordinates -> index, for every index of the tile. */
    lemma IndexRoundTrip(idx: nat)
      requires Valid() && idx < Size()
      ensures CellsPerLength() > 0
      ensures InTile(FromIndex(idx).x)
      ensures FromCoords(FromIndex(idx).x) == FromIndex(idx)
    {
      if CellsPerLength() == 0 {
        PowZeroBase(nd);
      }
      LinearOfDigits(idx, CellsPerLength(), nd);
    }

    /** Cell `i` moved by `offset` along axis d. */
    function At(i: Index, d: nat, offset: int): (r: Index)
      requires Valid() && InTile(i.x) && d < nd
      requires 0 <= i.x[d] + offset < CellsPerLength()
      ensures |r.x| == nd && r.x[d] == i.x[d] + offset
      ensures forall e :: 0 <= e < nd && e != d ==> r.x[e] == i.x[e]
      ensures r.idx == Linear(i.x, CellsPerLength()) + offset * Pow(CellsPerLength(), d)
    {
      var y := i.x[d := i.x[d] + offset];
      LinearUpdate(i.x, CellsPerLength(), d, i.x[d] + offset);
      assert InTile(y) by {
        assert forall e :: 0 <= e < nd ==> 0 <= y[e] <= CellsPerLength() - 1;
      }
      FromCoords(y)
    }

    /** `At` on a linear index. */
    function AtIndex(idx: nat, d: nat, offset: int): (r: Index)
      requires Valid() && idx < Size() && d < nd
      requires 0 <= FromIndex(idx).x[d] + offset < CellsPerLength()
      ensures r.idx == idx + offset * Pow(CellsPerLength(), d)
      ensures r.x == FromIndex(idx).x[d := FromIndex(idx).x[d] + offset]
    {
      IndexRoundTrip(idx);
      At(FromIndex(idx), d, offset)
    }

    /** Is the cell with linear index t internal? Checks the axes one after the other. */
    method IsInternal(t: nat) returns (b: bool)
      requires Valid() && (nd == 1 || CellsPerLength() > 0)
      ensures b == Internal(FromIndex(t).x)
    {
      var x := FromIndex(t).x;
      var d := 0;
      while d < nd
        invariant 0 <= d <= nd
        invariant forall e :: 0 <= e < d ==> nhl <= x[e] <= nhl + nic - 1
      {
        if x[d] < InternalBegin(0) || x[d] >= InternalEnd(0) {
          return false;
        }
        d := d + 1;
      }
      return true;
    }

    /** A cell is a halo cell exactly when it is not internal. */
    method IsHalo(t: nat) returns (b: bool)
      requires Valid() && (nd == 1 || CellsPerLength() > 0)
      ensures b == !Internal(FromIndex(t).x)
    {
      var internal := IsInternal(t);
      b := !internal;
    }

    /** Moving one more axis adds that axis' term of the offset's linear index. */
    lemma OffsetAxis(start: seq<int>, x: seq<int>, offset: seq<int>, c: int, d: nat)
      requires |x| == |offset| == |start| && d < |x| && x[d] == start[d]
      requires Linear(x, c) == Linear(start, c) + Linear(offset[..d], c)
      ensures Linear(x[d := x[d] + offset[d]], c) == Linear(start, c) + Linear(offset[..d + 1], c)
    {
      LinearUpdate(x, c, d, x[d] + offset[d]);
      assert Init(offset[..d + 1]) == offset[..d];
    }

    /** Cell `i` moved by offset[d] along every axis d, one axis at a time. */
    method AtOffsets(i: Index, offset: seq<int>) returns (r: Index)
      requires Valid() && InTile(i.x) && |offset| == nd
      requires forall d :: 0 <= d < nd ==> 0 <= i.x[d] + offset[d] < CellsPerLength()
      ensures |r.x| == nd && forall d :: 0 <= d < nd ==> r.x[d] == i.x[d] + offset[d]
      ensures InTile(r.x)
      ensures r.idx == Linear(i.x, CellsPerLength()) + Linear(offset, CellsPerLength())
    {
      var c := CellsPerLength();
      var x := i.x;
      var d := 0;
      while d < nd
        invariant 0 <= d <= nd && |x| == nd
        invariant forall e :: 0 <= e < d ==> x[e] == i.x[e] + offset[e]
        invariant forall e :: d <= e < nd ==> x[e] == i.x[e]
        invariant Linear(x, c) == Linear(i.x, c) + Linear(offset[..d], c)
      {
        var tmp := x[d] + offset[d];
        OffsetAxis(i.x, x, offset, c, d);
        x := x[d := tmp];
        d := d + 1;
      }
      assert offset[..nd] == offset;
      assert InTile(x) by {
        assert forall e :: 0 <= e < nd ==> 0 <= x[e] <= c - 1;
      }
      r := FromCoords(x);
    }

    // ------------------------------------------------------------------
    // Enumerations: the cells handed to the callback, in order.

    /** for_each_internal(h): the internal cells widened by h layers, i fastest. */
    function ForEachInternal(h: nat): (r: seq<seq<int>>)
      requires Valid() && h <= nhl
      ensures |r| == Pow(nic + 2 * h, nd)
    {
      var lo := Constant(nd, InternalBegin(h));
      var hi := Constant(nd, InternalEnd(h) - 1);
      BoxLength(lo, hi);
      ConstantVolume(nd, InternalBegin(h), InternalEnd(h) - 1);
      Box(lo, hi)
    }

    /** for_each_halo, as the source writes it for 1, 2 and 3 dimensions. */
    function ForEachHaloAsWritten(): (r: seq<seq<int>>)
      requires Valid()
    {
      var c := CellsPerLength();
      var ie := InternalEnd(0);
      if nd == 1 then Halo1(c, nhl, ie)
      else if nd == 2 then Halo2(c, nhl, ie)
      else Halo3(c, nhl, ie) + SideRight3(c, nhl, ie)
    }

    /**
     * for_each_halo with every block visited once: in 3D the source's
     * "side left" part already visits the right halos, so the second
     * "side right" pass is dropped here.
     */
    function ForEachHalo(): (r: seq<seq<int>>)
      requires Valid()
    {
      var c := CellsPerLength();
      var ie := InternalEnd(0);
      if nd == 1 then Halo1(c, nhl, ie)
      else if nd == 2 then Halo2(c, nhl, ie)
      else Halo3(c, nhl, ie)
    }

    // ------------------------------------------------------------------
    // Properties

    /** The three per-axis ranges partition [0, cells per length). */
    lemma RangesPartition(i: int)
      requires 0 <= i < CellsPerLength()
      ensures LeftHalosBegin() == 0 && LeftHalosEnd() == InternalBegin(0)
      ensures RightHalosBegin() == InternalEnd(0) && RightHalosEnd() == CellsPerLength()
      ensures i < LeftHalosEnd() <==> !(InternalBegin(0) <= i < InternalEnd(0)) && i < RightHalosBegin()
      ensures RightHalosBegin() <= i <==> !(InternalBegin(0) <= i < InternalEnd(0)) && i >= LeftHalosEnd()
    {
    }

    /** for_each_internal(0) visits every internal cell exactly once, nic^nd of them. */
    lemma ForEachInternalExact(y: seq<int>)
      requires Valid()
      ensures multiset(ForEachInternal(0))[y] == if InTile(y) && Internal(y) then 1 else 0
      ensures |ForEachInternal(0)| == Pow(nic, nd)
    {
      var a, b := nhl, nhl + nic - 1;
      assert ForEachInternal(0) == Box(Constant(nd, a), Constant(nd, b));
      CubeMultiplicity(nd, a, b, y);
      assert Width(a, b) == nic;
      CubeWithin(y, a, b, 0, CellsPerLength() - 1);
    }

    /** In every dimension the corrected iteration visits each halo cell exactly once and nothing else. */
    lemma ForEachHaloExact(y: seq<int>)
      requires Valid()
      ensures multiset(ForEachHalo())[y] == if InTile(y) && !Internal(y) then 1 else 0
    {
      var c := CellsPerLength();
      var ie := InternalEnd(0);
      HaloCell(y);
      if nd == 1 {
        Halo1Multiplicity(c, nhl, ie, y);
      } else if nd == 2 {
        Halo2Multiplicity(c, nhl, ie, y);
      } else {
        Halo3Multiplicity(c, nhl, ie, y);
      }
    }

    /** A halo cell, coordinate by coordinate. */
    lemma HaloCell(y: seq<int>)
      requires Valid()
      ensures var c := CellsPerLength(); var ie := InternalEnd(0);
              InTile(y) && !Internal(y) <==>
              if nd == 1 then
                |y| == 1 && 0 <= y[0] < c && !(nhl <= y[0] < ie)
              else if nd == 2 then
                (|y| == 2 && 0 <= y[0] < c && 0 <= y[1] < c
                 && !(nhl <= y[0] < ie && nhl <= y[1] < ie))
              else
                (|y| == 3 && 0 <= y[0] < c && 0 <= y[1] < c && 0 <= y[2] < c
                 && !(nhl <= y[0] < ie && nhl <= y[1] < ie && nhl <= y[2] < ie))
    {
      var c: int := CellsPerLength();
      var ie: int := InternalEnd(0);
      if |y| == 1 {
        Cube1(y, 0, c - 1);
        Cube1(y, nhl, ie - 1);
      } else if |y| == 2 {
        Cube2(y, 0, c - 1);
        Cube2(y, nhl, ie - 1);
      } else if |y| == 3 {
        Cube3(y, 0, c - 1);
        Cube3(y, nhl, ie - 1);
      }
    }

    /** In 1D and 2D the source's for_each_halo is the exact one. */
    lemma ForEachHaloLowDim()
      requires Valid() && nd <= 2
      ensures ForEachHaloAsWritten() == ForEachHalo()
    {
    }

    /**
     * In 3D the source's for_each_halo visits every halo cell, but the cells whose
     * i lies in the right halos while j and k are internal are visited twice.
     */
    lemma ForEachHaloAsWritten3D(y: seq<int>)
      requires Valid() && nd == 3
      ensures multiset(ForEachHaloAsWritten())[y]
              == (if InTile(y) && !Internal(y) then 1 else 0)
                 + (if InTile(y) && y[0] >= InternalEnd(0)
                       && nhl <= y[1] < InternalEnd(0) && nhl <= y[2] < InternalEnd(0) then 1 else 0)
    {
      var c: int := CellsPerLength();
      var ie: int := InternalEnd(0);
      assert multiset(ForEachHaloAsWritten())[y]
             == multiset(ForEachHalo())[y] + multiset(SideRight3(c, nhl, ie))[y];
      ForEachHaloExact(y);
      SideRight3Multiplicity(c, nhl, ie, y);
      if |y| == 3 {
        Cube3(y, 0, c - 1);
      }
    }
  }

  /**
   * Witness of the double visit: in any 3D tile with internal cells and halo
   * layers, the first right halo next to the first internal row (for instance
   * cell (2, 1, 1) with one internal cell and one halo layer) is visited twice.
   */
  lemma ForEachHaloAsWrittenDuplicate(g: Indices)
    requires g.nd == 3 && g.nic >= 1 && g.nhl >= 1
    ensures multiset(g.ForEachHaloAsWritten())[[g.InternalEnd(0), g.nhl, g.nhl]] == 2
  {
    var y := [g.InternalEnd(0), g.nhl, g.nhl];
    g.ForEachHaloAsWritten3D(y);
    Cube3(y, 0, g.CellsPerLength() - 1);
    Cube3(y, g.nhl, g.InternalEnd(0) - 1);
  }

  // ------------------------------------------------------------------
  // Halo blocks, in the order of the source's loops (i fastest)

  /** The half-open 1D range [a, b) as cells of one coordinate. */
  function Span(a: int, b: int): seq<seq<int>>
  {
    Box([a], [b - 1])
  }

  /** 1D: the left halos, then the right halos. */
  function Halo1(c: int, nhl: int, ie: int): seq<seq<int>>
  {
    Span(0, nhl) + Span(ie, c)
  }

  /** 2D: bottom rows, then per internal row the left and right halos, then top rows. */
  function Halo2(c: int, nhl: int, ie: int): seq<seq<int>>
  {
    Box([0, 0], [c - 1, nhl - 1])
    + Sides2(c, nhl, ie)
    + Box([0, ie], [c - 1, c - 1])
  }

  /** 2D sides: per internal row j, the left halos and then the right halos. */
  function Sides2(c: int, nhl: int, ie: int): seq<seq<int>>
  {
    Stack(Span(0, nhl) + Span(ie, c), nhl, ie - 1)
  }

  /** 3D: front, back, bottom, top, then the left and right sides. */
  function Halo3(c: int, nhl: int, ie: int): seq<seq<int>>
  {
    Box([0, 0, 0], [c - 1, c - 1, nhl - 1])
    + Box([0, 0, ie], [c - 1, c - 1, c - 1])
    + Box([0, 0, nhl], [c - 1, nhl - 1, ie - 1])
    + Box([0, ie, nhl], [c - 1, c - 1, ie - 1])
    + Box([0, nhl, nhl], [nhl - 1, ie - 1, ie - 1])
    + SideRight3(c, nhl, ie)
  }

  /** 3D: right halos in i with internal j and k. */
  function SideRight3(c: int, nhl: int, ie: int): seq<seq<int>>
  {
    Box([ie, nhl, nhl], [c - 1, ie - 1, ie - 1])
  }

  lemma SpanMultiplicity(a: int, b: int, y: seq<int>)
    ensures multiset(Span(a, b))[y] == if |y| == 1 && a <= y[0] < b then 1 else 0
  {
    BoxMultiplicity([a], [b - 1], y);
    if |y| == 1 && a <= y[0] < b {
      assert InBox(y, [a], [b - 1]);
    }
  }

  lemma Halo1Multiplicity(c: int, nhl: int, ie: int, y: seq<int>)
    requires 0 <= nhl <= ie && c == ie + nhl
    ensures multiset(Halo1(c, nhl, ie))[y]
            == if |y| == 1 && 0 <= y[0] < c && !(nhl <= y[0] < ie) then 1 else 0
  {
    SpanMultiplicity(0, nhl, y);
    SpanMultiplicity(ie, c, y);
  }

  lemma Halo2Multiplicity(c: int, nhl: int, ie: int, y: seq<int>)
    requires 0 <= nhl <= ie && c == ie + nhl
    ensures multiset(Halo2(c, nhl, ie))[y]
            == if |y| == 2 && 0 <= y[0] < c && 0 <= y[1] < c
                  && !(nhl <= y[0] < ie && nhl <= y[1] < ie) then 1 else 0
  {
    Block2([0, 0], [c - 1, nhl - 1], y);
    Block2([0, ie], [c - 1, c - 1], y);
    Sides2Multiplicity(c, nhl, ie, y);
  }

  lemma Sides2Multiplicity(c: int, nhl: int, ie: int, y: seq<int>)
    ensures multiset(Sides2(c, nhl, ie))[y]
            == if |y| == 2 && nhl <= y[1] < ie && (0 <= y[0] < nhl || ie <= y[0] < c) then 1 else 0
  {
    StackMultiplicity(Span(0, nhl) + Span(ie, c), nhl, ie - 1, y);
    if |y| > 0 {
      SpanMultiplicity(0, nhl, Init(y));
      SpanMultiplicity(ie, c, Init(y));
      if |y| == 2 {
        assert Init(y)[0] == y[0];
      }
    }
  }

  lemma Halo3Multiplicity(c: int, nhl: int, ie: int, y: seq<int>)
    requires 0 <= nhl <= ie && c == ie + nhl
    ensures multiset(Halo3(c, nhl, ie))[y]
            == if |y| == 3 && 0 <= y[0] < c && 0 <= y[1] < c && 0 <= y[2] < c
                  && !(nhl <= y[0] < ie && nhl <= y[1] < ie && nhl <= y[2] < ie) then 1 else 0
  {
    Block3([0, 0, 0], [c - 1, c - 1, nhl - 1], y);
    Block3([0, 0, ie], [c - 1, c - 1, c - 1], y);
    Block3([0, 0, nhl], [c - 1, nhl - 1, ie - 1], y);
    Block3([0, ie, nhl], [c - 1, c - 1, ie - 1], y);
    Block3([0, nhl, nhl], [nhl - 1, ie - 1, ie - 1], y);
    Block3([ie, nhl, nhl], [c - 1, ie - 1, ie - 1], y);
  }

  lemma SideRight3Multiplicity(c: int, nhl: int, ie: int, y: seq<int>)
    ensures multiset(SideRight3(c, nhl, ie))[y]
            == if |y| == 3 && ie <= y[0] < c && nhl <= y[1] < ie && nhl <= y[2] < ie then 1 else 0
  {
    Block3([ie, nhl, nhl], [c - 1, ie - 1, ie - 1], y);
  }
}
