/**
 * The internal iterators of a square tile with nd axes and nc cells per axis:
 * the iteration over the whole tile and over a sub-tile [from, to], the
 * iteration offsets that let a sub-tile loop count indices instead of
 * computing them, and the iteration over the neighbours of a cell.
 */
module TileIndices {
  import opened IntMath
  import opened Boxes
  import opened Coordinates
  import opened TileCoordinate

  // ------------------------------------------------------------------
  // Whole tile

  /** The cells the whole-tile loops visit, in their order (axis 0 fastest). */
  function ForEach(nd: nat, nc: nat): seq<seq<int>>
  {
    Box(Constant(nd, 0), Constant(nd, nc - 1))
  }

  /** The whole-tile iteration visits every valid coordinate exactly once,
      and nothing else; there are nc^nd of them. */
  lemma ForEachExact(nd: nat, nc: nat, y: seq<int>)
    ensures multiset(ForEach(nd, nc))[y] == if Valid(nd, nc, y) then 1 else 0
    ensures |ForEach(nd, nc)| == Pow(nc, nd)
  {
    CubeMultiplicity(nd, 0, nc - 1, y);
    assert Width(0, nc - 1) == nc;
  }

  lemma ForEachLength(nd: nat, nc: nat)
    ensures |ForEach(nd, nc)| == Pow(nc, nd)
  {
    BoxLength(Constant(nd, 0), Constant(nd, nc - 1));
    ConstantVolume(nd, 0, nc - 1);
    assert Width(0, nc - 1) == nc;
  }

  lemma ForEachUnfold(nd: nat, nc: nat)
    requires nd > 0
    ensures ForEach(nd, nc) == Stack(ForEach(nd - 1, nc), 0, nc - 1)
  {
    assert Init(Constant(nd, 0)) == Constant(nd - 1, 0);
    assert Init(Constant(nd, nc - 1)) == Constant(nd - 1, nc - 1);
  }

  /** Position m of the stack of nc layers of `inner` is inner[m % |inner|] on layer m / |inner|. */
  lemma StackPosition(inner: seq<seq<int>>, nc: nat, m: nat)
    requires |inner| > 0 && m < nc * |inner|
    ensures m / |inner| < nc && m % |inner| < |inner|
    ensures m < |Stack(inner, 0, nc - 1)|
    ensures Stack(inner, 0, nc - 1)[m] == inner[m % |inner|] + [m / |inner|]
    ensures m == (m / |inner|) * |inner| + m % |inner|
  {
    var p := |inner|;
    var q, r := m / p, m % p;
    assert m == q * p + r;
    DivBelow(m, p, nc);
    SlotIsProduct(q, p, r);
    StackAt(inner, 0, nc - 1, q, r, m, q);
  }

  /** The step of the index-order induction: layer q of the stack holds the
      indices q * |inner| up to (q + 1) * |inner| - 1. */
  lemma StackLinear(inner: seq<seq<int>>, nc: nat, n: nat, m: nat)
    requires |inner| == Pow(nc, n) && 0 < |inner| && m < nc * |inner|
    requires |inner[m % |inner|]| == n && Linear(inner[m % |inner|], nc) == m % |inner|
    ensures m < |Stack(inner, 0, nc - 1)|
    ensures |Stack(inner, 0, nc - 1)[m]| == n + 1
    ensures Linear(Stack(inner, 0, nc - 1)[m], nc) == m
  {
    StackPosition(inner, nc, m);
    var p := |inner|;
    var q, r := m / p, m % p;
    var z := inner[r];
    var y := z + [q];
    assert Init(y) == z && Last(y) == q && |y| - 1 == n;
    assert Linear(y, nc) == r + q * p;
  }

  /** The n-th visited cell has linear index n: the loops walk the tile in
      index order. */
  lemma {:induction false} ForEachIndexOrder(nd: nat, nc: nat, m: nat)
    requires m < |ForEach(nd, nc)|
    ensures |ForEach(nd, nc)[m]| == nd
    ensures Linear(ForEach(nd, nc)[m], nc) == m
    decreases nd
  {
    if nd == 0 {
      assert ForEach(nd, nc) == [[]];
    } else {
      var inner := ForEach(nd - 1, nc);
      ForEachUnfold(nd, nc);
      ForEachLength(nd, nc);
      ForEachLength(nd - 1, nc);
      var p := |inner|;
      assert |ForEach(nd, nc)| == nc * p;
      assert p > 0;
      var r := m % p;
      assert r < p;
      ForEachIndexOrder(nd - 1, nc, r);
      StackLinear(inner, nc, nd - 1, m);
    }
  }

  // ------------------------------------------------------------------
  // Sub-tiles

  /** The precondition of the sub-tile iterators: both corners lie in the
      tile and from <= to on every axis. */
  predicate FromTo(nd: nat, nc: int, from: seq<int>, to: seq<int>)
  {
    Valid(nd, nc, from) && Valid(nd, nc, to)
    && forall d :: 0 <= d < nd ==> from[d] <= to[d]
  }

  /** The cells the sub-tile loops visit, in their order. */
  function ForEachSub(from: seq<int>, to: seq<int>): seq<seq<int>>
    requires |from| == |to|
  {
    Box(from, to)
  }

  /** The sub-tile iteration visits each cell of [from, to] exactly once;
      all of them are valid coordinates of the tile. */
  lemma ForEachSubExact(nd: nat, nc: int, from: seq<int>, to: seq<int>, y: seq<int>)
    requires FromTo(nd, nc, from, to)
    ensures multiset(ForEachSub(from, to))[y] == if InBox(y, from, to) then 1 else 0
    ensures y in ForEachSub(from, to) ==> Valid(nd, nc, y)
    ensures |ForEachSub(from, to)| == Volume(from, to)
  {
    BoxMultiplicity(from, to, y);
    BoxMembership(from, to, y);
    BoxLength(from, to);
    if y in ForEachSub(from, to) {
      forall d | 0 <= d < nd ensures 0 <= y[d] <= nc - 1 {
        assert from[d] <= y[d] <= to[d];
      }
    }
  }

  // ------------------------------------------------------------------
  // Iteration offsets

  /** The amount by which a counted sub-tile loop advances its index after
      finishing a row (position 1) and a plane (position 2). */
  function Offsets(nd: nat, nc: int, from: seq<int>, to: seq<int>): (r: seq<int>)
    requires 1 <= nd <= 3 && FromTo(nd, nc, from, to)
    ensures |r| == nd && r[0] == 1
    ensures forall p :: 0 <= p < nd ==> r[p] >= 0
  {
    assert 0 <= from[0] && to[0] <= nc - 1;
    var row := nc - (to[0] - from[0]) - 1;
    if nd == 1 then [1]
    else if nd == 2 then [1, row]
    else
      assert 0 <= from[1] && to[1] <= nc - 1;
      var plane := nc - (to[1] - from[1]) - 1;
      MulLe(0, nc, plane);
      [1, row, nc * plane]
  }

  /** Stepping past the last cell of a row, and then adding the row offset
      (and, past the last row of a plane, the plane offset) lands exactly on
      the index of the first cell of the next row (plane). */
  lemma OffsetsJump(nd: nat, nc: int, from: seq<int>, to: seq<int>, j: int, k: int)
    requires 2 <= nd <= 3 && FromTo(nd, nc, from, to)
    ensures nd == 2 ==>
      Linear([from[0], j + 1], nc) == Linear([to[0], j], nc) + 1 + Offsets(nd, nc, from, to)[1]
    ensures nd == 3 ==>
      Linear([from[0], j + 1, k], nc) == Linear([to[0], j, k], nc) + 1 + Offsets(nd, nc, from, to)[1]
    ensures nd == 3 ==>
      Linear([from[0], from[1], k + 1], nc)
      == Linear([to[0], to[1], k], nc) + 1 + Offsets(nd, nc, from, to)[1] + Offsets(nd, nc, from, to)[2]
  {
    LinearSmall([from[0], j + 1], nc);
    LinearSmall([to[0], j], nc);
    LinearSmall([from[0], j + 1, k], nc);
    LinearSmall([to[0], j, k], nc);
    LinearSmall([from[0], from[1], k + 1], nc);
    LinearSmall([to[0], to[1], k], nc);
    assert nc * (j + 1) == nc * j + nc;
    assert (nc * nc) * (k + 1) == (nc * nc) * k + nc * nc;
    assert nc * (nc - (to[1] - from[1]) - 1) == nc * nc - nc * to[1] + nc * from[1] - nc;
  }

  lemma RowJump(nc: int, from: seq<int>, to: seq<int>, j: int, k: int)
    requires FromTo(3, nc, from, to)
    ensures Linear([from[0], j + 1, k], nc) == Linear([to[0], j, k], nc) + 1 + Offsets(3, nc, from, to)[1]
  {
    OffsetsJump(3, nc, from, to, j, k);
  }

  /** Every emitted counter is the index of the cell emitted with it,
      shifted by start - index(from). */
  predicate Counted(nc: int, from: seq<int>, start: int, cells: seq<seq<int>>, counters: seq<int>)
  {
    |counters| == |cells|
    && forall n {:trigger counters[n]} :: 0 <= n < |cells| ==>
         counters[n] == Linear(cells[n], nc) - Linear(from, nc) + start
  }

  lemma CountedSnoc(nc: int, from: seq<int>, start: int, cells: seq<seq<int>>, counters: seq<int>,
                    y: seq<int>, c: int)
    requires Counted(nc, from, start, cells, counters)
    requires c == Linear(y, nc) - Linear(from, nc) + start
    ensures Counted(nc, from, start, cells + [y], counters + [c])
  {
    forall n | 0 <= n < |cells| + 1
      ensures (counters + [c])[n] == Linear((cells + [y])[n], nc) - Linear(from, nc) + start
    {
      if n < |cells| {
        assert (counters + [c])[n] == counters[n];
      }
    }
  }

  lemma CountedConcat(nc: int, from: seq<int>, start: int, cells: seq<seq<int>>, counters: seq<int>,
                      more: seq<seq<int>>, moreCounters: seq<int>)
    requires Counted(nc, from, start, cells, counters)
    requires Counted(nc, from, start, more, moreCounters)
    ensures Counted(nc, from, start, cells + more, counters + moreCounters)
  {
    forall n | 0 <= n < |cells + more|
      ensures (counters + moreCounters)[n] == Linear((cells + more)[n], nc) - Linear(from, nc) + start
    {
      if n >= |cells| {
        assert (cells + more)[n] == more[n - |cells|];
        assert (counters + moreCounters)[n] == moreCounters[n - |cells|];
      } else {
        assert (counters + moreCounters)[n] == counters[n];
      }
    }
  }

  /** One more cell at the end of a row. */
  lemma CellStep(f0: int, i: int, j: int, k: int)
    requires f0 <= i
    ensures Extend(Extend(Stack([[]], f0, i), j), k)
            == Extend(Extend(Stack([[]], f0, i - 1), j), k) + [[i, j, k]]
  {
    StackSnoc([[]], f0, i);
    var e: seq<seq<int>> := Extend([[]], i);
    assert |e| == 1 && e[0] == [] + [i];
    assert [] + [i] == [i];
    assert e[0] == [i];
    assert e == [[i]];
    var s := Stack([[]], f0, i - 1);
    ExtendSnoc(s, [i], j);
    assert [i] + [j] == [i, j];
    ExtendSnoc(Extend(s, j), [i, j], k);
    assert [i, j] + [k] == [i, j, k];
  }

  /** One more row at the end of a plane. */
  lemma RowStep(row: seq<seq<int>>, f1: int, j: int, k: int)
    requires f1 <= j
    ensures Extend(Stack(row, f1, j), k) == Extend(Stack(row, f1, j - 1), k) + Extend(Extend(row, j), k)
  {
    StackSnoc(row, f1, j);
    ExtendConcat(Stack(row, f1, j - 1), Extend(row, j), k);
  }

  lemma LinearNext(i: int, j: int, k: int, nc: int)
    ensures Linear([i + 1, j, k], nc) == Linear([i, j, k], nc) + 1
  {
    LinearSmall([i, j, k], nc);
    LinearSmall([i + 1, j, k], nc);
  }

  /** A three-dimensional sub-tile is a stack of planes, a plane a stack of rows. */
  lemma SubTileLayers(from: seq<int>, to: seq<int>)
    requires |from| == 3 && |to| == 3
    ensures Box(from[..1], to[..1]) == Stack([[]], from[0], to[0])
    ensures Box(from[..2], to[..2]) == Stack(Box(from[..1], to[..1]), from[1], to[1])
    ensures Box(from, to) == Stack(Box(from[..2], to[..2]), from[2], to[2])
  {
    assert Init(from[..1]) == [] && Init(to[..1]) == [];
    assert Box([], []) == [[]];
    assert Init(from[..2]) == from[..1] && Init(to[..2]) == to[..1];
    assert Init(from) == from[..2] && Init(to) == to[..2];
  }

  /** The innermost loop of the counted sub-tile iteration: row j of plane k,
      one cell and one counter increment at a time; the counter ends one past
      the row's last index. */
  method CountedRow(nc: int, from: seq<int>, to: seq<int>, start: int, j: int, k: int, c0: int)
    returns (cells: seq<seq<int>>, counters: seq<int>, c: int)
    requires FromTo(3, nc, from, to)
    requires c0 == Linear([from[0], j, k], nc) - Linear(from, nc) + start
    ensures cells == Extend(Extend(Stack([[]], from[0], to[0]), j), k)
    ensures Counted(nc, from, start, cells, counters)
    ensures c == Linear([to[0], j, k], nc) + 1 - Linear(from, nc) + start
  {
    cells, counters, c := [], [], c0;
    var i := from[0];
    while i <= to[0]
      invariant from[0] <= i <= to[0] + 1
      invariant cells == Extend(Extend(Stack([[]], from[0], i - 1), j), k)
      invariant Counted(nc, from, start, cells, counters)
      invariant c == Linear([i, j, k], nc) - Linear(from, nc) + start
    {
      CellStep(from[0], i, j, k);
      CountedSnoc(nc, from, start, cells, counters, [i, j, k], c);
      cells := cells + [[i, j, k]];
      counters := counters + [c];
      LinearNext(i, j, k, nc);
      i := i + 1;
      c := c + 1;
    }
    LinearNext(to[0], j, k, nc);
  }

  /** The middle loop: the rows of plane k, with the row offset added after
      each row, so that every row starts at its first cell's index; the
      counter ends where a row past the plane would start. */
  method CountedPlane(nc: int, from: seq<int>, to: seq<int>, start: int, k: int, c0: int)
    returns (cells: seq<seq<int>>, counters: seq<int>, c: int)
    requires FromTo(3, nc, from, to)
    requires c0 == Linear([from[0], from[1], k], nc) - Linear(from, nc) + start
    ensures cells == Extend(Stack(Stack([[]], from[0], to[0]), from[1], to[1]), k)
    ensures Counted(nc, from, start, cells, counters)
    ensures c == Linear([from[0], to[1] + 1, k], nc) - Linear(from, nc) + start
  {
    var os := Offsets(3, nc, from, to);
    ghost var row := Stack([[]], from[0], to[0]);
    cells, counters, c := [], [], c0;
    var j := from[1];
    while j <= to[1]
      invariant from[1] <= j <= to[1] + 1
      invariant cells == Extend(Stack(row, from[1], j - 1), k)
      invariant Counted(nc, from, start, cells, counters)
      invariant c == Linear([from[0], j, k], nc) - Linear(from, nc) + start
    {
      var rowCells, rowCounters;
      rowCells, rowCounters, c := CountedRow(nc, from, to, start, j, k, c);
      RowStep(row, from[1], j, k);
      CountedConcat(nc, from, start, cells, counters, rowCells, rowCounters);
      cells, counters := cells + rowCells, counters + rowCounters;
      RowJump(nc, from, to, j, k);
      c := c + os[1];
      j := j + 1;
    }
  }

  /** The three-dimensional sub-tile loop that counts the index with the
      iteration offsets instead of computing it, starting the counter at
      `start`: it visits the sub-tile in order and every counter is the
      cell's index shifted by start - index(from). */
  method CountedSubTile(nc: int, from: seq<int>, to: seq<int>, start: int)
    returns (cells: seq<seq<int>>, counters: seq<int>)
    requires FromTo(3, nc, from, to)
    ensures cells == ForEachSub(from, to)
    ensures Counted(nc, from, start, cells, counters)
  {
    var os := Offsets(3, nc, from, to);
    ghost var plane := Stack(Stack([[]], from[0], to[0]), from[1], to[1]);
    LinearSmall(from, nc);
    assert from == [from[0], from[1], from[2]];
    cells, counters := [], [];
    var c := start;
    var k := from[2];
    while k <= to[2]
      invariant from[2] <= k <= to[2] + 1
      invariant cells == Stack(plane, from[2], k - 1)
      invariant Counted(nc, from, start, cells, counters)
      invariant c == Linear([from[0], from[1], k], nc) - Linear(from, nc) + start
    {
      var planeCells, planeCounters;
      planeCells, planeCounters, c := CountedPlane(nc, from, to, start, k, c);
      StackSnoc(plane, from[2], k);
      CountedConcat(nc, from, start, cells, counters, planeCells, planeCounters);
      cells, counters := cells + planeCells, counters + planeCounters;
      OffsetsJump(3, nc, from, to, to[1], k);
      c := c + os[2];
      k := k + 1;
    }
    SubTileIsStack(from, to);
  }

  /** The sub-tile is the stack of its planes, each the stack of its rows. */
  lemma SubTileIsStack(from: seq<int>, to: seq<int>)
    requires |from| == 3 && |to| == 3
    ensures ForEachSub(from, to) == Stack(Stack(Stack([[]], from[0], to[0]), from[1], to[1]), from[2], to[2])
  {
    SubTileLayers(from, to);
  }

  /** The loop exactly as the documentation of the offsets writes it, with
      the counter starting at 0: its first counter is 0 while the first cell
      has the index of `from`. */
  method CountedSubTileAsDocumented(nc: int, from: seq<int>, to: seq<int>)
    returns (cells: seq<seq<int>>, counters: seq<int>)
    requires FromTo(3, nc, from, to)
    ensures cells == ForEachSub(from, to)
    ensures |counters| == |cells|
    ensures |cells| > 0 && cells[0] == from && counters[0] == 0
    ensures forall n :: 0 <= n < |cells| ==> counters[n] == Linear(cells[n], nc) - Linear(from, nc)
  {
    cells, counters := CountedSubTile(nc, from, to, 0);
    BoxEnds(from, to);
    forall n | 0 <= n < |cells|
      ensures counters[n] == Linear(cells[n], nc) - Linear(from, nc)
    {
      assert counters[n] == Linear(cells[n], nc) - Linear(from, nc) + 0;
    }
  }

  /** With the counter started at the index of `from`, every counter is the
      index of the cell it is emitted with. */
  method CountedSubTileIndexed(nc: int, from: seq<int>, to: seq<int>)
    returns (cells: seq<seq<int>>, counters: seq<int>)
    requires FromTo(3, nc, from, to)
    ensures cells == ForEachSub(from, to)
    ensures |counters| == |cells|
    ensures forall n :: 0 <= n < |cells| ==> counters[n] == Linear(cells[n], nc)
  {
    cells, counters := CountedSubTile(nc, from, to, Linear(from, nc));
    forall n | 0 <= n < |cells|
      ensures counters[n] == Linear(cells[n], nc)
    {
      assert counters[n] == Linear(cells[n], nc) - Linear(from, nc) + Linear(from, nc);
    }
  }

  /** In a tile with two cells per axis, the sub-tile from (1, 0, 0) to
      (1, 0, 0) visits the cell (1, 0, 0) first and once, and its index is
      1. The documented counter starts at 0, so CountedSubTileAsDocumented,
      whose counters[0] is 0, hands that cell the counter 0 instead of its
      index. */
  lemma DocumentedCounterIsOff()
    ensures FromTo(3, 2, [1, 0, 0], [1, 0, 0])
    ensures |ForEachSub([1, 0, 0], [1, 0, 0])| > 0 && ForEachSub([1, 0, 0], [1, 0, 0])[0] == [1, 0, 0]
    ensures multiset(ForEachSub([1, 0, 0], [1, 0, 0]))[[1, 0, 0]] == 1
    ensures Linear([1, 0, 0], 2) == 1 != 0
  {
    var c := [1, 0, 0];
    LinearSmall(c, 2);
    assert FromTo(3, 2, c, c);
    BoxEnds(c, c);
    assert InBox(c, c, c);
    ForEachSubExact(3, 2, c, c, c);
  }

  // ------------------------------------------------------------------
  // Neighbours across a manifold

  /** The neighbours of x across the manifold whose offsets are m, at
      distance dist, in manifold order, keeping only those inside the tile. */
  function NeighborsOf(nd: nat, nc: int, x: seq<int>, m: seq<seq<int>>, dist: int): seq<seq<int>>
    requires forall p :: 0 <= p < |m| ==> |m[p]| == |x|
    decreases |m|
  {
    if |m| == 0 then []
    else
      var y := Shifted(x, m[|m| - 1], dist);
      NeighborsOf(nd, nc, x, m[..|m| - 1], dist) + (if Valid(nd, nc, y) then [y] else [])
  }

  /** The loop over the manifold's positions: each offset is scaled by dist,
      applied to x, and the moved coordinate is reported when it is inside
      the tile. */
  method ForEachNeighbor(nd: nat, nc: int, x: seq<int>, m: seq<seq<int>>, dist: int)
    returns (r: seq<seq<int>>)
    requires Valid(nd, nc, x)
    requires forall p :: 0 <= p < |m| ==> |m[p]| == nd
    ensures r == NeighborsOf(nd, nc, x, m, dist)
  {
    r := [];
    var pos := 0;
    while pos < |m|
      invariant 0 <= pos <= |m|
      invariant r == NeighborsOf(nd, nc, x, m[..pos], dist)
    {
      var offset := seq(nd, d requires 0 <= d < nd => m[pos][d] * dist);
      var y := seq(nd, d requires 0 <= d < nd => x[d] + offset[d]);
      assert y == Shifted(x, m[pos], dist);
      assert m[..pos + 1][..pos] == m[..pos];
      if Valid(nd, nc, y) {
        r := r + [y];
      }
      pos := pos + 1;
    }
    assert m[..|m|] == m;
  }

  /** Soundness: every reported neighbour lies in the tile and is x moved by
      dist times one of the manifold's offsets. */
  lemma {:induction false} NeighborsSound(nd: nat, nc: int, x: seq<int>, m: seq<seq<int>>, dist: int, y: seq<int>)
    requires forall p :: 0 <= p < |m| ==> |m[p]| == |x|
    requires y in NeighborsOf(nd, nc, x, m, dist)
    ensures Valid(nd, nc, y)
    ensures exists p :: 0 <= p < |m| && y == Shifted(x, m[p], dist)
    decreases |m|
  {
    var last := Shifted(x, m[|m| - 1], dist);
    if y in NeighborsOf(nd, nc, x, m[..|m| - 1], dist) {
      NeighborsSound(nd, nc, x, m[..|m| - 1], dist, y);
      var p :| 0 <= p < |m| - 1 && y == Shifted(x, m[..|m| - 1][p], dist);
      assert m[..|m| - 1][p] == m[p];
    } else {
      assert y == last;
    }
  }

  /** Completeness: every offset of the manifold that keeps x inside the
      tile yields a reported neighbour. */
  lemma {:induction false} NeighborsComplete(nd: nat, nc: int, x: seq<int>, m: seq<seq<int>>, dist: int, p: nat)
    requires forall q :: 0 <= q < |m| ==> |m[q]| == |x|
    requires p < |m| && Valid(nd, nc, Shifted(x, m[p], dist))
    ensures Shifted(x, m[p], dist) in NeighborsOf(nd, nc, x, m, dist)
    decreases |m|
  {
    if p < |m| - 1 {
      assert m[..|m| - 1][p] == m[p];
      NeighborsComplete(nd, nc, x, m[..|m| - 1], dist, p);
    }
  }
}
