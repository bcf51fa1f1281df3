/**
 * The ring iteration of a square tile and the closest-cell query built on it.
 * A ring of width w + 1 around the box [from, to] is the set of cells of the
 * box that lie within w cells of one of its faces; the loops emit it slab by
 * slab (the lower slab of the last axis, then for each middle layer the ring
 * of the remaining axes, then the upper slab). The closest-cell query scans
 * rings of growing Chebyshev radius around a cell, clamped to the tile, and
 * stops at the first ring holding a cell that satisfies the predicate.
 */
module TileRings {
  import opened Wrappers
  import opened Boxes
  import opened Coordinates
  import opened TileCoordinate

  // ------------------------------------------------------------------
  // Rings

  /** The precondition of the ring iterators: on every axis the lower and the
      upper slab of width w + 1 do not overlap. */
  predicate RingOk(from: seq<int>, to: seq<int>, w: nat)
  {
    |from| == |to| && forall d :: 0 <= d < |from| ==> to[d] - w > from[d] + w
  }

  /** The cells the ring loops visit, in their order. */
  function Ring(from: seq<int>, to: seq<int>, w: nat): seq<seq<int>>
    requires |from| == |to| && |from| >= 1
    decreases |from|
  {
    if |from| == 1 then Box(from, [from[0] + w]) + Box([to[0] - w], to)
    else Layers(from, to, w, Ring(Init(from), Init(to), w))
  }

  /** The loop over the last axis of a ring: the lower slab of w + 1 full
      layers, then the middle layers, each holding the ring `inner` of the
      leading axes, then the upper slab of w + 1 full layers. */
  function Layers(from: seq<int>, to: seq<int>, w: nat, inner: seq<seq<int>>): seq<seq<int>>
    requires |from| == |to| && |from| > 1
  {
    var f, t := Init(from), Init(to);
    var a, b := Last(from), Last(to);
    Box(from, t + [a + w]) + Stack(inner, a + w + 1, b - w - 1) + Box(f + [b - w], to)
  }

  /** y is within w cells of a lower or an upper face of [from, to]. */
  predicate NearFace(y: seq<int>, from: seq<int>, to: seq<int>, w: nat)
    requires |y| == |from| == |to|
  {
    exists d :: 0 <= d < |y| && (y[d] <= from[d] + w || y[d] >= to[d] - w)
  }

  lemma NearFaceSplit(y: seq<int>, from: seq<int>, to: seq<int>, w: nat)
    requires |y| == |from| == |to| && |y| > 0
    ensures NearFace(y, from, to, w)
            <==> Last(y) <= Last(from) + w || Last(y) >= Last(to) - w || NearFace(Init(y), Init(from), Init(to), w)
  {
    var n := |y| - 1;
    if NearFace(y, from, to, w) {
      var d :| 0 <= d < |y| && (y[d] <= from[d] + w || y[d] >= to[d] - w);
      if d < n {
        assert Init(y)[d] == y[d] && Init(from)[d] == from[d] && Init(to)[d] == to[d];
      }
    }
    if NearFace(Init(y), Init(from), Init(to), w) {
      var d :| 0 <= d < n && (Init(y)[d] <= Init(from)[d] + w || Init(y)[d] >= Init(to)[d] - w);
      assert Init(y)[d] == y[d] && Init(from)[d] == from[d] && Init(to)[d] == to[d];
    }
    if Last(y) <= Last(from) + w || Last(y) >= Last(to) - w {
      assert y[n] <= from[n] + w || y[n] >= to[n] - w;
    }
  }

  lemma RingOkInit(from: seq<int>, to: seq<int>, w: nat)
    requires RingOk(from, to, w) && |from| > 1
    ensures RingOk(Init(from), Init(to), w)
    ensures Last(to) - w > Last(from) + w
  {
    forall d | 0 <= d < |from| - 1 ensures Init(to)[d] - w > Init(from)[d] + w {
      assert Init(to)[d] == to[d] && Init(from)[d] == from[d];
    }
  }

  /** The multiplicity of a cell of the right length in a box, split into
      the leading axes and the last one. */
  lemma SlabMultiplicity(lo: seq<int>, hi: seq<int>, y: seq<int>)
    requires |lo| == |hi| && |lo| > 0 && |y| == |lo|
    ensures multiset(Box(lo, hi))[y]
            == if InBox(Init(y), Init(lo), Init(hi)) && Last(lo) <= Last(y) <= Last(hi) then 1 else 0
  {
    BoxMultiplicity(lo, hi, y);
    InBoxSplit(y, lo, hi);
  }

  lemma {:induction false} RingMultiplicity1(from: seq<int>, to: seq<int>, w: nat, y: seq<int>)
    requires RingOk(from, to, w) && |from| == 1
    ensures multiset(Ring(from, to, w))[y]
            == if |y| == |from| && InBox(y, from, to) && NearFace(y, from, to, w) then 1 else 0
  {
    assert to[0] - w > from[0] + w;
    var A, B := Box(from, [from[0] + w]), Box([to[0] - w], to);
    assert multiset(A + B)[y] == multiset(A)[y] + multiset(B)[y];
    if |y| == 1 {
      SlabMultiplicity(from, [from[0] + w], y);
      SlabMultiplicity([to[0] - w], to, y);
      InBoxSplit(y, from, to);
      NearFaceSplit(y, from, to, w);
      assert Init(y) == [] && Init(from) == [] && Init(to) == [];
      assert !NearFace([], [], [], w);
      assert InBox([], [], []);
    } else {
      BoxMultiplicity(from, [from[0] + w], y);
      BoxMultiplicity([to[0] - w], to, y);
    }
  }

  /** The case analysis on the last axis behind RingStep, on plain values. */
  lemma RingCases(inInit: bool, nearInit: bool, a: int, b: int, w: nat, z: int, m1: nat, m2: nat, m3: nat)
    requires a + w < b - w
    requires m1 == if inInit && a <= z <= a + w then 1 else 0
    requires m2 == if a + w + 1 <= z <= b - w - 1 then (if inInit && nearInit then 1 else 0) else 0
    requires m3 == if inInit && b - w <= z <= b then 1 else 0
    ensures m1 + m2 + m3 == if inInit && a <= z <= b && (z <= a + w || z >= b - w || nearInit) then 1 else 0
  {
  }

  /** The multiplicity of a cell of the right length in the layers, one
      axis at a time: the lower slab, the middle layers and the upper slab. */
  lemma LayersMultiplicity(from: seq<int>, to: seq<int>, w: nat, inner: seq<seq<int>>, y: seq<int>,
                           a: int, b: int, z: int, inInit: bool, nearInit: bool)
    requires |from| == |to| && |from| > 1 && |y| == |from|
    requires a == Last(from) && b == Last(to) && z == Last(y) && a + w < b - w
    requires inInit == InBox(Init(y), Init(from), Init(to))
    requires multiset(inner)[Init(y)] == if inInit && nearInit then 1 else 0
    ensures multiset(Layers(from, to, w, inner))[y]
            == if inInit && a <= z <= b && (z <= a + w || z >= b - w || nearInit) then 1 else 0
  {
    var f, t := Init(from), Init(to);
    var lower, upper := t + [a + w], f + [b - w];
    assert Init(lower) == t && Last(lower) == a + w;
    assert Init(upper) == f && Last(upper) == b - w;
    var c, top := a + w + 1, b - w - 1;
    var A, B, C := Box(from, lower), Stack(inner, c, top), Box(upper, to);
    assert Layers(from, to, w, inner) == A + B + C;
    assert multiset(A + B + C)[y] == multiset(A)[y] + multiset(B)[y] + multiset(C)[y];
    SlabMultiplicity(from, lower, y);
    StackMultiplicity(inner, c, top, y);
    SlabMultiplicity(upper, to, y);
    RingCases(inInit, nearInit, a, b, w, z, multiset(A)[y], multiset(B)[y], multiset(C)[y]);
  }

  /** A cell of another length is in the layers only as often as its
      leading axes are in `inner`. */
  lemma LayersOtherLength(from: seq<int>, to: seq<int>, w: nat, inner: seq<seq<int>>, y: seq<int>, c: int, top: int)
    requires |from| == |to| && |from| > 1 && |y| != |from|
    requires c == Last(from) + w + 1 && top == Last(to) - w - 1
    ensures multiset(Layers(from, to, w, inner))[y]
            == if |y| > 0 && c <= Last(y) <= top then multiset(inner)[Init(y)] else 0
  {
    var lower, upper := Init(to) + [Last(from) + w], Init(from) + [Last(to) - w];
    var A, B, C := Box(from, lower), Stack(inner, c, top), Box(upper, to);
    assert Layers(from, to, w, inner) == A + B + C;
    assert multiset(A + B + C)[y] == multiset(A)[y] + multiset(B)[y] + multiset(C)[y];
    BoxMultiplicity(from, lower, y);
    BoxMultiplicity(upper, to, y);
    StackMultiplicity(inner, c, top, y);
  }

  /** A cell of another length is never emitted. */
  lemma {:induction false} RingOtherLength(from: seq<int>, to: seq<int>, w: nat, y: seq<int>)
    requires |from| == |to| && |from| >= 1 && |y| != |from|
    ensures multiset(Ring(from, to, w))[y] == 0
    decreases |from|
  {
    if |from| == 1 {
      var A, B := Box(from, [from[0] + w]), Box([to[0] - w], to);
      assert multiset(A + B)[y] == multiset(A)[y] + multiset(B)[y];
      BoxMultiplicity(from, [from[0] + w], y);
      BoxMultiplicity([to[0] - w], to, y);
    } else {
      LayersOtherLength(from, to, w, Ring(Init(from), Init(to), w), y, Last(from) + w + 1, Last(to) - w - 1);
      if |y| > 0 {
        RingOtherLength(Init(from), Init(to), w, Init(y));
      }
    }
  }

  /** The ring loops emit each cell of [from, to] that lies within w cells of
      a face exactly once, and no other cell. */
  lemma {:induction false} RingMultiplicity(from: seq<int>, to: seq<int>, w: nat, y: seq<int>)
    requires RingOk(from, to, w) && |from| >= 1
    ensures multiset(Ring(from, to, w))[y]
            == if |y| == |from| && InBox(y, from, to) && NearFace(y, from, to, w) then 1 else 0
    decreases |from|
  {
    if |y| != |from| {
      RingOtherLength(from, to, w, y);
    } else if |from| == 1 {
      RingMultiplicity1(from, to, w, y);
    } else {
      RingOkInit(from, to, w);
      RingMultiplicity(Init(from), Init(to), w, Init(y));
      LayersMultiplicity(from, to, w, Ring(Init(from), Init(to), w), y, Last(from), Last(to), Last(y),
                         InBox(Init(y), Init(from), Init(to)), NearFace(Init(y), Init(from), Init(to), w));
      InBoxSplit(y, from, to);
      NearFaceSplit(y, from, to, w);
    }
  }

  /** The ring holds no cell twice. */
  lemma RingDistinct(from: seq<int>, to: seq<int>, w: nat)
    requires RingOk(from, to, w) && |from| >= 1
    ensures forall i, j :: 0 <= i < j < |Ring(from, to, w)| ==> Ring(from, to, w)[i] != Ring(from, to, w)[j]
  {
    var s := Ring(from, to, w);
    forall i, j | 0 <= i < j < |s| ensures s[i] != s[j] {
      if s[i] == s[j] {
        RepeatedMultiplicity(s, i, j);
        RingMultiplicity(from, to, w, s[i]);
        assert false;
      }
    }
  }

  /** Every ring cell has as many axes as the box. */
  lemma RingLengths(from: seq<int>, to: seq<int>, w: nat)
    requires RingOk(from, to, w) && |from| >= 1
    ensures forall m :: 0 <= m < |Ring(from, to, w)| ==> |Ring(from, to, w)[m]| == |from|
  {
    forall m | 0 <= m < |Ring(from, to, w)| ensures |Ring(from, to, w)[m]| == |from| {
      RingMembership(from, to, w, Ring(from, to, w)[m]);
    }
  }

  /** Membership in the ring. */
  lemma RingMembership(from: seq<int>, to: seq<int>, w: nat, y: seq<int>)
    requires RingOk(from, to, w) && |from| >= 1
    ensures y in Ring(from, to, w) <==> |y| == |from| && InBox(y, from, to) && NearFace(y, from, to, w)
  {
    RingMultiplicity(from, to, w, y);
  }

  // ------------------------------------------------------------------
  // The rings around a cell, clamped to the tile

  /** The lower corner of the ring of radius r around x. */
  function Lo(x: seq<int>, r: int): (lo: seq<int>)
    ensures |lo| == |x|
  {
    seq(|x|, d requires 0 <= d < |x| => if x[d] - r >= 0 then x[d] - r else 0)
  }

  /** The upper corner of the ring of radius r around x. */
  function Hi(nc: int, x: seq<int>, r: int): (hi: seq<int>)
    ensures |hi| == |x|
  {
    seq(|x|, d requires 0 <= d < |x| => if x[d] + r <= nc - 1 then x[d] + r else nc - 1)
  }

  /** Moving the corners outwards with OffsetIfValid grows the radius by one:
      the query's corners after `ring - 1` steps are Lo(x, ring) and Hi(x, ring). */
  lemma CornersStep(nc: int, x: seq<int>, r: nat)
    requires Valid(|x|, nc, x)
    ensures OffsetIfValid(nc, Lo(x, r), -1) == Lo(x, r + 1)
    ensures OffsetIfValid(nc, Hi(nc, x, r), 1) == Hi(nc, x, r + 1)
  {
  }

  lemma CornersZero(nc: int, x: seq<int>)
    requires Valid(|x|, nc, x)
    ensures Lo(x, 0) == x && Hi(nc, x, 0) == x
  {
  }

  /** With at least two cells per axis the clamped corners of every ring of
      radius at least one satisfy the ring precondition for width 0. */
  lemma CornersRingOk(nc: int, x: seq<int>, r: nat)
    requires Valid(|x|, nc, x) && nc >= 2 && r >= 1
    ensures RingOk(Lo(x, r), Hi(nc, x, r), 0)
    ensures Valid(|x|, nc, Lo(x, r)) && Valid(|x|, nc, Hi(nc, x, r))
  {
  }

  /** The cells scanned in ring `r` of the query around x. */
  function RingCells(nc: int, x: seq<int>, r: nat): (cells: seq<seq<int>>)
    requires Valid(|x|, nc, x) && |x| >= 1 && nc >= 2 && r >= 1
    ensures forall m :: 0 <= m < |cells| ==> |cells[m]| == |x|
    ensures forall i, j :: 0 <= i < j < |cells| ==> cells[i] != cells[j]
  {
    CornersRingOk(nc, x, r);
    RingLengths(Lo(x, r), Hi(nc, x, r), 0);
    RingDistinct(Lo(x, r), Hi(nc, x, r), 0);
    Ring(Lo(x, r), Hi(nc, x, r), 0)
  }

  /** Every scanned cell lies inside the tile, so the source's validity test
      on it always passes. */
  lemma RingCellsValid(nc: int, x: seq<int>, r: nat, y: seq<int>)
    requires Valid(|x|, nc, x) && |x| >= 1 && nc >= 2 && r >= 1
    requires y in RingCells(nc, x, r)
    ensures Valid(|x|, nc, y)
  {
    CornersRingOk(nc, x, r);
    RingMembership(Lo(x, r), Hi(nc, x, r), 0, y);
    forall d | 0 <= d < |x| ensures 0 <= y[d] <= nc - 1 {
      assert Lo(x, r)[d] <= y[d] <= Hi(nc, x, r)[d];
    }
  }

  // ------------------------------------------------------------------
  // The closest-cell query

  /** No scanned cell satisfies the predicate. */
  predicate NoMatch(p: seq<int> -> bool, cells: seq<seq<int>>)
  {
    forall m :: 0 <= m < |cells| ==> !p(cells[m])
  }

  /** y is a cell of `cells` that satisfies p and no satisfying cell of
      `cells` is strictly closer to x. */
  predicate IsClosest(x: seq<int>, p: seq<int> -> bool, cells: seq<seq<int>>, y: seq<int>)
    requires forall m :: 0 <= m < |cells| ==> |cells[m]| == |x|
  {
    y in cells && p(y)
    && forall m :: 0 <= m < |cells| && p(cells[m]) ==> Dist2(x, y) <= Dist2(x, cells[m])
  }

  /** No other satisfying cell of `cells` is as close to x as y. */
  predicate UniqueClosest(x: seq<int>, p: seq<int> -> bool, cells: seq<seq<int>>, y: seq<int>)
    requires |y| == |x| && forall m :: 0 <= m < |cells| ==> |cells[m]| == |x|
  {
    forall m :: 0 <= m < |cells| && p(cells[m]) && Dist2(x, cells[m]) == Dist2(x, y) ==> cells[m] == y
  }

  /** The number of positions of `cells` holding a satisfying cell at squared
      distance dd from x. */
  function CountAt(x: seq<int>, p: seq<int> -> bool, cells: seq<seq<int>>, dd: int): nat
    requires forall m :: 0 <= m < |cells| ==> |cells[m]| == |x|
    decreases |cells|
  {
    if |cells| == 0 then 0
    else
      var y := cells[|cells| - 1];
      CountAt(x, p, cells[..|cells| - 1], dd) + (if p(y) && Dist2(x, y) == dd then 1 else 0)
  }

  lemma {:induction false} CountAtZero(x: seq<int>, p: seq<int> -> bool, cells: seq<seq<int>>, dd: int)
    requires forall m :: 0 <= m < |cells| ==> |cells[m]| == |x|
    ensures CountAt(x, p, cells, dd) == 0
            <==> forall m :: 0 <= m < |cells| && p(cells[m]) ==> Dist2(x, cells[m]) != dd
    decreases |cells|
  {
    if |cells| > 0 {
      var n := |cells| - 1;
      CountAtZero(x, p, cells[..n], dd);
      assert forall m :: 0 <= m < n ==> cells[..n][m] == cells[m];
    }
  }

  /** Scanning one more cell adds that cell's contribution to the count. */
  lemma CountAtSnoc(x: seq<int>, p: seq<int> -> bool, cells: seq<seq<int>>, n: nat, dd: int)
    requires forall m :: 0 <= m < |cells| ==> |cells[m]| == |x|
    requires n < |cells|
    ensures CountAt(x, p, cells[..n + 1], dd)
            == CountAt(x, p, cells[..n], dd) + (if p(cells[n]) && Dist2(x, cells[n]) == dd then 1 else 0)
  {
    assert cells[..n + 1][..n] == cells[..n];
  }

  /** At most one satisfying cell at distance dd exactly when no two
      positions hold one. */
  lemma {:induction false} CountAtAtMostOne(x: seq<int>, p: seq<int> -> bool, cells: seq<seq<int>>, dd: int)
    requires forall m :: 0 <= m < |cells| ==> |cells[m]| == |x|
    ensures CountAt(x, p, cells, dd) <= 1
            <==> forall i, j :: (0 <= i < |cells| && 0 <= j < |cells| && p(cells[i]) && Dist2(x, cells[i]) == dd
                                 && p(cells[j]) && Dist2(x, cells[j]) == dd) ==> i == j
    decreases |cells|
  {
    if |cells| > 0 {
      var n := |cells| - 1;
      var init := cells[..n];
      assert forall m :: 0 <= m < n ==> init[m] == cells[m];
      CountAtAtMostOne(x, p, init, dd);
      CountAtZero(x, p, init, dd);
    }
  }

  /** The callback of the query, applied to the cells of one ring in order:
      a satisfying cell strictly closer than the best so far replaces it and
      resets the tie counter; one exactly as close increments the counter.
      The cells of a ring are distinct (RingDistinct). */
  method ScanRing(x: seq<int>, p: seq<int> -> bool, cells: seq<seq<int>>)
    returns (best: Option<seq<int>>, count: nat)
    requires forall m :: 0 <= m < |cells| ==> |cells[m]| == |x|
    requires forall i, j :: 0 <= i < j < |cells| ==> cells[i] != cells[j]
    ensures best.None? <==> NoMatch(p, cells)
    ensures best.Some? ==> |best.value| == |x| && IsClosest(x, p, cells, best.value)
    ensures best.Some? ==> (count == 0 <==> UniqueClosest(x, p, cells, best.value))
  {
    best, count := None, 0;
    ghost var at := 0;
    var n := 0;
    while n < |cells|
      invariant 0 <= n <= |cells|
      invariant Scanned(x, p, cells, n, best, count, at)
    {
      var y := cells[n];
      if p(y) && best.None? {
        ScanCloser(x, p, cells, n, best, count, at);
        count := 0;
        best := Some(y);
        at := n;
      } else if p(y) {
        var d, bd := Dist2(x, y), Dist2(x, best.value);
        if d == bd {
          ScanTie(x, p, cells, n, best, count, at);
          count := count + 1;
        } else if d < bd {
          ScanCloser(x, p, cells, n, best, count, at);
          count := 0;
          best := Some(y);
          at := n;
        } else {
          ScanSkipSome(x, p, cells, n, best.value, count, at);
        }
      } else if best.Some? {
        ScanSkipSome(x, p, cells, n, best.value, count, at);
      } else {
        ScanSkipNone(x, p, cells, n, at);
      }
      n := n + 1;
    }
    ScanDone(x, p, cells, best, count, at);
  }

  /** The state after every cell answers the query. */
  lemma ScanDone(x: seq<int>, p: seq<int> -> bool, cells: seq<seq<int>>,
                 best: Option<seq<int>>, count: nat, at: nat)
    requires forall m :: 0 <= m < |cells| ==> |cells[m]| == |x|
    requires forall i, j :: 0 <= i < j < |cells| ==> cells[i] != cells[j]
    requires Scanned(x, p, cells, |cells|, best, count, at)
    ensures best.None? <==> NoMatch(p, cells)
    ensures best.Some? ==> |best.value| == |x| && IsClosest(x, p, cells, best.value)
    ensures best.Some? ==> (count == 0 <==> UniqueClosest(x, p, cells, best.value))
  {
    assert cells[..|cells|] == cells;
    if best.Some? {
      ScanOutcome(x, p, cells, best.value, at, count);
    }
  }

  /** The state of the scan after the first n cells: the best cell so far,
      its position and the number of further cells exactly as close. */
  ghost predicate Scanned(x: seq<int>, p: seq<int> -> bool, cells: seq<seq<int>>, n: nat,
                          best: Option<seq<int>>, count: nat, at: nat)
    requires forall m :: 0 <= m < |cells| ==> |cells[m]| == |x|
    requires n <= |cells|
  {
    && (best.None? ==> count == 0 && NoMatch(p, cells[..n]))
    && (best.Some? ==> at < n && cells[at] == best.value && p(best.value)
                       && (forall m :: 0 <= m < n && p(cells[m]) ==> Dist2(x, best.value) <= Dist2(x, cells[m]))
                       && count + 1 == CountAt(x, p, cells[..n], Dist2(x, best.value)))
  }

  /** A satisfying cell exactly as close as the best one adds a tie. */
  lemma ScanTie(x: seq<int>, p: seq<int> -> bool, cells: seq<seq<int>>, n: nat,
                best: Option<seq<int>>, count: nat, at: nat)
    requires forall m :: 0 <= m < |cells| ==> |cells[m]| == |x|
    requires n < |cells| && Scanned(x, p, cells, n, best, count, at)
    requires best.Some? && p(cells[n]) && Dist2(x, cells[n]) == Dist2(x, best.value)
    ensures Scanned(x, p, cells, n + 1, best, count + 1, at)
  {
    CountAtSnoc(x, p, cells, n, Dist2(x, best.value));
  }

  /** A satisfying cell strictly closer than the best one (or the first
      satisfying cell) becomes the best, with no tie. */
  lemma ScanCloser(x: seq<int>, p: seq<int> -> bool, cells: seq<seq<int>>, n: nat,
                   best: Option<seq<int>>, count: nat, at: nat)
    requires forall m :: 0 <= m < |cells| ==> |cells[m]| == |x|
    requires n < |cells| && Scanned(x, p, cells, n, best, count, at)
    requires p(cells[n]) && (best.None? || Dist2(x, cells[n]) < Dist2(x, best.value))
    ensures Scanned(x, p, cells, n + 1, Some(cells[n]), 0, n)
  {
    var d := Dist2(x, cells[n]);
    var init := cells[..n];
    assert forall m :: 0 <= m < n ==> init[m] == cells[m];
    assert forall m :: 0 <= m < n && p(cells[m]) ==> d < Dist2(x, cells[m]);
    assert forall m :: 0 <= m < |init| && p(init[m]) ==> Dist2(x, init[m]) != d;
    CountAtZero(x, p, init, d);
    CountAtSnoc(x, p, cells, n, d);
  }

  /** Before any satisfying cell, a cell that does not satisfy p leaves the
      state as it was. */
  lemma ScanSkipNone(x: seq<int>, p: seq<int> -> bool, cells: seq<seq<int>>, n: nat, at: nat)
    requires forall m :: 0 <= m < |cells| ==> |cells[m]| == |x|
    requires n < |cells| && Scanned(x, p, cells, n, None, 0, at)
    requires !p(cells[n])
    ensures Scanned(x, p, cells, n + 1, None, 0, at)
  {
    var init, next := cells[..n], cells[..n + 1];
    assert forall m :: 0 <= m < n ==> init[m] == cells[m] && next[m] == cells[m];
  }

  /** After a satisfying cell, a cell that does not satisfy p or lies
      strictly farther than the best one leaves the state as it was. */
  lemma ScanSkipSome(x: seq<int>, p: seq<int> -> bool, cells: seq<seq<int>>, n: nat,
                     y: seq<int>, count: nat, at: nat)
    requires forall m :: 0 <= m < |cells| ==> |cells[m]| == |x|
    requires n < |cells| && Scanned(x, p, cells, n, Some(y), count, at)
    requires !p(cells[n]) || Dist2(x, cells[n]) > Dist2(x, y)
    ensures Scanned(x, p, cells, n + 1, Some(y), count, at)
  {
    CountAtSnoc(x, p, cells, n, Dist2(x, y));
  }

  /** The tie counter after a scan is zero exactly when the closest cell is unique. */
  lemma ScanOutcome(x: seq<int>, p: seq<int> -> bool, cells: seq<seq<int>>, y: seq<int>, at: nat, count: nat)
    requires forall m :: 0 <= m < |cells| ==> |cells[m]| == |x|
    requires forall i, j :: 0 <= i < j < |cells| ==> cells[i] != cells[j]
    requires at < |cells| && cells[at] == y && p(y)
    requires count + 1 == CountAt(x, p, cells, Dist2(x, y))
    ensures count == 0 <==> UniqueClosest(x, p, cells, y)
  {
    CountAtAtMostOne(x, p, cells, Dist2(x, y));
    if count == 0 {
      forall m | 0 <= m < |cells| && p(cells[m]) && Dist2(x, cells[m]) == Dist2(x, y)
        ensures cells[m] == y
      {
        assert m == at;
      }
    } else {
      var i, j :| 0 <= i < |cells| && 0 <= j < |cells| && p(cells[i]) && Dist2(x, cells[i]) == Dist2(x, y)
                  && p(cells[j]) && Dist2(x, cells[j]) == Dist2(x, y) && i != j;
      if cells[i] == y {
        assert cells[j] != y by {
          if i < j {} else {}
        }
      }
    }
  }

  /** The outcome of the query: no satisfying cell within the distance
      bound, the closest one, or a closest one that ties with another (the
      source's debug assertion fires; a release build returns the cell). */
  datatype Closest = NotFound | Found(cell: seq<int>) | Tie(cell: seq<int>)

  /** No ring of radius 1 .. R - 1 holds a satisfying cell. */
  ghost predicate NoneBefore(nc: int, x: seq<int>, p: seq<int> -> bool, R: nat)
    requires |x| >= 1 && nc >= 2 && Valid(|x|, nc, x)
  {
    forall k :: 1 <= k < R ==> NoMatch(p, RingCells(nc, x, k))
  }

  /** r answers the query with ring R: no earlier ring holds a satisfying
      cell, r's cell is a closest satisfying cell of ring R, and r is Found
      exactly when no other satisfying cell of the ring is as close. */
  ghost predicate Answers(nc: int, x: seq<int>, p: seq<int> -> bool, r: Closest, R: nat)
    requires |x| >= 1 && nc >= 2 && Valid(|x|, nc, x)
  {
    && !r.NotFound? && R >= 1 && NoneBefore(nc, x, p, R)
    && |r.cell| == |x| && IsClosest(x, p, RingCells(nc, x, R), r.cell)
    && (r.Found? <==> UniqueClosest(x, p, RingCells(nc, x, R), r.cell))
  }

  /** The corners tracked by the query span ring `ring`. */
  lemma RingAt(nc: int, x: seq<int>, ring: nat, lo: seq<int>, hi: seq<int>)
    requires |x| >= 1 && nc >= 2 && Valid(|x|, nc, x) && ring >= 1
    requires lo == Lo(x, ring) && hi == Hi(nc, x, ring)
    ensures |lo| == |hi| && |lo| >= 1
    ensures Ring(lo, hi, 0) == RingCells(nc, x, ring)
  {
  }

  /** The outcome of scanning one ring after no earlier ring matched. */
  lemma RingScanned(nc: int, x: seq<int>, p: seq<int> -> bool, ring: nat,
                    best: Option<seq<int>>, count: nat)
    requires |x| >= 1 && nc >= 2 && Valid(|x|, nc, x) && ring >= 1
    requires NoneBefore(nc, x, p, ring)
    requires best.None? <==> NoMatch(p, RingCells(nc, x, ring))
    requires best.Some? ==> |best.value| == |x| && IsClosest(x, p, RingCells(nc, x, ring), best.value)
    requires best.Some? ==> (count == 0 <==> UniqueClosest(x, p, RingCells(nc, x, ring), best.value))
    ensures best.None? ==> NoneBefore(nc, x, p, ring + 1)
    ensures best.Some? ==> Answers(nc, x, p, if count == 0 then Found(best.value) else Tie(best.value), ring)
  {
  }

  /** The query: rings of radius 1, 2, ... up to maxDist are scanned until
      one holds a satisfying cell; the closest satisfying cell of that ring
      is returned. R is the radius of that ring. */
  method ClosestCell(nc: int, x: seq<int>, p: seq<int> -> bool, maxDist: nat)
    returns (r: Closest, ghost R: nat)
    requires |x| >= 1 && nc >= 2 && Valid(|x|, nc, x)
    ensures r.NotFound? ==> NoneBefore(nc, x, p, maxDist + 1)
    ensures !r.NotFound? ==> R <= maxDist && Answers(nc, x, p, r, R)
  {
    var ring: nat := 1;
    CornersZero(nc, x);
    CornersStep(nc, x, 0);
    var lo := OffsetIfValid(nc, x, -1);
    var hi := OffsetIfValid(nc, x, 1);
    r, R := NotFound, 0;
    while r.NotFound? && ring <= maxDist
      invariant 1 <= ring <= maxDist + 1
      invariant lo == Lo(x, ring) && hi == Hi(nc, x, ring)
      invariant r.NotFound? ==> NoneBefore(nc, x, p, ring)
      invariant !r.NotFound? ==> R <= maxDist && Answers(nc, x, p, r, R)
      decreases maxDist + 1 - ring
    {
      RingAt(nc, x, ring, lo, hi);
      var cells := Ring(lo, hi, 0);
      var best, count := ScanRing(x, p, cells);
      RingScanned(nc, x, p, ring, best, count);
      if best.Some? {
        r := if count == 0 then Found(best.value) else Tie(best.value);
        R := ring;
      }
      CornersStep(nc, x, ring);
      lo := OffsetIfValid(nc, lo, -1);
      hi := OffsetIfValid(nc, hi, 1);
      ring := ring + 1;
    }
  }

  /** The query with its default maximum distance, the tile length nc. */
  method ClosestCellInTile(nc: int, x: seq<int>, p: seq<int> -> bool)
    returns (r: Closest, ghost R: nat)
    requires |x| >= 1 && nc >= 2 && Valid(|x|, nc, x)
    ensures r.NotFound? ==> NoneBefore(nc, x, p, nc + 1)
    ensures !r.NotFound? ==> R <= nc && Answers(nc, x, p, r, R)
  {
    r, R := ClosestCell(nc, x, p, nc);
  }
}
