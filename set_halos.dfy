/**
 * The halo exchange of a finite-volume solver over a tree of square tiles.
 * Every tile stores one value per cell (its left-hand side); every pair of a
 * tile and one of its neighbours sets some of the tile's halo cells from the
 * neighbour's cells:
 *  - phase 1, for every tile and neighbour: equal levels copy the
 *    neighbour's internal cell containing the halo cell's centroid; a
 *    coarser tile restricts from the finer neighbour; a finer tile does
 *    nothing;
 *  - phase 2, only after phase 1 is over, for every tile coarser than its
 *    neighbour: every internal cell of the tile whose centroid lies in a
 *    halo cell of the neighbour is projected into the neighbour.
 * The centroid-containment queries and the restriction and projection
 * numerics are parameters of the exchange (the Setup). The source hands
 * both operators the whole state; the cells they write are assumptions
 * that Setup.Valid states: restrict writes the halo cell it is given,
 * project an update of the neighbour's halo cells.
 */
module HaloExchange {
  import opened Wrappers

  /** A tile pair: the tile and one of its neighbours. */
  type Pair = (nat, nat)

  /** What the exchange works with besides the cell values: the level and
      neighbours of every tile, the common cell count of the tiles, the cells
      visited by for_each_halo and for_each_internal (cell numbers), and the
      geometric queries and numerics it calls:
      - internalContaining(t, n, h): the internal cell of tile n containing
        the centroid of cell h of tile t;
      - haloContaining(t, n, c): the halo cell of tile n containing the
        centroid of cell c of tile t;
      - restrict(l, t, n, h): the value restricted from tile n into halo
        cell h of tile t, in state l; the source hands restrict that cell,
        and the model assumes it is the only cell restrict writes;
      - project(l, t, c, n): the update projecting internal cell c of tile
        t makes to tile n, in state l: the cells of n it writes, each with
        its new value. */
  datatype Setup<!V(!new)> = Setup(
    levels: seq<nat>,
    neighbors: seq<seq<nat>>,
    size: nat,
    halos: seq<nat>,
    internals: seq<nat>,
    internalContaining: (nat, nat, nat) -> Option<nat>,
    haloContaining: (nat, nat, nat) -> Option<nat>,
    restrict: (seq<seq<V>>, nat, nat, nat) -> V,
    project: (seq<seq<V>>, nat, nat, nat) -> map<nat, V>)
  {
    /** Neighbours are other tiles; halo and internal cells are cells of a
        tile and never the same cell; the containment queries answer with an
        internal, respectively a halo, cell. The last clause is the assumed
        write target of the projection operator, whose code is not part of
        this model: its update names halo cells of the neighbour only. */
    ghost predicate Valid()
    {
      |neighbors| == |levels|
      && (forall t, j :: 0 <= t < |neighbors| && 0 <= j < |neighbors[t]|
            ==> neighbors[t][j] < |levels| && neighbors[t][j] != t)
      && (forall h :: h in halos ==> h < size)
      && (forall c :: c in internals ==> c < size)
      && (forall c :: c in internals ==> c !in halos)
      && (forall t, n, h :: internalContaining(t, n, h).Some? ==> internalContaining(t, n, h).value in internals)
      && (forall t, n, c :: haloContaining(t, n, c).Some? ==> haloContaining(t, n, c).value in halos)
      && (forall l, t, c, n, k :: k in project(l, t, c, n) ==> k in halos)
    }

    /** One value per cell of every tile. */
    predicate Shaped(l: seq<seq<V>>)
    {
      |l| == |levels| && forall u :: 0 <= u < |l| ==> |l[u]| == size
    }

    predicate IsPair(p: Pair)
    {
      p.0 < |levels| && p.1 < |levels| && p.0 != p.1
    }

    predicate AllPairs(ps: seq<Pair>)
    {
      forall i :: 0 <= i < |ps| ==> IsPair(ps[i])
    }
  }

  /** The pairs of tile t with each of its neighbours, in neighbour order. */
  function TilePairs<V(!new)>(s: Setup<V>, t: nat): (r: seq<Pair>)
    requires s.Valid() && t < |s.levels|
    ensures |r| == |s.neighbors[t]| && s.AllPairs(r)
    ensures forall j :: 0 <= j < |r| ==> r[j] == (t, s.neighbors[t][j])
  {
    seq(|s.neighbors[t]|, j requires 0 <= j < |s.neighbors[t]| => (t, s.neighbors[t][j]))
  }

  /** The pairs visited by a pass over tiles 0 .. k - 1. */
  function Pairs<V(!new)>(s: Setup<V>, k: nat): (r: seq<Pair>)
    requires s.Valid() && k <= |s.levels|
    ensures s.AllPairs(r)
  {
    if k == 0 then [] else Pairs(s, k - 1) + TilePairs(s, k - 1)
  }

  // ---------------------------------------------------------------------
  // Copy

  /** Copy into one halo cell h of tile t: the neighbour's internal cell
      containing the centroid, if any. */
  function CopyCell<V(!new)>(s: Setup<V>, dst: seq<V>, src: seq<V>, t: nat, n: nat, h: nat): seq<V>
    requires s.Valid() && |dst| == s.size && |src| == s.size && h < s.size
  {
    match s.internalContaining(t, n, h)
    case None => dst
    case Some(c) => dst[h := src[c]]
  }

  /** copy_internal_cells over the halo cells `cells`, in order: dst is the
      tile's values, src the neighbour's. */
  function CopyHalos<V(!new)>(s: Setup<V>, dst: seq<V>, src: seq<V>, t: nat, n: nat, cells: seq<nat>): (r: seq<V>)
    requires s.Valid() && |dst| == s.size && |src| == s.size
    requires forall h :: h in cells ==> h in s.halos
    ensures |r| == |dst|
    decreases |cells|
  {
    if |cells| == 0 then dst
    else
      var k := |cells| - 1;
      assert cells[k] in cells;
      CopyCell(s, CopyHalos(s, dst, src, t, n, cells[..k]), src, t, n, cells[k])
  }

  /** What copy writes, cell by cell: a visited halo cell whose centroid lies
      in an internal cell c of the neighbour gets the neighbour's value at c;
      every other cell keeps its value. */
  lemma {:induction false} CopyHalosAt<V(!new)>(s: Setup<V>, dst: seq<V>, src: seq<V>, t: nat, n: nat, cells: seq<nat>, h: nat)
    requires s.Valid() && |dst| == s.size && |src| == s.size && h < s.size
    requires forall x :: x in cells ==> x in s.halos
    ensures s.internalContaining(t, n, h).Some? ==> s.internalContaining(t, n, h).value < s.size
    ensures CopyHalos(s, dst, src, t, n, cells)[h]
            == if h in cells && s.internalContaining(t, n, h).Some?
               then src[s.internalContaining(t, n, h).value] else dst[h]
    decreases |cells|
  {
    if |cells| > 0 {
      var k := |cells| - 1;
      assert cells[k] in cells;
      CopyHalosAt(s, dst, src, t, n, cells[..k], h);
      assert cells == cells[..k] + [cells[k]];
      assert h in cells <==> h in cells[..k] || h == cells[k];
    }
  }

  /** Copy reads only the neighbour's internal cells: two neighbour states
      that agree on them give the same copy. */
  lemma CopyReadsInternals<V(!new)>(s: Setup<V>, dst: seq<V>, src1: seq<V>, src2: seq<V>, t: nat, n: nat, cells: seq<nat>)
    requires s.Valid() && |dst| == s.size && |src1| == s.size && |src2| == s.size
    requires forall x :: x in cells ==> x in s.halos
    requires forall c :: c in s.internals ==> src1[c] == src2[c]
    ensures CopyHalos(s, dst, src1, t, n, cells) == CopyHalos(s, dst, src2, t, n, cells)
  {
    var r1, r2 := CopyHalos(s, dst, src1, t, n, cells), CopyHalos(s, dst, src2, t, n, cells);
    forall h | 0 <= h < |r1|
      ensures r1[h] == r2[h]
    {
      CopyHalosAt(s, dst, src1, t, n, cells, h);
      CopyHalosAt(s, dst, src2, t, n, cells, h);
    }
  }

  /** Copy writes only the visited halo cells. */
  lemma CopyHalosFrame<V(!new)>(s: Setup<V>, dst: seq<V>, src: seq<V>, t: nat, n: nat, cells: seq<nat>, c: nat)
    requires s.Valid() && |dst| == s.size && |src| == s.size && c < s.size
    requires forall x :: x in cells ==> x in s.halos
    requires c !in cells
    ensures CopyHalos(s, dst, src, t, n, cells)[c] == dst[c]
  {
    CopyHalosAt(s, dst, src, t, n, cells, c);
  }

  // ---------------------------------------------------------------------
  // Restrict

  /** Restrict into one halo cell h of tile t, when its centroid lies in an
      internal cell of the neighbour. */
  function RestrictCell<V(!new)>(s: Setup<V>, l: seq<seq<V>>, t: nat, n: nat, h: nat): (r: seq<seq<V>>)
    requires s.Valid() && s.Shaped(l) && t < |l| && h < s.size
    ensures s.Shaped(r)
  {
    if s.internalContaining(t, n, h).None? then l
    else l[t := l[t][h := s.restrict(l, t, n, h)]]
  }

  /** restrict_internal_cells over the halo cells `cells`, in order. */
  function RestrictHalos<V(!new)>(s: Setup<V>, l: seq<seq<V>>, t: nat, n: nat, cells: seq<nat>): (r: seq<seq<V>>)
    requires s.Valid() && s.Shaped(l) && t < |l|
    requires forall h :: h in cells ==> h in s.halos
    ensures s.Shaped(r)
    decreases |cells|
  {
    if |cells| == 0 then l
    else
      var k := |cells| - 1;
      assert cells[k] in cells;
      assert forall c :: c in cells[..k] ==> c in cells;
      RestrictCell(s, RestrictHalos(s, l, t, n, cells[..k]), t, n, cells[k])
  }

  /** Restrict writes only visited halo cells of tile t, restrict being
      assumed to write only the halo cell it is handed. */
  lemma {:induction false} RestrictHalosFrame<V(!new)>(s: Setup<V>, l: seq<seq<V>>, t: nat, n: nat, cells: seq<nat>)
    requires s.Valid() && s.Shaped(l) && t < |l|
    requires forall h :: h in cells ==> h in s.halos
    ensures forall u :: 0 <= u < |l| && u != t ==> RestrictHalos(s, l, t, n, cells)[u] == l[u]
    ensures forall c :: 0 <= c < s.size && c !in cells ==> RestrictHalos(s, l, t, n, cells)[t][c] == l[t][c]
    decreases |cells|
  {
    if |cells| > 0 {
      var k := |cells| - 1;
      assert cells[k] in cells;
      assert forall c :: c in cells[..k] ==> c in cells;
      assert forall c :: c !in cells ==> c !in cells[..k] && c != cells[k];
      RestrictHalosFrame(s, l, t, n, cells[..k]);
    }
  }

  /** The halo cells of tile t whose centroid lies in an internal cell of
      the neighbour, in visiting order. */
  function Located<V(!new)>(s: Setup<V>, t: nat, n: nat, cells: seq<nat>): (r: seq<nat>)
    ensures forall h :: h in r <==> h in cells && s.internalContaining(t, n, h).Some?
    decreases |cells|
  {
    if |cells| == 0 then []
    else
      var k := |cells| - 1;
      assert cells == cells[..k] + [cells[k]];
      if s.internalContaining(t, n, cells[k]).Some? then Located(s, t, n, cells[..k]) + [cells[k]]
      else Located(s, t, n, cells[..k])
  }

  /** restrict called on every cell of a list, unconditionally. */
  function RestrictEach<V(!new)>(s: Setup<V>, l: seq<seq<V>>, t: nat, n: nat, cells: seq<nat>): (r: seq<seq<V>>)
    requires s.Valid() && s.Shaped(l) && t < |l|
    requires forall h :: h in cells ==> h < s.size
    ensures s.Shaped(r)
    decreases |cells|
  {
    if |cells| == 0 then l
    else
      var k := |cells| - 1;
      assert cells[k] in cells;
      assert forall c :: c in cells[..k] ==> c in cells;
      var prev := RestrictEach(s, l, t, n, cells[..k]);
      prev[t := prev[t][cells[k] := s.restrict(prev, t, n, cells[k])]]
  }

  /** Restrict is invoked exactly on the located halo cells, in visiting
      order, and the other halo cells are skipped. */
  lemma {:induction false} RestrictOnlyLocated<V(!new)>(s: Setup<V>, l: seq<seq<V>>, t: nat, n: nat, cells: seq<nat>)
    requires s.Valid() && s.Shaped(l) && t < |l|
    requires forall h :: h in cells ==> h in s.halos
    ensures RestrictHalos(s, l, t, n, cells) == RestrictEach(s, l, t, n, Located(s, t, n, cells))
    decreases |cells|
  {
    if |cells| > 0 {
      var k := |cells| - 1;
      assert cells[k] in cells;
      RestrictOnlyLocated(s, l, t, n, cells[..k]);
      var before := Located(s, t, n, cells[..k]);
      if s.internalContaining(t, n, cells[k]).Some? {
        var after := before + [cells[k]];
        assert after[..|after| - 1] == before;
      }
    }
  }

  // ---------------------------------------------------------------------
  // Project

  /** The values of one tile after an update: the cells the update names
      take its values, every other cell keeps its own. */
  function Overwrite<V(!new)>(vals: seq<V>, upd: map<nat, V>): (r: seq<V>)
    ensures |r| == |vals|
    ensures forall c :: 0 <= c < |vals| ==> r[c] == if c in upd then upd[c] else vals[c]
  {
    seq(|vals|, c requires 0 <= c < |vals| => if c in upd then upd[c] else vals[c])
  }

  /** Project internal cell c of tile t into the neighbour n, when its
      centroid lies in a halo cell of n; the cell itself is not handed to
      the projection, which gets the whole state. */
  function ProjectCell<V(!new)>(s: Setup<V>, l: seq<seq<V>>, t: nat, n: nat, c: nat): (r: seq<seq<V>>)
    requires s.Valid() && s.Shaped(l) && n < |l|
    ensures s.Shaped(r)
  {
    if s.haloContaining(t, n, c).None? then l
    else l[n := Overwrite(l[n], s.project(l, t, c, n))]
  }

  /** project_internal_cells over the internal cells `cells`, in order. */
  function ProjectInternals<V(!new)>(s: Setup<V>, l: seq<seq<V>>, t: nat, n: nat, cells: seq<nat>): (r: seq<seq<V>>)
    requires s.Valid() && s.Shaped(l) && n < |l|
    ensures s.Shaped(r)
    decreases |cells|
  {
    if |cells| == 0 then l
    else
      var k := |cells| - 1;
      ProjectCell(s, ProjectInternals(s, l, t, n, cells[..k]), t, n, cells[k])
  }

  /** Project writes only halo cells of the neighbour n: it holds because
      Setup.Valid assumes every projection update names halo cells only. */
  lemma {:induction false} ProjectInternalsFrame<V(!new)>(s: Setup<V>, l: seq<seq<V>>, t: nat, n: nat, cells: seq<nat>)
    requires s.Valid() && s.Shaped(l) && n < |l|
    ensures forall u :: 0 <= u < |l| && u != n ==> ProjectInternals(s, l, t, n, cells)[u] == l[u]
    ensures forall c :: 0 <= c < s.size && c !in s.halos ==> ProjectInternals(s, l, t, n, cells)[n][c] == l[n][c]
    decreases |cells|
  {
    if |cells| > 0 {
      ProjectInternalsFrame(s, l, t, n, cells[..|cells| - 1]);
    }
  }

  /** The internal cells of tile t whose centroid lies in a halo cell of the
      neighbour, in visiting order. */
  function Overlapping<V(!new)>(s: Setup<V>, t: nat, n: nat, cells: seq<nat>): (r: seq<nat>)
    ensures forall c :: c in r <==> c in cells && s.haloContaining(t, n, c).Some?
    decreases |cells|
  {
    if |cells| == 0 then []
    else
      var k := |cells| - 1;
      assert cells == cells[..k] + [cells[k]];
      if s.haloContaining(t, n, cells[k]).Some? then Overlapping(s, t, n, cells[..k]) + [cells[k]]
      else Overlapping(s, t, n, cells[..k])
  }

  /** project called on every cell of a list, unconditionally. */
  function ProjectEach<V(!new)>(s: Setup<V>, l: seq<seq<V>>, t: nat, n: nat, cells: seq<nat>): (r: seq<seq<V>>)
    requires s.Valid() && s.Shaped(l) && n < |l|
    requires forall c :: c in cells ==> s.haloContaining(t, n, c).Some?
    ensures s.Shaped(r)
    decreases |cells|
  {
    if |cells| == 0 then l
    else
      var k := |cells| - 1;
      var prev := ProjectEach(s, l, t, n, cells[..k]);
      prev[n := Overwrite(prev[n], s.project(prev, t, cells[k], n))]
  }

  /** Project is invoked exactly on the internal cells whose centroid lies
      in a neighbour halo cell, in visiting order. */
  lemma {:induction false} ProjectOnlyOverlapping<V(!new)>(s: Setup<V>, l: seq<seq<V>>, t: nat, n: nat, cells: seq<nat>)
    requires s.Valid() && s.Shaped(l) && n < |l|
    ensures ProjectInternals(s, l, t, n, cells) == ProjectEach(s, l, t, n, Overlapping(s, t, n, cells))
    decreases |cells|
  {
    if |cells| > 0 {
      var k := |cells| - 1;
      ProjectOnlyOverlapping(s, l, t, n, cells[..k]);
      var before := Overlapping(s, t, n, cells[..k]);
      if s.haloContaining(t, n, cells[k]).Some? {
        var after := before + [cells[k]];
        assert after[..|after| - 1] == before;
      }
    }
  }

  // ---------------------------------------------------------------------
  // The two phases

  /** Phase 1 for one pair: equal levels copy, a coarser tile restricts, a
      finer tile does nothing. */
  function Step1<V(!new)>(s: Setup<V>, l: seq<seq<V>>, p: Pair): (r: seq<seq<V>>)
    requires s.Valid() && s.Shaped(l) && s.IsPair(p)
    ensures s.Shaped(r)
  {
    var t, n := p.0, p.1;
    if s.levels[t] == s.levels[n] then l[t := CopyHalos(s, l[t], l[n], t, n, s.halos)]
    else if s.levels[t] < s.levels[n] then RestrictHalos(s, l, t, n, s.halos)
    else l
  }

  /** Phase 2 for one pair: only a coarser tile projects into its finer
      neighbour. */
  function Step2<V(!new)>(s: Setup<V>, l: seq<seq<V>>, p: Pair): (r: seq<seq<V>>)
    requires s.Valid() && s.Shaped(l) && s.IsPair(p)
    ensures s.Shaped(r)
  {
    if s.levels[p.0] < s.levels[p.1] then ProjectInternals(s, l, p.0, p.1, s.internals) else l
  }

  /** A phase 1 step changes only the halo cells of the pair's tile (with
      restrict writing only the halo cell it is handed). */
  lemma Step1Frame<V(!new)>(s: Setup<V>, l: seq<seq<V>>, p: Pair)
    requires s.Valid() && s.Shaped(l) && s.IsPair(p)
    ensures forall u :: 0 <= u < |l| && u != p.0 ==> Step1(s, l, p)[u] == l[u]
    ensures forall c :: 0 <= c < s.size && c !in s.halos ==> Step1(s, l, p)[p.0][c] == l[p.0][c]
  {
    var t, n := p.0, p.1;
    if s.levels[t] < s.levels[n] {
      RestrictHalosFrame(s, l, t, n, s.halos);
    } else if s.levels[t] == s.levels[n] {
      forall c | 0 <= c < s.size && c !in s.halos
        ensures Step1(s, l, p)[t][c] == l[t][c]
      {
        CopyHalosFrame(s, l[t], l[n], t, n, s.halos, c);
      }
    }
  }

  /** A phase 2 step changes only the halo cells of the pair's neighbour,
      by the Setup.Valid clause on the cells project's updates name. */
  lemma Step2Frame<V(!new)>(s: Setup<V>, l: seq<seq<V>>, p: Pair)
    requires s.Valid() && s.Shaped(l) && s.IsPair(p)
    ensures forall u :: 0 <= u < |l| && u != p.1 ==> Step2(s, l, p)[u] == l[u]
    ensures forall c :: 0 <= c < s.size && c !in s.halos ==> Step2(s, l, p)[p.1][c] == l[p.1][c]
  {
    if s.levels[p.0] < s.levels[p.1] {
      ProjectInternalsFrame(s, l, p.0, p.1, s.internals);
    }
  }

  /** Phase 1 over a list of pairs, in order. */
  function Phase1<V(!new)>(s: Setup<V>, l: seq<seq<V>>, ps: seq<Pair>): (r: seq<seq<V>>)
    requires s.Valid() && s.Shaped(l) && s.AllPairs(ps)
    ensures s.Shaped(r)
    decreases |ps|
  {
    if |ps| == 0 then l
    else
      var k := |ps| - 1;
      Step1(s, Phase1(s, l, ps[..k]), ps[k])
  }

  /** Phase 2 over a list of pairs, in order. */
  function Phase2<V(!new)>(s: Setup<V>, l: seq<seq<V>>, ps: seq<Pair>): (r: seq<seq<V>>)
    requires s.Valid() && s.Shaped(l) && s.AllPairs(ps)
    ensures s.Shaped(r)
    decreases |ps|
  {
    if |ps| == 0 then l
    else
      var k := |ps| - 1;
      Step2(s, Phase2(s, l, ps[..k]), ps[k])
  }

  /** The whole exchange: phase 2 over every pair after phase 1 over every
      pair. */
  function Exchange<V(!new)>(s: Setup<V>, l: seq<seq<V>>): (r: seq<seq<V>>)
    requires s.Valid() && s.Shaped(l)
    ensures s.Shaped(r)
  {
    var ps := Pairs(s, |s.levels|);
    Phase2(s, Phase1(s, l, ps), ps)
  }

  /** Phase 1 never changes a cell that is not a halo cell (with restrict
      writing only the halo cell it is handed). */
  lemma {:induction false} Phase1KeepsInternals<V(!new)>(s: Setup<V>, l: seq<seq<V>>, ps: seq<Pair>, u: nat, c: nat)
    requires s.Valid() && s.Shaped(l) && s.AllPairs(ps)
    requires u < |l| && c < s.size && c !in s.halos
    ensures Phase1(s, l, ps)[u][c] == l[u][c]
    decreases |ps|
  {
    if |ps| > 0 {
      var k := |ps| - 1;
      Phase1KeepsInternals(s, l, ps[..k], u, c);
      Step1Frame(s, Phase1(s, l, ps[..k]), ps[k]);
    }
  }

  /** Phase 2 never changes a cell that is not a halo cell, by the
      Setup.Valid clause on the cells project's updates name. */
  lemma {:induction false} Phase2KeepsInternals<V(!new)>(s: Setup<V>, l: seq<seq<V>>, ps: seq<Pair>, u: nat, c: nat)
    requires s.Valid() && s.Shaped(l) && s.AllPairs(ps)
    requires u < |l| && c < s.size && c !in s.halos
    ensures Phase2(s, l, ps)[u][c] == l[u][c]
    decreases |ps|
  {
    if |ps| > 0 {
      var k := |ps| - 1;
      Phase2KeepsInternals(s, l, ps[..k], u, c);
      Step2Frame(s, Phase2(s, l, ps[..k]), ps[k]);
    }
  }

  /** The exchange sets halo cells only: every internal cell of every tile
      keeps its value. This rests on the two write-target assumptions of
      the Setup: restrict writes the halo cell it is handed, project's
      updates name halo cells only. */
  lemma ExchangeKeepsInternals<V(!new)>(s: Setup<V>, l: seq<seq<V>>, u: nat, c: nat)
    requires s.Valid() && s.Shaped(l) && u < |l| && c in s.internals
    ensures Exchange(s, l)[u][c] == l[u][c]
  {
    var ps := Pairs(s, |s.levels|);
    Phase1KeepsInternals(s, l, ps, u, c);
    Phase2KeepsInternals(s, Phase1(s, l, ps), ps, u, c);
  }

  /** In phase 1, two same-level copies into different tiles commute: a copy
      writes halo cells of its tile and reads internal cells of its
      neighbour, so the order in which tiles are visited does not matter. */
  lemma CopiesCommute<V(!new)>(s: Setup<V>, l: seq<seq<V>>, p: Pair, q: Pair)
    requires s.Valid() && s.Shaped(l) && s.IsPair(p) && s.IsPair(q) && p.0 != q.0
    requires s.levels[p.0] == s.levels[p.1] && s.levels[q.0] == s.levels[q.1]
    ensures Step1(s, Step1(s, l, p), q) == Step1(s, Step1(s, l, q), p)
  {
    var lp, lq := Step1(s, l, p), Step1(s, l, q);
    Step1Frame(s, l, p);
    Step1Frame(s, l, q);
    assert forall c :: c in s.internals ==> lp[q.1][c] == l[q.1][c];
    assert forall c :: c in s.internals ==> lq[p.1][c] == l[p.1][c];
    CopyReadsInternals(s, l[q.0], lp[q.1], l[q.1], q.0, q.1, s.halos);
    CopyReadsInternals(s, l[p.0], lq[p.1], l[p.1], p.0, p.1, s.halos);
  }

  /** Phase 1 over a list extended by one pair is one more step. */
  lemma Phase1Snoc<V(!new)>(s: Setup<V>, l: seq<seq<V>>, ps: seq<Pair>, p: Pair)
    requires s.Valid() && s.Shaped(l) && s.AllPairs(ps) && s.IsPair(p)
    ensures s.AllPairs(ps + [p])
    ensures Phase1(s, l, ps + [p]) == Step1(s, Phase1(s, l, ps), p)
  {
    assert (ps + [p])[..|ps|] == ps;
  }

  /** Phase 2 over a list extended by one pair is one more step. */
  lemma Phase2Snoc<V(!new)>(s: Setup<V>, l: seq<seq<V>>, ps: seq<Pair>, p: Pair)
    requires s.Valid() && s.Shaped(l) && s.AllPairs(ps) && s.IsPair(p)
    ensures s.AllPairs(ps + [p])
    ensures Phase2(s, l, ps + [p]) == Step2(s, Phase2(s, l, ps), p)
  {
    assert (ps + [p])[..|ps|] == ps;
  }

  lemma AllPairsConcat<V(!new)>(s: Setup<V>, a: seq<Pair>, b: seq<Pair>)
    requires s.AllPairs(a) && s.AllPairs(b)
    ensures s.AllPairs(a + b)
  {
    var ab := a + b;
    forall i | 0 <= i < |ab|
      ensures s.IsPair(ab[i])
    {
      if i < |a| {
        assert ab[i] == a[i];
      } else {
        assert ab[i] == b[i - |a|];
      }
    }
  }

  /** Phase 1 over two lists of pairs, one after the other, is phase 1 over
      the first list followed by phase 1 over the second. */
  lemma {:induction false} Phase1Concat<V(!new)>(s: Setup<V>, l: seq<seq<V>>, a: seq<Pair>, b: seq<Pair>)
    requires s.Valid() && s.Shaped(l) && s.AllPairs(a) && s.AllPairs(b)
    ensures s.AllPairs(a + b)
    ensures Phase1(s, l, a + b) == Phase1(s, Phase1(s, l, a), b)
    decreases |b|
  {
    AllPairsConcat(s, a, b);
    if b == [] {
      assert a + b == a;
    } else {
      var k := |b| - 1;
      var ab := a + b;
      Phase1Concat(s, l, a, b[..k]);
      assert ab[..|ab| - 1] == a + b[..k];
      assert ab[|ab| - 1] == b[k];
      assert Phase1(s, l, ab) == Step1(s, Phase1(s, l, a + b[..k]), b[k]);
    }
  }

  /** Phase 2 over two lists of pairs, one after the other, is phase 2 over
      the first list followed by phase 2 over the second. */
  lemma {:induction false} Phase2Concat<V(!new)>(s: Setup<V>, l: seq<seq<V>>, a: seq<Pair>, b: seq<Pair>)
    requires s.Valid() && s.Shaped(l) && s.AllPairs(a) && s.AllPairs(b)
    ensures s.AllPairs(a + b)
    ensures Phase2(s, l, a + b) == Phase2(s, Phase2(s, l, a), b)
    decreases |b|
  {
    AllPairsConcat(s, a, b);
    if b == [] {
      assert a + b == a;
    } else {
      var k := |b| - 1;
      var ab := a + b;
      Phase2Concat(s, l, a, b[..k]);
      assert ab[..|ab| - 1] == a + b[..k];
      assert ab[|ab| - 1] == b[k];
      assert Phase2(s, l, ab) == Step2(s, Phase2(s, l, a + b[..k]), b[k]);
    }
  }

  /** Phase 1 over the pairs of tiles 0 .. k is phase 1 over the pairs of
      tiles 0 .. k - 1 followed by phase 1 over the pairs of tile k. */
  lemma Pass1Step<V(!new)>(s: Setup<V>, l: seq<seq<V>>, k: nat)
    requires s.Valid() && s.Shaped(l) && k < |s.levels|
    ensures Phase1(s, l, Pairs(s, k + 1)) == Phase1(s, Phase1(s, l, Pairs(s, k)), TilePairs(s, k))
  {
    var done, tile := Pairs(s, k), TilePairs(s, k);
    assert Pairs(s, k + 1) == done + tile;
    Phase1Concat(s, l, done, tile);
  }

  /** Phase 2 over the pairs of tiles 0 .. k is phase 2 over the pairs of
      tiles 0 .. k - 1 followed by phase 2 over the pairs of tile k. */
  lemma Pass2Step<V(!new)>(s: Setup<V>, l: seq<seq<V>>, k: nat)
    requires s.Valid() && s.Shaped(l) && k < |s.levels|
    ensures Phase2(s, l, Pairs(s, k + 1)) == Phase2(s, Phase2(s, l, Pairs(s, k)), TilePairs(s, k))
  {
    var done, tile := Pairs(s, k), TilePairs(s, k);
    assert Pairs(s, k + 1) == done + tile;
    Phase2Concat(s, l, done, tile);
  }

  /** The solver state the exchange updates in place: the cell values of
      every tile. */
  class HaloState<V(!new)> {
    const setup: Setup<V>
    var lhs: seq<seq<V>>

    ghost predicate Valid()
      reads this
    {
      setup.Valid() && setup.Shaped(lhs)
    }

    constructor (setup: Setup<V>, lhs: seq<seq<V>>)
      requires setup.Valid() && setup.Shaped(lhs)
      ensures Valid() && this.setup == setup && this.lhs == lhs
    {
      this.setup := setup;
      this.lhs := lhs;
    }

    /** copy_internal_cells: over the tile's halo cells, each halo cell whose
        centroid lies in an internal cell of the neighbour takes that cell's
        value; nothing else changes. */
    method CopyInternalCells(t: nat, n: nat)
      requires Valid() && setup.IsPair((t, n))
      modifies this
      ensures Valid()
      ensures lhs == old(lhs)[t := CopyHalos(setup, old(lhs)[t], old(lhs)[n], t, n, setup.halos)]
    {
      var i := 0;
      while i < |setup.halos|
        invariant Valid() && 0 <= i <= |setup.halos|
        invariant lhs == old(lhs)[t := CopyHalos(setup, old(lhs)[t], old(lhs)[n], t, n, setup.halos[..i])]
      {
        var h := setup.halos[i];
        assert setup.halos[..i + 1][..i] == setup.halos[..i];
        assert h in setup.halos;
        var c := setup.internalContaining(t, n, h);
        if c.Some? {
          assert c.value in setup.internals;
          lhs := lhs[t := lhs[t][h := lhs[n][c.value]]];
        }
        i := i + 1;
      }
      assert setup.halos[..i] == setup.halos;
    }

    /** restrict_internal_cells: restrict is called, in visiting order, on
        every halo cell of the tile whose centroid lies in an internal cell
        of the neighbour. */
    method RestrictInternalCells(t: nat, n: nat)
      requires Valid() && setup.IsPair((t, n))
      modifies this
      ensures Valid()
      ensures lhs == RestrictHalos(setup, old(lhs), t, n, setup.halos)
    {
      var i := 0;
      while i < |setup.halos|
        invariant Valid() && 0 <= i <= |setup.halos|
        invariant lhs == RestrictHalos(setup, old(lhs), t, n, setup.halos[..i])
      {
        var h := setup.halos[i];
        assert setup.halos[..i + 1][..i] == setup.halos[..i];
        assert h in setup.halos;
        if setup.internalContaining(t, n, h).Some? {
          lhs := lhs[t := lhs[t][h := setup.restrict(lhs, t, n, h)]];
        }
        i := i + 1;
      }
      assert setup.halos[..i] == setup.halos;
    }

    /** project_internal_cells: project is called, in visiting order, on
        every internal cell of the tile whose centroid lies in a halo cell of
        the neighbour. */
    method ProjectInternalCells(t: nat, n: nat)
      requires Valid() && setup.IsPair((t, n))
      modifies this
      ensures Valid()
      ensures lhs == ProjectInternals(setup, old(lhs), t, n, setup.internals)
    {
      var i := 0;
      while i < |setup.internals|
        invariant Valid() && 0 <= i <= |setup.internals|
        invariant lhs == ProjectInternals(setup, old(lhs), t, n, setup.internals[..i])
      {
        var c := setup.internals[i];
        assert setup.internals[..i + 1][..i] == setup.internals[..i];
        if setup.haloContaining(t, n, c).Some? {
          lhs := lhs[n := Overwrite(lhs[n], setup.project(lhs, t, c, n))];
        }
        i := i + 1;
      }
      assert setup.internals[..i] == setup.internals;
    }

    /** set_halos: phase 1 over every tile and neighbour, then, once it is
        over, phase 2 over every tile and neighbour. */
    method SetHalos()
      requires Valid()
      modifies this
      ensures Valid()
      ensures lhs == Exchange(setup, old(lhs))
    {
      CopyAndRestrictPass();
      ProjectPass();
    }

    /** The first loop of set_halos: for every tile, in order, the pairs
        of the tile with its neighbours. */
    method CopyAndRestrictPass()
      requires Valid()
      modifies this
      ensures Valid()
      ensures lhs == Phase1(setup, old(lhs), Pairs(setup, |setup.levels|))
    {
      ghost var start := lhs;
      var t := 0;
      while t < |setup.levels|
        invariant Valid() && 0 <= t <= |setup.levels|
        invariant lhs == Phase1(setup, start, Pairs(setup, t))
      {
        Pass1Step(setup, start, t);
        CopyAndRestrictTile(t);
        t := t + 1;
      }
    }

    /** Phase 1 for one tile: for every neighbour, in order, copy on equal
        levels and restrict into a coarser tile. */
    method CopyAndRestrictTile(t: nat)
      requires Valid() && t < |setup.levels|
      modifies this
      ensures Valid()
      ensures lhs == Phase1(setup, old(lhs), TilePairs(setup, t))
    {
      ghost var start := lhs;
      ghost var ps := TilePairs(setup, t);
      var j := 0;
      while j < |setup.neighbors[t]|
        invariant Valid() && 0 <= j <= |ps|
        invariant setup.AllPairs(ps[..j])
        invariant lhs == Phase1(setup, start, ps[..j])
      {
        var n := setup.neighbors[t][j];
        assert ps[..j + 1] == ps[..j] + [(t, n)];
        Phase1Snoc(setup, start, ps[..j], (t, n));
        if setup.levels[t] == setup.levels[n] {
          CopyInternalCells(t, n);
        } else if setup.levels[t] < setup.levels[n] {
          RestrictInternalCells(t, n);
        }
        j := j + 1;
      }
      assert ps[..j] == ps;
    }

    /** The second loop of set_halos: for every tile, in order, the pairs
        of the tile with its neighbours. */
    method ProjectPass()
      requires Valid()
      modifies this
      ensures Valid()
      ensures lhs == Phase2(setup, old(lhs), Pairs(setup, |setup.levels|))
    {
      ghost var start := lhs;
      var t := 0;
      while t < |setup.levels|
        invariant Valid() && 0 <= t <= |setup.levels|
        invariant lhs == Phase2(setup, start, Pairs(setup, t))
      {
        Pass2Step(setup, start, t);
        ProjectTile(t);
        t := t + 1;
      }
    }

    /** Phase 2 for one tile: for every neighbour, in order, project from
        the tile into a finer neighbour. */
    method ProjectTile(t: nat)
      requires Valid() && t < |setup.levels|
      modifies this
      ensures Valid()
      ensures lhs == Phase2(setup, old(lhs), TilePairs(setup, t))
    {
      ghost var start := lhs;
      ghost var ps := TilePairs(setup, t);
      var j := 0;
      while j < |setup.neighbors[t]|
        invariant Valid() && 0 <= j <= |ps|
        invariant setup.AllPairs(ps[..j])
        invariant lhs == Phase2(setup, start, ps[..j])
      {
        var n := setup.neighbors[t][j];
        assert ps[..j + 1] == ps[..j] + [(t, n)];
        Phase2Snoc(setup, start, ps[..j], (t, n));
        if setup.levels[t] < setup.levels[n] {
          ProjectInternalCells(t, n);
        }
        j := j + 1;
      }
      assert ps[..j] == ps;
    }
  }
}
