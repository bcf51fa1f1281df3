/**
 * Neighbour resolution in the hierarchical tree: the neighbour of a node in
 * neighbour position p of a manifold is the node found at the node's
 * location shifted by the manifold's offset for p.
 *
 * The location encoding, the shift and the node lookup are not part of this
 * model's source; they are given the plain meaning the resolution relies on:
 * a location is a level and integer anchor coordinates in [0, 2^level) per
 * axis, a shift moves the coordinates and fails when it leaves that range,
 * and the lookup finds the node whose location it is.
 */
module NodeNeighbors {
  import opened Wrappers
  import opened IntMath

  /** A node location: its level and its anchor coordinates at that level. */
  datatype Location = Location(level: nat, x: seq<int>)

  /** The neighbour offsets of one manifold (faces, edges or corners) of an
      nd-dimensional tree, one offset vector per neighbour position. */
  datatype Manifold = Manifold(nd: nat, offsets: seq<seq<int>>)
  {
    predicate Valid()
    {
      forall p :: 0 <= p < |offsets| ==> |offsets[p]| == nd
    }
  }

  /** A tree: its dimension and the location of every node, nodes being
      numbered by their position. */
  datatype Tree = Tree(nd: nat, locations: seq<Location>)
  {
    predicate Valid()
    {
      (forall n :: 0 <= n < |locations| ==> |locations[n].x| == nd)
      && forall n, m :: 0 <= n < m < |locations| ==> locations[n] != locations[m]
    }
  }

  /** The anchor coordinates lie inside the level's grid of 2^level cells per axis. */
  predicate InDomain(l: Location)
  {
    forall d :: 0 <= d < |l.x| ==> 0 <= l.x[d] < Pow(2, l.level)
  }

  /** shift_location: the location moved by an offset at the same level, or
      nothing when the moved location leaves the domain. */
  function ShiftLocation(l: Location, offset: seq<int>): (r: Option<Location>)
    requires |offset| == |l.x|
    ensures r.Some? ==> r.value.level == l.level && |r.value.x| == |l.x| && InDomain(r.value)
    ensures r.Some? ==> forall d :: 0 <= d < |l.x| ==> r.value.x[d] == l.x[d] + offset[d]
    ensures r.None? <==> exists d :: 0 <= d < |l.x| && !(0 <= l.x[d] + offset[d] < Pow(2, l.level))
  {
    var y := Location(l.level, seq(|l.x|, d requires 0 <= d < |l.x| => l.x[d] + offset[d]));
    if InDomain(y) then Some(y)
    else
      var d :| 0 <= d < |l.x| && !(0 <= y.x[d] < Pow(2, l.level));
      None
  }

  /** node_at: the node at a location, or nothing. */
  function NodeAt(t: Tree, l: Location): (r: Option<nat>)
    ensures r.Some? ==> r.value < |t.locations| && t.locations[r.value] == l
    ensures r.None? <==> l !in t.locations
    decreases |t.locations|
  {
    if |t.locations| == 0 then None
    else
      var n := |t.locations| - 1;
      var r := NodeAt(Tree(t.nd, t.locations[..n]), l);
      if r.Some? then r
      else if t.locations[n] == l then Some(n)
      else
        assert t.locations == t.locations[..n] + [t.locations[n]];
        None
  }

  /** node_location: the location of node n. */
  function NodeLocation(t: Tree, n: nat): Location
    requires n < |t.locations|
  {
    t.locations[n]
  }

  /** The location of neighbour position p of the node at location l: the
      shift by the manifold's offset for p. */
  function NeighborLocation(m: Manifold, l: Location, p: nat): (r: Option<Location>)
    requires m.Valid() && |l.x| == m.nd && p < |m.offsets|
    ensures r.Some? ==> r.value.level == l.level && |r.value.x| == m.nd
    ensures r.Some? ==> forall d :: 0 <= d < m.nd ==> r.value.x[d] == l.x[d] + m.offsets[p][d]
    ensures r.None? <==> exists d :: 0 <= d < m.nd && !(0 <= l.x[d] + m.offsets[p][d] < Pow(2, l.level))
  {
    ShiftLocation(l, m.offsets[p])
  }

  /** The location of neighbour position p of node n: the neighbour location
      of the node's own location. */
  function NodeNeighborLocation(t: Tree, m: Manifold, n: nat, p: nat): (r: Option<Location>)
    requires t.Valid() && m.Valid() && t.nd == m.nd && n < |t.locations| && p < |m.offsets|
    ensures r == NeighborLocation(m, NodeLocation(t, n), p)
    ensures r.Some? ==> r.value.level == t.locations[n].level
  {
    NeighborLocation(m, NodeLocation(t, n), p)
  }

  /** The neighbour in position p of the node at location l: the node found
      at the neighbour location; nothing when the shift leaves the domain or
      no node lives there. */
  function NeighborAt(t: Tree, m: Manifold, l: Location, p: nat): (r: Option<nat>)
    requires t.Valid() && m.Valid() && t.nd == m.nd && |l.x| == m.nd && p < |m.offsets|
    ensures r.Some? ==> NeighborLocation(m, l, p).Some? && r.value < |t.locations|
                        && t.locations[r.value] == NeighborLocation(m, l, p).value
    ensures r.None? <==> NeighborLocation(m, l, p).None? || NeighborLocation(m, l, p).value !in t.locations
  {
    var loc := NeighborLocation(m, l, p);
    if loc.None? then None else NodeAt(t, loc.value)
  }

  /** The neighbour in position p of node n. */
  function NeighborOf(t: Tree, m: Manifold, n: nat, p: nat): (r: Option<nat>)
    requires t.Valid() && m.Valid() && t.nd == m.nd && n < |t.locations| && p < |m.offsets|
    ensures r == NeighborAt(t, m, NodeLocation(t, n), p)
  {
    NeighborAt(t, m, NodeLocation(t, n), p)
  }

  /** In a tree whose nodes have distinct locations, the node found at a
      location is the only node there. */
  lemma NodeAtUnique(t: Tree, l: Location, n: nat)
    requires t.Valid() && n < |t.locations| && t.locations[n] == l
    ensures NodeAt(t, l) == Some(n)
  {
  }

  /** Shifting back by the opposite offset returns to the start. */
  lemma ShiftBack(l: Location, offset: seq<int>, back: seq<int>)
    requires InDomain(l) && |offset| == |l.x| && |back| == |l.x|
    requires forall d :: 0 <= d < |l.x| ==> back[d] == -offset[d]
    requires ShiftLocation(l, offset).Some?
    ensures ShiftLocation(ShiftLocation(l, offset).value, back) == Some(l)
  {
    var y := ShiftLocation(l, offset).value;
    var z := Location(y.level, seq(|y.x|, d requires 0 <= d < |y.x| => y.x[d] + back[d]));
    assert z.x == l.x;
  }

  /** Neighbours in opposite positions undo each other: if node k is the
      neighbour of node n in position p, then n is the neighbour of k in the
      opposite position q. */
  lemma NeighborOpposite(t: Tree, m: Manifold, n: nat, p: nat, q: nat)
    requires t.Valid() && m.Valid() && t.nd == m.nd && n < |t.locations|
    requires p < |m.offsets| && q < |m.offsets|
    requires forall d :: 0 <= d < m.nd ==> m.offsets[q][d] == -m.offsets[p][d]
    requires InDomain(t.locations[n])
    requires NeighborOf(t, m, n, p).Some?
    ensures NeighborOf(t, m, NeighborOf(t, m, n, p).value, q) == Some(n)
  {
    var k := NeighborOf(t, m, n, p).value;
    var l := t.locations[n];
    ShiftBack(l, m.offsets[p], m.offsets[q]);
    assert t.locations[k] == ShiftLocation(l, m.offsets[p]).value;
    NodeAtUnique(t, l, n);
  }
}
