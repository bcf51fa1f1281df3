/**
 * The sub-tile view of a square tile: an external iterator over the box
 * [from, to] that keeps the current coordinate and a done flag, and
 * advances like an odometer with axis 0 turning fastest.
 */
module SubtileViews {
  import opened Wrappers
  import opened Boxes

  /** The first axis from k on that is still below its top, or |cur| when
      every one of them is at its top. */
  function FirstBelow(t: seq<int>, cur: seq<int>, k: nat): (d: nat)
    requires |t| == |cur| && k <= |cur|
    ensures k <= d <= |cur|
    decreases |cur| - k
  {
    if k == |cur| then k else if cur[k] < t[k] then k else FirstBelow(t, cur, k + 1)
  }

  /** The odometer successor of cur in [f, t]: the first axis below its top
      moves up by one and the axes before it restart at f; when every axis
      is at its top the odometer wraps (None). */
  function Succ(f: seq<int>, t: seq<int>, cur: seq<int>): Option<seq<int>>
    requires |f| == |t| == |cur|
  {
    var d := FirstBelow(t, cur, 0);
    if d == |cur| then None else Some(f[..d] + [cur[d] + 1] + cur[d + 1..])
  }

  /** Every axis below d is at (or beyond) its top. */
  predicate AtTopBelow(t: seq<int>, cur: seq<int>, d: nat)
    requires d <= |t| == |cur|
  {
    forall k :: 0 <= k < d ==> cur[k] >= t[k]
  }

  /** With every axis below d at its top and axis d below its top (or d
      past the last axis), the scan from any k <= d stops at d. */
  lemma {:induction false} FirstBelowAt(t: seq<int>, cur: seq<int>, k: nat, d: nat)
    requires |t| == |cur| && k <= d <= |cur| && AtTopBelow(t, cur, d)
    requires d < |cur| ==> cur[d] < t[d]
    ensures FirstBelow(t, cur, k) == d
    decreases d - k
  {
    if k < d {
      FirstBelowAt(t, cur, k + 1, d);
    }
  }

  /** The successor when axis d is the first one below its top: next is
      f below d, cur[d] + 1 at d and cur above d. */
  lemma SuccIncrements(f: seq<int>, t: seq<int>, cur: seq<int>, d: nat, next: seq<int>)
    requires |f| == |t| == |cur| == |next| && d < |cur| && AtTopBelow(t, cur, d) && cur[d] < t[d]
    requires forall k :: 0 <= k < d ==> next[k] == f[k]
    requires next[d] == cur[d] + 1
    requires forall k :: d < k < |cur| ==> next[k] == cur[k]
    ensures Succ(f, t, cur) == Some(next)
  {
    FirstBelowAt(t, cur, 0, d);
    assert next == f[..d] + [cur[d] + 1] + cur[d + 1..];
  }

  /** There is no successor when every axis is at its top, and the
      coordinate restarts at f. */
  lemma SuccAtTop(f: seq<int>, t: seq<int>, cur: seq<int>, next: seq<int>)
    requires |f| == |t| == |cur| == |next| && AtTopBelow(t, cur, |cur|)
    requires forall k :: 0 <= k < |f| ==> next[k] == f[k]
    ensures Succ(f, t, cur) == None && next == f
  {
    FirstBelowAt(t, cur, 0, |cur|);
  }

  /** Appending a slowest axis z: the scan stops where it stops on the
      leading axes, else at the new axis when z is below its top, else past it. */
  lemma {:induction false} FirstBelowSnoc(t: seq<int>, c: seq<int>, z: int, k: nat)
    requires |t| == |c| + 1 && k <= |c|
    ensures FirstBelow(t, c + [z], k)
            == if FirstBelow(Init(t), c, k) < |c| then FirstBelow(Init(t), c, k)
               else if z < Last(t) then |c| else |c| + 1
    decreases |c| - k
  {
    var s := c + [z];
    if k < |c| {
      assert s[k] == c[k] && Init(t)[k] == t[k];
      FirstBelowSnoc(t, c, z, k + 1);
    } else {
      assert s[k] == z;
    }
  }

  /** Cell n of cs is linked to the next one by the successor, and the
      last cell has no successor. */
  predicate Linked(cs: seq<seq<int>>, f: seq<int>, t: seq<int>, n: nat)
    requires |f| == |t| && n < |cs|
  {
    |cs[n]| == |f| && Succ(f, t, cs[n]) == if n + 1 < |cs| then Some(cs[n + 1]) else None
  }

  /** The cells visited by the odometer from f until it wraps: f first,
      each next cell the successor of the one before, and no successor
      after the last. */
  predicate Chain(cs: seq<seq<int>>, f: seq<int>, t: seq<int>)
  {
    |f| == |t| && |cs| > 0 && cs[0] == f && forall n :: 0 <= n < |cs| ==> Linked(cs, f, t, n)
  }

  /** Stacking a chain of the leading axes over the last axis gives a chain
      of the whole box: within a layer the leading axes advance, and after
      the last cell of a layer the next layer starts at the leading axes'
      first cell. */
  lemma StackChain(f: seq<int>, t: seq<int>, inner: seq<seq<int>>)
    requires |f| == |t| && |f| > 0 && Last(f) <= Last(t) && Chain(inner, Init(f), Init(t))
    ensures Chain(Stack(inner, Last(f), Last(t)), f, t)
  {
    var a, b := Last(f), Last(t);
    var s := Stack(inner, a, b);
    StackEnds(inner, a, b);
    SnocInitLast(f);
    forall n | 0 <= n < |s|
      ensures Linked(s, f, t, n)
    {
      StackLinked(f, t, inner, n);
    }
  }

  lemma StackLinked(f: seq<int>, t: seq<int>, inner: seq<seq<int>>, n: nat)
    requires |f| == |t| && |f| > 0 && Last(f) <= Last(t) && Chain(inner, Init(f), Init(t))
    requires n < |Stack(inner, Last(f), Last(t))|
    ensures Linked(Stack(inner, Last(f), Last(t)), f, t, n)
  {
    var fi, ti, a, b := Init(f), Init(t), Last(f), Last(t);
    var q, r := StackNext(inner, a, b, n);
    assert Linked(inner, fi, ti, r);
    SuccSnoc(f, t, inner[r], a + q);
  }

  /** The box enumeration is such a chain: along it the successor of each
      cell is the next cell, and the last cell has none. */
  lemma {:induction false} BoxChain(f: seq<int>, t: seq<int>)
    requires NonEmptyBox(f, t)
    ensures Chain(Box(f, t), f, t)
    decreases |f|
  {
    if |f| == 0 {
      assert Box(f, t) == [[]];
      assert Linked(Box(f, t), f, t, 0);
    } else {
      InitBox(f, t);
      BoxChain(Init(f), Init(t));
      BoxUnfold(f, t);
      StackChain(f, t, Box(Init(f), Init(t)));
    }
  }

  /** Two chains of the same box agree cell by cell. */
  lemma {:induction false} ChainsAgreeUpTo(a: seq<seq<int>>, b: seq<seq<int>>, f: seq<int>, t: seq<int>, k: nat)
    requires Chain(a, f, t) && Chain(b, f, t) && k < |a| && k < |b|
    ensures a[k] == b[k]
  {
    if k > 0 {
      ChainsAgreeUpTo(a, b, f, t, k - 1);
      assert Linked(a, f, t, k - 1) && Linked(b, f, t, k - 1);
    }
  }

  /** There is only one chain from f: the odometer determines the cells it
      visits and where it stops, and that chain is the box enumeration. */
  lemma ChainIsBox(f: seq<int>, t: seq<int>, cs: seq<seq<int>>)
    requires NonEmptyBox(f, t) && Chain(cs, f, t)
    ensures cs == Box(f, t)
  {
    var box := Box(f, t);
    BoxChain(f, t);
    var m := if |cs| < |box| then |cs| - 1 else |box| - 1;
    ChainsAgreeUpTo(cs, box, f, t, m);
    assert Linked(cs, f, t, m) && Linked(box, f, t, m);
    forall k | 0 <= k < |cs|
      ensures cs[k] == box[k]
    {
      ChainsAgreeUpTo(cs, box, f, t, k);
    }
  }

  /** The box enumeration, seen only as a chain. */
  lemma Enumeration(f: seq<int>, t: seq<int>) returns (box: seq<seq<int>>)
    requires NonEmptyBox(f, t)
    ensures Chain(box, f, t)
  {
    box := Box(f, t);
    BoxChain(f, t);
  }

  /** One step of the consumer's loop: when cur is cell n of the chain and
      the view moved to its successor (or finished when there was none),
      the view now shows cell n + 1, or cell n was the last one. */
  lemma DrainStep(f: seq<int>, t: seq<int>, cs: seq<seq<int>>, n: nat, cur: seq<int>, next: seq<int>, finished: bool)
    requires Chain(cs, f, t) && n < |cs| && cur == cs[n]
    requires |cur| == |f| ==> (Succ(f, t, cur).Some? ==> next == Succ(f, t, cur).value && !finished)
    requires |cur| == |f| ==> (Succ(f, t, cur).None? ==> finished)
    ensures !finished ==> n + 1 < |cs| && next == cs[n + 1]
    ensures finished ==> n + 1 == |cs|
  {
    assert Linked(cs, f, t, n);
  }

  /** Position n of a stack is cell r of the inner sequence on layer a + q;
      the position after it is the next inner cell on the same layer, the
      first inner cell on the next layer, or past the end. */
  lemma StackNext(inner: seq<seq<int>>, a: int, b: int, n: nat) returns (q: nat, r: nat)
    requires |inner| > 0 && n < |Stack(inner, a, b)|
    ensures r < |inner| && Stack(inner, a, b)[n] == inner[r] + [a + q]
    ensures r + 1 < |inner| ==> n + 1 < |Stack(inner, a, b)| && Stack(inner, a, b)[n + 1] == inner[r + 1] + [a + q]
    ensures r + 1 == |inner| && a + q < b ==> n + 1 < |Stack(inner, a, b)| && Stack(inner, a, b)[n + 1] == inner[0] + [a + q + 1]
    ensures r + 1 == |inner| && a + q >= b ==> n + 1 == |Stack(inner, a, b)|
  {
    var p, w := |inner|, Width(a, b);
    StackLengthSlot(inner, a, b);
    q, r := Position(n, p, w);
    var n1, r1, q1 := n + 1, r + 1, q + 1;
    StackAt(inner, a, b, q, r, n, a + q);
    if r1 < p {
      StackAt(inner, a, b, q, r1, n1, a + q);
    } else if q1 < w {
      StackAt(inner, a, b, q1, 0, n1, a + q + 1);
    }
  }

  /** The successor of a cell given as its leading axes c and its last
      axis z: the leading axes' successor on the same layer, else the first
      leading cell on the next layer, else none. */
  lemma SuccSnoc(f: seq<int>, t: seq<int>, c: seq<int>, z: int)
    requires |f| == |t| == |c| + 1
    ensures Succ(Init(f), Init(t), c).Some? ==> Succ(f, t, c + [z]) == Some(Succ(Init(f), Init(t), c).value + [z])
    ensures Succ(Init(f), Init(t), c).None? && z < Last(t) ==> Succ(f, t, c + [z]) == Some(Init(f) + [z + 1])
    ensures Succ(Init(f), Init(t), c).None? && z >= Last(t) ==> Succ(f, t, c + [z]) == None
  {
    var s := c + [z];
    FirstBelowSnoc(t, c, z, 0);
    var d := FirstBelow(Init(t), c, 0);
    if d < |c| {
      assert s[d] == c[d] && f[..d] == Init(f)[..d];
      assert s[d + 1..] == c[d + 1..] + [z];
      assert f[..d] + [s[d] + 1] + s[d + 1..] == (Init(f)[..d] + [c[d] + 1] + c[d + 1..]) + [z];
    } else if z < Last(t) {
      assert s[|c|] == z && f[..|c|] == Init(f) && s[|c| + 1..] == [];
      assert f[..|c|] + [s[|c|] + 1] + s[|c| + 1..] == Init(f) + [z + 1];
    }
  }

  /** Position n of a stack of w layers of p cells each is cell r of layer q;
      the next position is cell r + 1 of the same layer, the first cell of
      the next layer, or past the end. */
  lemma Position(n: nat, p: nat, w: nat) returns (q: nat, r: nat)
    requires p > 0 && n < Slot(w, p, 0)
    ensures n == Slot(q, p, r) && q < w && r < p
    ensures r + 1 < p ==> n + 1 == Slot(q, p, r + 1)
    ensures r + 1 == p ==> n + 1 == Slot(q + 1, p, 0)
  {
    q, r := SlotOf(n, p);
    SlotLayerBelow(q, p, r, w);
    SlotSucc(q, p, r);
    SlotNextLayer(q, p);
  }

  /** The view: the box bounds, the current coordinate and the done flag. */
  class SubtileView {
    const from: seq<int>
    const to: seq<int>
    var current: seq<int>
    var done: bool

    predicate Valid()
      reads this
    {
      |from| == |to| == |current|
    }

    /** A view starts at `from` and is not done. */
    constructor (from: seq<int>, to: seq<int>)
      requires |from| == |to|
      ensures this.from == from && this.to == to
      ensures current == from && !done && Valid()
    {
      this.from := from;
      this.to := to;
      current := from;
      done := false;
    }

    /** Advances the odometer: the first axis below its top is incremented
        and every axis before it restarts at `from`; when every axis was at
        its top the coordinate is back at `from` and the view is done. */
    method Next()
      requires Valid()
      modifies this
      ensures Valid()
      ensures Succ(from, to, old(current)).Some? ==> current == Succ(from, to, old(current)).value && done == old(done)
      ensures Succ(from, to, old(current)).None? ==> current == from && done
    {
      ghost var start := current;
      assert start == old(current);
      var d := 0;
      while d < |from|
        invariant 0 <= d <= |from| && |current| == |from|
        invariant forall k :: 0 <= k < d ==> current[k] == from[k]
        invariant forall k :: d <= k < |from| ==> current[k] == start[k]
        invariant AtTopBelow(to, start, d)
        invariant done == old(done)
      {
        if current[d] < to[d] {
          current := current[d := current[d] + 1];
          SuccIncrements(from, to, start, d, current);
          return;
        } else {
          current := current[d := from[d]];
        }
        d := d + 1;
      }
      SuccAtTop(from, to, start, current);
      done := true;
    }

    /** The consumer's loop over a fresh view: read the current coordinate
        and advance until done; the coordinates read are the odometer's
        chain from `from`, which ChainIsBox shows is the box [from, to] in
        its enumeration order, every cell once. */
    method Drain() returns (cells: seq<seq<int>>)
      requires Valid() && current == from && !done && NonEmptyBox(from, to)
      modifies this
      ensures done && Chain(cells, from, to)
    {
      ghost var box := Enumeration(from, to);
      cells := [];
      while !done
        invariant Valid()
        invariant |cells| <= |box| && forall k :: 0 <= k < |cells| ==> cells[k] == box[k]
        invariant !done ==> |cells| < |box| && current == box[|cells|]
        invariant done ==> |cells| == |box|
        decreases |box| - |cells|, !done
      {
        ghost var n, cur := |cells|, current;
        cells := cells + [current];
        Next();
        DrainStep(from, to, box, n, cur, current, done);
      }
      assert cells == box;
    }
  }
}
