/**
 * Enumeration of the integer cells of an axis-aligned box [lo, hi] (bounds
 * inclusive) in the order of the source's nested loops: axis 0 varies
 * fastest, the last axis slowest. The per-dimension loops of the tile and grid
 * iterators (1D, 2D and 3D) all emit such boxes, or concatenations of them.
 */
module Boxes {

  function Init(s: seq<int>): seq<int>
    requires |s| > 0
  {
    s[..|s| - 1]
  }

  function Last(s: seq<int>): int
    requires |s| > 0
  {
    s[|s| - 1]
  }

  /** Every cell of `xs` with `c` appended as a new slowest coordinate. */
  function Extend(xs: seq<seq<int>>, c: int): (r: seq<seq<int>>)
    ensures |r| == |xs|
    ensures forall n :: 0 <= n < |xs| ==> r[n] == xs[n] + [c]
  {
    seq(|xs|, n requires 0 <= n < |xs| => xs[n] + [c])
  }

  /** The loop `for c in [c0, top]: for x in inner: emit x + [c]`. */
  function Stack(inner: seq<seq<int>>, c: int, top: int): seq<seq<int>>
    decreases top - c
  {
    if c > top then [] else Extend(inner, c) + Stack(inner, c + 1, top)
  }

  /** The cells of [lo, hi], axis 0 fastest. */
  function Box(lo: seq<int>, hi: seq<int>): seq<seq<int>>
    requires |lo| == |hi|
    decreases |lo|
  {
    if |lo| == 0 then [[]] else Stack(Box(Init(lo), Init(hi)), Last(lo), Last(hi))
  }

  predicate InBox(y: seq<int>, lo: seq<int>, hi: seq<int>)
  {
    |y| == |lo| == |hi| && forall d :: 0 <= d < |y| ==> lo[d] <= y[d] <= hi[d]
  }

  /** Number of integers in [l, h]. */
  function Width(l: int, h: int): nat
  {
    if h >= l then h - l + 1 else 0
  }

  /** Number of cells of [lo, hi]: the product of the widths. */
  function Volume(lo: seq<int>, hi: seq<int>): nat
    requires |lo| == |hi|
    decreases |lo|
  {
    if |lo| == 0 then 1 else Volume(Init(lo), Init(hi)) * Width(Last(lo), Last(hi))
  }

  /** The constant vector (v, ..., v) of length n. */
  function Constant(n: nat, v: int): (r: seq<int>)
    ensures |r| == n && forall d :: 0 <= d < n ==> r[d] == v
  {
    seq(n, _ => v)
  }

  // ------------------------------------------------------------------
  // Multiplicities: each cell of the box is emitted exactly once, no other cell is.

  lemma AppendOneEq(x: seq<int>, c: int, y: seq<int>)
    ensures (x + [c] == y) <==> (|y| > 0 && Last(y) == c && x == Init(y))
  {
    if |y| > 0 && Last(y) == c && x == Init(y) {
      assert y == Init(y) + [Last(y)];
    }
    if x + [c] == y {
      assert Init(y) == (x + [c])[..|x|];
    }
  }

  lemma ExtendCons(xs: seq<seq<int>>, c: int)
    requires xs != []
    ensures Extend(xs, c) == [xs[0] + [c]] + Extend(xs[1..], c)
  {
  }

  lemma {:induction false} ExtendMultiplicity(xs: seq<seq<int>>, c: int, y: seq<int>)
    ensures multiset(Extend(xs, c))[y] == if |y| > 0 && Last(y) == c then multiset(xs)[Init(y)] else 0
    decreases |xs|
  {
    if xs == [] {
      assert Extend(xs, c) == [];
    } else {
      ExtendMultiplicity(xs[1..], c, y);
      AppendOneEq(xs[0], c, y);
      assert xs == [xs[0]] + xs[1..];
      ExtendCons(xs, c);
      var m := multiset(Extend(xs, c))[y];
      assert m == multiset([xs[0] + [c]])[y] + multiset(Extend(xs[1..], c))[y];
      if |y| > 0 && Last(y) == c {
        assert multiset(xs)[Init(y)] == multiset([xs[0]])[Init(y)] + multiset(xs[1..])[Init(y)];
      }
    }
  }

  lemma {:induction false} StackMultiplicity(inner: seq<seq<int>>, c: int, top: int, y: seq<int>)
    ensures multiset(Stack(inner, c, top))[y]
            == if |y| > 0 && c <= Last(y) <= top then multiset(inner)[Init(y)] else 0
    decreases top - c
  {
    if c <= top {
      ExtendMultiplicity(inner, c, y);
      StackMultiplicity(inner, c + 1, top, y);
    }
  }

  /** Box(lo, hi) holds every cell of [lo, hi] exactly once and nothing else. */
  lemma {:induction false} BoxMultiplicity(lo: seq<int>, hi: seq<int>, y: seq<int>)
    requires |lo| == |hi|
    ensures multiset(Box(lo, hi))[y] == if InBox(y, lo, hi) then 1 else 0
    decreases |lo|
  {
    if |lo| == 0 {
      assert Box(lo, hi) == [[]];
    } else {
      StackMultiplicity(Box(Init(lo), Init(hi)), Last(lo), Last(hi), y);
      if |y| > 0 {
        BoxMultiplicity(Init(lo), Init(hi), Init(y));
        InBoxSplit(y, lo, hi);
      }
    }
  }

  lemma BoxMembership(lo: seq<int>, hi: seq<int>, y: seq<int>)
    requires |lo| == |hi|
    ensures y in Box(lo, hi) <==> InBox(y, lo, hi)
  {
    BoxMultiplicity(lo, hi, y);
  }

  // ------------------------------------------------------------------
  // Length and positions

  lemma {:induction false} StackLength(inner: seq<seq<int>>, c: int, top: int)
    ensures |Stack(inner, c, top)| == Width(c, top) * |inner|
    decreases top - c
  {
    if c <= top {
      StackLength(inner, c + 1, top);
    }
  }

  /** The box has as many cells as the product of its widths. */
  lemma {:induction false} BoxLength(lo: seq<int>, hi: seq<int>)
    requires |lo| == |hi|
    ensures |Box(lo, hi)| == Volume(lo, hi)
    decreases |lo|
  {
    if |lo| > 0 {
      BoxLength(Init(lo), Init(hi));
      StackLength(Box(Init(lo), Init(hi)), Last(lo), Last(hi));
    }
  }

  /** The slot of cell r of layer q in layers of p cells, counted without
      multiplication. */
  function Slot(q: nat, p: nat, r: nat): nat
  {
    if q == 0 then r else p + Slot(q - 1, p, r)
  }

  lemma {:induction false} SlotIsProduct(q: nat, p: nat, r: nat)
    ensures Slot(q, p, r) == q * p + r
  {
    if q > 0 {
      SlotIsProduct(q - 1, p, r);
      assert q * p == p + (q - 1) * p;
    }
  }

  /** The slot after cell r of layer q is cell r + 1 of the same layer. */
  lemma {:induction false} SlotSucc(q: nat, p: nat, r: nat)
    ensures Slot(q, p, r + 1) == Slot(q, p, r) + 1
  {
    if q > 0 {
      SlotSucc(q - 1, p, r);
    }
  }

  /** The slot after the last cell of layer q is the first cell of layer q + 1. */
  lemma {:induction false} SlotNextLayer(q: nat, p: nat)
    ensures Slot(q + 1, p, 0) == Slot(q, p, p)
  {
    if q > 0 {
      SlotNextLayer(q - 1, p);
    }
  }

  /** Every position is a slot: cell r < p of some layer q. */
  lemma {:induction false} SlotOf(n: nat, p: nat) returns (q: nat, r: nat)
    requires p > 0
    ensures n == Slot(q, p, r) && r < p
    decreases n
  {
    if n < p {
      q, r := 0, n;
    } else {
      var q1, r1 := SlotOf(n - p, p);
      q, r := q1 + 1, r1;
    }
  }

  /** A slot below the first slot of layer w lies on a layer below w. */
  lemma {:induction false} SlotLayerBelow(q: nat, p: nat, r: nat, w: nat)
    requires r < p && Slot(q, p, r) < Slot(w, p, 0)
    ensures q < w
    decreases w
  {
    if q > 0 && w > 0 {
      SlotLayerBelow(q - 1, p, r, w - 1);
    }
  }

  /** A stack holds its layers' cells one after the other. */
  lemma {:induction false} StackLengthSlot(inner: seq<seq<int>>, c: int, top: int)
    ensures |Stack(inner, c, top)| == Slot(Width(c, top), |inner|, 0)
    decreases top - c
  {
    if c <= top {
      StackLengthSlot(inner, c + 1, top);
    }
  }

  /** Slot q * |inner| + r of the stack is inner[r] on layer z = c + q. */
  lemma {:induction false} StackAt(inner: seq<seq<int>>, c: int, top: int, q: nat, r: nat, pos: nat, z: int)
    requires c + q <= top && r < |inner| && pos == Slot(q, |inner|, r) && z == c + q
    ensures pos < |Stack(inner, c, top)|
    ensures Stack(inner, c, top)[pos] == inner[r] + [z]
    decreases top - c
  {
    var rest := Stack(inner, c + 1, top);
    assert Stack(inner, c, top) == Extend(inner, c) + rest;
    if q > 0 {
      var q1, pos1 := q - 1, pos - |inner|;
      StackAt(inner, c + 1, top, q1, r, pos1, z);
    }
  }

  predicate NonEmptyBox(lo: seq<int>, hi: seq<int>)
  {
    |lo| == |hi| && forall d :: 0 <= d < |lo| ==> lo[d] <= hi[d]
  }

  /** A stack of one or more layers starts with the first inner cell on the
      first layer and ends with the last inner cell on the top layer. */
  lemma StackEnds(inner: seq<seq<int>>, c: int, top: int)
    requires c <= top && |inner| > 0
    ensures |Stack(inner, c, top)| > 0
    ensures Stack(inner, c, top)[0] == inner[0] + [c]
    ensures Stack(inner, c, top)[|Stack(inner, c, top)| - 1] == inner[|inner| - 1] + [top]
  {
    var p, w := |inner|, Width(c, top);
    var q, r := w - 1, p - 1;
    var last := Slot(q, p, r);
    StackAt(inner, c, top, 0, 0, 0, c);
    StackAt(inner, c, top, q, r, last, top);
    StackLengthSlot(inner, c, top);
    SlotLast(w, p);
  }

  /** The last slot of w layers of p cells is one before the first slot of layer w. */
  lemma SlotLast(w: nat, p: nat)
    requires w > 0 && p > 0
    ensures Slot(w, p, 0) == Slot(w - 1, p, p - 1) + 1
  {
    var q, r := w - 1, p - 1;
    SlotNextLayer(q, p);
    SlotSucc(q, p, r);
  }

  /** A non-empty box starts at lo and ends at hi. */
  lemma {:induction false} BoxEnds(lo: seq<int>, hi: seq<int>)
    requires NonEmptyBox(lo, hi)
    ensures |Box(lo, hi)| > 0
    ensures Box(lo, hi)[0] == lo
    ensures Box(lo, hi)[|Box(lo, hi)| - 1] == hi
    decreases |lo|
  {
    if |lo| == 0 {
      assert Box(lo, hi) == [[]];
    } else {
      var li, hj := Init(lo), Init(hi);
      var a, b := Last(lo), Last(hi);
      InitBox(lo, hi);
      var inner := Box(li, hj);
      BoxEnds(li, hj);
      StackEnds(inner, a, b);
      BoxUnfold(lo, hi);
      SnocInitLast(lo);
      SnocInitLast(hi);
    }
  }

  /** One unfolding of the box: the stack of the leading axes' box over the last axis. */
  lemma BoxUnfold(lo: seq<int>, hi: seq<int>)
    requires |lo| == |hi| && |lo| > 0
    ensures Box(lo, hi) == Stack(Box(Init(lo), Init(hi)), Last(lo), Last(hi))
  {
  }

  /** The leading axes of a non-empty box form a non-empty box. */
  lemma InitBox(lo: seq<int>, hi: seq<int>)
    requires NonEmptyBox(lo, hi) && |lo| > 0
    ensures NonEmptyBox(Init(lo), Init(hi))
  {
    forall d | 0 <= d < |lo| - 1
      ensures Init(lo)[d] <= Init(hi)[d]
    {
      assert Init(lo)[d] == lo[d] && Init(hi)[d] == hi[d];
    }
  }

  lemma SnocInitLast(s: seq<int>)
    requires |s| > 0
    ensures Init(s) + [Last(s)] == s
  {
  }

  // ------------------------------------------------------------------
  // Small boxes, coordinate by coordinate

  lemma InBox2(y: seq<int>, lo: seq<int>, hi: seq<int>)
    requires |lo| == 2 && |hi| == 2
    ensures InBox(y, lo, hi) <==> |y| == 2 && lo[0] <= y[0] <= hi[0] && lo[1] <= y[1] <= hi[1]
  {
    if |y| == 2 && lo[0] <= y[0] <= hi[0] && lo[1] <= y[1] <= hi[1] {
      forall d | 0 <= d < 2 ensures lo[d] <= y[d] <= hi[d] {
        if d == 0 {} else {}
      }
    }
  }

  lemma InBox3(y: seq<int>, lo: seq<int>, hi: seq<int>)
    requires |lo| == 3 && |hi| == 3
    ensures InBox(y, lo, hi)
            <==> |y| == 3 && lo[0] <= y[0] <= hi[0] && lo[1] <= y[1] <= hi[1] && lo[2] <= y[2] <= hi[2]
  {
    if |y| == 3 && lo[0] <= y[0] <= hi[0] && lo[1] <= y[1] <= hi[1] && lo[2] <= y[2] <= hi[2] {
      forall d | 0 <= d < 3 ensures lo[d] <= y[d] <= hi[d] {
        if d == 0 {} else if d == 1 {} else {}
      }
    }
  }

  /** A 2D box holds each of its cells once. */
  lemma Block2(lo: seq<int>, hi: seq<int>, y: seq<int>)
    requires |lo| == 2 && |hi| == 2
    ensures multiset(Box(lo, hi))[y]
            == if |y| == 2 && lo[0] <= y[0] <= hi[0] && lo[1] <= y[1] <= hi[1] then 1 else 0
  {
    BoxMultiplicity(lo, hi, y);
    InBox2(y, lo, hi);
  }

  /** A 3D box holds each of its cells once. */
  lemma Block3(lo: seq<int>, hi: seq<int>, y: seq<int>)
    requires |lo| == 3 && |hi| == 3
    ensures multiset(Box(lo, hi))[y]
            == if |y| == 3 && lo[0] <= y[0] <= hi[0] && lo[1] <= y[1] <= hi[1] && lo[2] <= y[2] <= hi[2]
               then 1 else 0
  {
    BoxMultiplicity(lo, hi, y);
    InBox3(y, lo, hi);
  }

  // ------------------------------------------------------------------
  // Growing an enumeration one cell or one layer at a time (the loops' view)

  lemma ExtendSnoc(xs: seq<seq<int>>, y: seq<int>, c: int)
    ensures Extend(xs + [y], c) == Extend(xs, c) + [y + [c]]
  {
  }

  lemma ExtendConcat(xs: seq<seq<int>>, ys: seq<seq<int>>, c: int)
    ensures Extend(xs + ys, c) == Extend(xs, c) + Extend(ys, c)
  {
  }

  /** The last layer of a stack is the last one emitted. */
  lemma {:induction false} StackSnoc(inner: seq<seq<int>>, c: int, top: int)
    requires c <= top
    ensures Stack(inner, c, top) == Stack(inner, c, top - 1) + Extend(inner, top)
    decreases top - c
  {
    if c < top {
      StackSnoc(inner, c + 1, top);
    }
  }

  /** Membership in a box, split into the leading axes and the last one. */
  lemma InBoxSplit(y: seq<int>, lo: seq<int>, hi: seq<int>)
    requires |lo| == |hi| && |lo| > 0
    ensures InBox(y, lo, hi)
            <==> |y| == |lo| && InBox(Init(y), Init(lo), Init(hi)) && Last(lo) <= Last(y) <= Last(hi)
  {
    if |y| == |lo| && InBox(Init(y), Init(lo), Init(hi)) && Last(lo) <= Last(y) <= Last(hi) {
      forall d | 0 <= d < |y| ensures lo[d] <= y[d] <= hi[d] {
        if d < |y| - 1 {
          assert y[d] == Init(y)[d] && lo[d] == Init(lo)[d] && hi[d] == Init(hi)[d];
        }
      }
    }
    if InBox(y, lo, hi) {
      forall d | 0 <= d < |Init(y)| ensures Init(lo)[d] <= Init(y)[d] <= Init(hi)[d] {
        assert y[d] == Init(y)[d] && lo[d] == Init(lo)[d] && hi[d] == Init(hi)[d];
      }
    }
  }

  /** A cell that occurs at two positions has multiplicity at least two. */
  lemma RepeatedMultiplicity(s: seq<seq<int>>, i: nat, j: nat)
    requires i < j < |s| && s[i] == s[j]
    ensures multiset(s)[s[i]] >= 2
  {
    assert s == s[..j] + s[j..];
    assert s[i] == s[..j][i];
    assert s[j] == s[j..][0];
    assert multiset(s) == multiset(s[..j]) + multiset(s[j..]);
  }
}
