/**
 * Closed-form relations of a 2^ad-tree: how many children, siblings, faces
 * and nodes a node or a uniformly refined tree has, and the relative position
 * (a +1/-1 offset per axis) of each child with respect to its parent's centre.
 *
 * The source computes the counts in fixed-width unsigned types; here they are
 * unbounded integers.
 */
module TreeRelations {
  import opened IntMath

  /** Number of children of a node of dimension ad: 2^ad. */
  function NoChildren(ad: nat): (r: nat)
    ensures r == Pow(2, ad)
  {
    PowPositive(2, ad);
    Pow(2, ad)
  }

  /** Siblings are the nodes sharing a parent: as many as the children. */
  function NoSiblings(ad: nat): (r: nat)
  {
    NoChildren(ad)
  }

  /** Number of nodes sharing one face of dimension m: 2^m if m <= ad, else 0. */
  function NoNodesSharingFace(ad: nat, m: nat): (r: nat)
  {
    if ad >= m then NoChildren(m) else 0
  }

  /**
   * Nodes sharing one face of dimension m at a given level: (2^m)^level, except
   * that a zero base at level zero yields 0 instead of 0^0 = 1.
   */
  function NoNodesSharingFaceAtLevel(ad: nat, m: nat, level: nat): (r: nat)
  {
    var nsf := NoNodesSharingFace(ad, m);
    if nsf == 0 && level == 0 then 0
    else
      PowNonNegative(nsf, level);
      Pow(nsf, level)
  }

  /** Number of faces of dimension m of a node of dimension ad: 2^(ad-m) * C(ad, m). */
  function NoFaces(ad: nat, m: nat): (r: nat)
  {
    if m <= ad then NoChildren(ad - m) * Binomial(ad, m) else 0
  }

  /** Number of nodes at a uniformly refined level: (2^ad)^level. */
  function NoNodesAtUniformLevel(ad: nat, level: nat): (r: nat)
  {
    PowNonNegative(NoChildren(ad), level);
    Pow(NoChildren(ad), level)
  }

  /** Specification of the accumulating loop: sum of the node counts of levels 0..level. */
  function NodesUpToLevel(ad: nat, level: nat): nat
    decreases level
  {
    NoNodesAtUniformLevel(ad, level) + (if level == 0 then 0 else NodesUpToLevel(ad, level - 1))
  }

  /** Number of nodes of a tree uniformly refined up to `level`, accumulated level by level. */
  method NoNodesUntilUniformLevel(ad: nat, level: nat) returns (noNodes: nat)
    ensures noNodes == NodesUpToLevel(ad, level)
    ensures (NoChildren(ad) - 1) * noNodes == Pow(NoChildren(ad), level + 1) - 1
  {
    noNodes := 0;
    var l := 0;
    while l <= level
      invariant 0 <= l <= level + 1
      invariant l > 0 ==> noNodes == NodesUpToLevel(ad, l - 1)
      invariant l == 0 ==> noNodes == 0
    {
      noNodes := noNodes + NoNodesAtUniformLevel(ad, l);
      l := l + 1;
    }
    NodesUpToLevelClosedForm(ad, level);
  }

  // ------------------------------------------------------------------
  // Properties of the counting formulas

  lemma ChildrenAndSiblings(ad: nat)
    ensures NoSiblings(ad) == NoChildren(ad) == NoNodesAtUniformLevel(ad, 1)
    ensures NoNodesSharingFace(ad, ad) == NoChildren(ad)
  {
  }

  /** Every level multiplies the node count by the number of children. */
  lemma UniformLevelRecurrence(ad: nat, level: nat)
    ensures NoNodesAtUniformLevel(ad, 0) == 1
    ensures NoNodesAtUniformLevel(ad, level + 1) == NoChildren(ad) * NoNodesAtUniformLevel(ad, level)
    ensures NoNodesAtUniformLevel(ad, level) == Pow(2, ad * level)
  {
    PowMul(2, ad, level);
  }

  /**
   * A missing face (m > ad) is shared by no node at any level; an existing face
   * is shared by exactly one node at level 0 and by (2^m)^level nodes at `level`.
   */
  lemma {:induction false} SharingFaceAtLevel(ad: nat, m: nat, level: nat)
    ensures m > ad ==> NoNodesSharingFaceAtLevel(ad, m, level) == 0
    ensures m <= ad && level == 0 ==> NoNodesSharingFaceAtLevel(ad, m, level) == 1
    ensures m <= ad ==> NoNodesSharingFaceAtLevel(ad, m, level) == Pow(2, m * level)
    ensures m == ad ==> NoNodesSharingFaceAtLevel(ad, m, level) == NoNodesAtUniformLevel(ad, level)
  {
    if m > ad && level > 0 {
      PowZeroBase(level);
    }
    if m <= ad {
      PowPositive(2, m);
      PowMul(2, m, level);
    }
  }

  /** Faces of dimension 0, 1, 2 of a cube: 8 corners, 12 edges, 6 faces; and a square has 4 edges. */
  lemma FacesOfCubeAndSquare()
    ensures NoFaces(3, 0) == 8 && NoFaces(3, 1) == 12 && NoFaces(3, 2) == 6 && NoFaces(3, 3) == 1
    ensures NoFaces(2, 0) == 4 && NoFaces(2, 1) == 4 && NoFaces(2, 2) == 1
    ensures NoFaces(3, 4) == 0
  {
    assert Binomial(3, 1) == 3 && Binomial(3, 2) == 3;
    BinomialDiagonal(3);
    BinomialDiagonal(2);
  }

  /**
   * The faces of an (ad+1)-cube of dimension m+1 are the two copies of those of
   * the ad-cube, plus the extrusions of its m-faces.
   */
  lemma {:induction false} FacesRecurrence(ad: nat, m: nat)
    ensures NoFaces(ad + 1, m + 1) == 2 * NoFaces(ad, m + 1) + NoFaces(ad, m)
    ensures NoFaces(ad, 0) == NoChildren(ad)
    ensures NoFaces(ad, ad) == 1
  {
    BinomialDiagonal(ad);
    if m + 1 <= ad {
      assert Pow(2, ad - m) == 2 * Pow(2, ad - m - 1);
    } else if m == ad {
      BinomialAbove(ad, ad + 1);
    } else {
      BinomialAbove(ad + 1, m + 1);
    }
  }

  /** Closed form of the accumulated node count: (K-1) * S(L) == K^(L+1) - 1 with K = 2^ad. */
  lemma {:induction false} NodesUpToLevelClosedForm(ad: nat, level: nat)
    ensures (NoChildren(ad) - 1) * NodesUpToLevel(ad, level) == Pow(NoChildren(ad), level + 1) - 1
  {
    var k := NoChildren(ad);
    if level == 0 {
      assert Pow(k, 1) == k * Pow(k, 0);
    } else {
      NodesUpToLevelClosedForm(ad, level - 1);
      var q, s := Pow(k, level), NodesUpToLevel(ad, level - 1);
      assert NodesUpToLevel(ad, level) == q + s;
      assert Pow(k, level + 1) == k * q;
      ClosedFormStep(k, q, s);
    }
  }

  lemma ClosedFormStep(k: int, q: int, s: int)
    requires (k - 1) * s == q - 1
    ensures (k - 1) * (q + s) == k * q - 1
  {
    assert (k - 1) * (q + s) == (k - 1) * q + (k - 1) * s;
    assert (k - 1) * q + q == k * q;
  }

  /** Adding a level always adds nodes. */
  lemma {:induction false} NodesUpToLevelIncreasing(ad: nat, l1: nat, l2: nat)
    requires l1 < l2
    ensures NodesUpToLevel(ad, l1) < NodesUpToLevel(ad, l2)
  {
    PowPositive(2, ad);
    PowPositive(NoChildren(ad), l2);
    if l1 < l2 - 1 {
      NodesUpToLevelIncreasing(ad, l1, l2 - 1);
    }
  }

  // ------------------------------------------------------------------
  // Relative child positions

  /**
   * The look-up table: entry p is the +1/-1 offset of child p along each axis.
   * Only dimensions 1, 2 and 3 have a table; the generic one is empty.
   */
  function Stencil(ad: nat): seq<seq<int>>
  {
    if ad == 1 then [[-1], [1]]
    else if ad == 2 then [[-1, -1], [1, -1], [-1, 1], [1, 1]]
    else if ad == 3 then
      [[-1, -1, -1], [1, -1, -1], [-1, 1, -1], [1, 1, -1],
       [-1, -1, 1], [1, -1, 1], [-1, 1, 1], [1, 1, 1]]
    else []
  }

  /** Relative position of child p, by table look-up. */
  function RelativeChildPosition(ad: nat, p: nat): (r: seq<int>)
    requires 1 <= ad <= 3 && p < NoChildren(ad)
    ensures |r| == ad
    ensures forall d :: 0 <= d < ad ==> r[d] == (if Bit(p, d) == 1 then 1 else -1)
  {
    TableMatchesArithmetic(ad, p);
    BitOffsetsAll(ad, p);
    Stencil(ad)[p]
  }

  /** Bit d of p. */
  function Bit(p: nat, d: nat): nat
  {
    PowPositive(2, d);
    (p / Pow(2, d)) % 2
  }

  predicate IsOffset(v: seq<int>)
  {
    forall d :: 0 <= d < |v| ==> v[d] == 1 || v[d] == -1
  }

  /** The arithmetic fallback as a recursive definition: axis 0 reads the lowest bit. */
  function BitOffsets(ad: nat, p: nat): seq<int>
    decreases ad
  {
    if ad == 0 then [] else [if p % 2 == 1 then 1 else -1] + BitOffsets(ad - 1, p / 2)
  }

  /** Child position of a +1/-1 offset: bit d is set iff the offset is +1 on axis d. */
  function PositionOf(v: seq<int>): nat
    decreases |v|
  {
    if v == [] then 0 else (if v[0] == 1 then 1 else 0) + 2 * PositionOf(v[1..])
  }

  /**
   * Relative position of child p without the table: component d is +1 iff bit d
   * of p is set.
   */
  method RelativeChildPositionArithmetic(ad: nat, p: nat) returns (r: seq<int>)
    requires p < NoChildren(ad)
    ensures |r| == ad && IsOffset(r)
    ensures forall d :: 0 <= d < ad ==> (r[d] == 1 <==> Bit(p, d) == 1)
    ensures r == BitOffsets(ad, p)
    ensures 1 <= ad <= 3 ==> r == RelativeChildPosition(ad, p)
  {
    r := [];
    var d := 0;
    while d < ad
      invariant 0 <= d <= ad
      invariant |r| == d
      invariant forall e :: 0 <= e < d ==> r[e] == (if Bit(p, e) == 1 then 1 else -1)
    {
      PowPositive(2, d);
      r := r + [if (p / Pow(2, d)) % 2 == 1 then 1 else -1];
      d := d + 1;
    }
    BitOffsetsAll(ad, p);
  }

  lemma {:induction false} BitOffsetsLength(ad: nat, p: nat)
    ensures |BitOffsets(ad, p)| == ad
  {
    if ad > 0 {
      BitOffsetsLength(ad - 1, p / 2);
    }
  }

  /** Shifting off the lowest bit shifts every other bit down by one. */
  lemma BitOfHalf(p: nat, d: nat)
    ensures Bit(p / 2, d) == Bit(p, d + 1)
  {
    PowPositive(2, d);
    var m := Pow(2, d);
    var q := p / 2;
    var a := q / m;
    var b := q % m;
    assert q == m * a + b && 0 <= b < m;
    assert p == 2 * q + p % 2;
    assert p == (2 * m) * a + (2 * b + p % 2);
    assert 0 <= 2 * b + p % 2 < 2 * m;
    DivUnique(p, 2 * m, a, 2 * b + p % 2);
    assert Pow(2, d + 1) == 2 * m;
  }

  lemma {:induction false} BitOffsetsAt(ad: nat, p: nat, d: nat)
    requires d < ad
    ensures |BitOffsets(ad, p)| == ad
    ensures BitOffsets(ad, p)[d] == (if Bit(p, d) == 1 then 1 else -1)
  {
    BitOffsetsLength(ad, p);
    if d > 0 {
      BitOffsetsAt(ad - 1, p / 2, d - 1);
      BitOfHalf(p, d - 1);
    }
  }

  lemma BitOffsetsAll(ad: nat, p: nat)
    ensures |BitOffsets(ad, p)| == ad
    ensures forall d :: 0 <= d < ad ==> BitOffsets(ad, p)[d] == (if Bit(p, d) == 1 then 1 else -1)
  {
    BitOffsetsLength(ad, p);
    forall d | 0 <= d < ad
      ensures BitOffsets(ad, p)[d] == (if Bit(p, d) == 1 then 1 else -1)
    {
      BitOffsetsAt(ad, p, d);
    }
  }

  /** Reading the offset back gives the child position: the table is injective. */
  lemma {:induction false} PositionOfBitOffsets(ad: nat, p: nat)
    requires p < NoChildren(ad)
    ensures PositionOf(BitOffsets(ad, p)) == p
  {
    if ad > 0 {
      assert Pow(2, ad) == 2 * Pow(2, ad - 1);
      PositionOfBitOffsets(ad - 1, p / 2);
      var v := BitOffsets(ad, p);
      assert v[1..] == BitOffsets(ad - 1, p / 2);
    }
  }

  /** Every +1/-1 offset is the offset of exactly the child PositionOf(v): the table is surjective. */
  lemma {:induction false} BitOffsetsOfPosition(v: seq<int>)
    requires IsOffset(v)
    ensures PositionOf(v) < NoChildren(|v|)
    ensures BitOffsets(|v|, PositionOf(v)) == v
  {
    if v != [] {
      BitOffsetsOfPosition(v[1..]);
      var low := if v[0] == 1 then 1 else 0;
      var p := PositionOf(v);
      assert p == low + 2 * PositionOf(v[1..]);
      assert p % 2 == low && p / 2 == PositionOf(v[1..]);
      assert Pow(2, |v|) == 2 * Pow(2, |v| - 1);
      assert v == [v[0]] + v[1..];
    }
  }

  /** Every table entry is the arithmetic fallback's result. */
  lemma TableMatchesArithmetic(ad: nat, p: nat)
    requires 1 <= ad <= 3 && p < NoChildren(ad)
    ensures |Stencil(ad)| == NoChildren(ad)
    ensures Stencil(ad)[p] == BitOffsets(ad, p)
  {
    assert Pow(2, 1) == 2 && Pow(2, 2) == 4 && Pow(2, 3) == 8;
    if ad == 1 {
      if p == 0 {
        assert Stencil(1)[0] == [-1] == BitOffsets(1, 0);
      } else {
        assert Stencil(1)[1] == [1] == BitOffsets(1, 1);
      }
    } else if ad == 2 {
      TableEntry2(p);
    } else {
      TableEntry3(p);
    }
  }

  lemma TableEntry2(p: nat)
    requires p < 4
    ensures Stencil(2)[p] == BitOffsets(2, p)
  {
    if p == 0 {
      assert Stencil(2)[0] == [-1, -1] == BitOffsets(2, 0);
    } else if p == 1 {
      assert Stencil(2)[1] == [1, -1] == BitOffsets(2, 1);
    } else if p == 2 {
      assert Stencil(2)[2] == [-1, 1] == BitOffsets(2, 2);
    } else {
      assert Stencil(2)[3] == [1, 1] == BitOffsets(2, 3);
    }
  }

  lemma TableEntry3(p: nat)
    requires p < 8
    ensures Stencil(3)[p] == BitOffsets(3, p)
  {
    if p < 4 {
      TableEntry3Low(p);
    } else {
      TableEntry3High(p);
    }
  }

  lemma TableEntry3Low(p: nat)
    requires p < 4
    ensures Stencil(3)[p] == BitOffsets(3, p)
  {
    if p == 0 {
      assert Stencil(3)[0] == [-1, -1, -1] == BitOffsets(3, 0);
    } else if p == 1 {
      assert Stencil(3)[1] == [1, -1, -1] == BitOffsets(3, 1);
    } else if p == 2 {
      assert Stencil(3)[2] == [-1, 1, -1] == BitOffsets(3, 2);
    } else {
      assert Stencil(3)[3] == [1, 1, -1] == BitOffsets(3, 3);
    }
  }

  lemma TableEntry3High(p: nat)
    requires 4 <= p < 8
    ensures Stencil(3)[p] == BitOffsets(3, p)
  {
    if p == 4 {
      assert Stencil(3)[4] == [-1, -1, 1] == BitOffsets(3, 4);
    } else if p == 5 {
      assert Stencil(3)[5] == [1, -1, 1] == BitOffsets(3, 5);
    } else if p == 6 {
      assert Stencil(3)[6] == [-1, 1, 1] == BitOffsets(3, 6);
    } else {
      assert Stencil(3)[7] == [1, 1, 1] == BitOffsets(3, 7);
    }
  }

  /**
   * The table maps the 2^ad child positions one-to-one onto the +1/-1 vectors
   * of length ad, and entry p has +1 on axis d exactly when bit d of p is set.
   */
  lemma TableIsBijection(ad: nat)
    requires 1 <= ad <= 3
    ensures |Stencil(ad)| == NoChildren(ad)
    ensures forall p :: 0 <= p < NoChildren(ad) ==> |Stencil(ad)[p]| == ad && IsOffset(Stencil(ad)[p])
    ensures forall p, q :: 0 <= p < q < NoChildren(ad) ==> Stencil(ad)[p] != Stencil(ad)[q]
    ensures forall v :: |v| == ad && IsOffset(v) ==> PositionOf(v) < NoChildren(ad) && Stencil(ad)[PositionOf(v)] == v
  {
    TableMatchesArithmetic(ad, 0);
    forall p | 0 <= p < NoChildren(ad)
      ensures |Stencil(ad)[p]| == ad && IsOffset(Stencil(ad)[p])
    {
      TableMatchesArithmetic(ad, p);
      BitOffsetsLength(ad, p);
      forall d | 0 <= d < ad ensures Stencil(ad)[p][d] == 1 || Stencil(ad)[p][d] == -1 {
        BitOffsetsAt(ad, p, d);
      }
    }
    forall p, q | 0 <= p < q < NoChildren(ad)
      ensures Stencil(ad)[p] != Stencil(ad)[q]
    {
      TableMatchesArithmetic(ad, p);
      TableMatchesArithmetic(ad, q);
      PositionOfBitOffsets(ad, p);
      PositionOfBitOffsets(ad, q);
    }
    forall v | |v| == ad && IsOffset(v)
      ensures PositionOf(v) < NoChildren(ad) && Stencil(ad)[PositionOf(v)] == v
    {
      BitOffsetsOfPosition(v);
      TableMatchesArithmetic(ad, PositionOf(v));
    }
  }
}
