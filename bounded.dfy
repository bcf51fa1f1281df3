/**
 * A bounded integer: a value confined to the half-open range [lo, hi)
 * fixed by its type. Every access checks the range; increments and in-place
 * arithmetic check that the new value stays in it.
 */
module BoundedIntegers {

  class Bounded {
    /** The type's bounds, `from` and `to`. */
    const lo: int
    const hi: int
    var value: int

    /** operator bool: the value lies in [lo, hi). */
    predicate InBounds()
      reads this
    {
      lo <= value < hi
    }

    /** Two bounded integers of the same type. */
    predicate SameType(o: Bounded)
    {
      lo == o.lo && hi == o.hi
    }

    /** Construction from a value in range. */
    constructor (lo: int, hi: int, v: int)
      requires lo <= v < hi
      ensures this.lo == lo && this.hi == hi && value == v && InBounds()
    {
      this.lo := lo;
      this.hi := hi;
      value := v;
    }

    /** Default construction: the value is the lower bound. */
    constructor Default(lo: int, hi: int)
      requires lo < hi
      ensures this.lo == lo && this.hi == hi && value == lo && InBounds()
    {
      this.lo := lo;
      this.hi := hi;
      value := lo;
    }

    /** operator*: the value, which must be in range. */
    function Get(): (r: int)
      reads this
      requires InBounds()
      ensures lo <= r < hi && r == value
    {
      value
    }

    /** operator==. */
    function Equal(o: Bounded): (r: bool)
      reads this, o
      requires InBounds() && o.InBounds() && SameType(o)
      ensures r <==> Get() == o.Get()
    {
      Get() == o.Get()
    }

    /** operator!=. */
    function NotEqual(o: Bounded): (r: bool)
      reads this, o
      requires InBounds() && o.InBounds() && SameType(o)
      ensures r <==> Get() != o.Get()
    {
      Get() != o.Get()
    }

    /** operator<. */
    function Less(o: Bounded): (r: bool)
      reads this, o
      requires InBounds() && o.InBounds() && SameType(o)
      ensures r <==> Get() < o.Get()
    {
      Get() < o.Get()
    }

    /** operator>. */
    function Greater(o: Bounded): (r: bool)
      reads this, o
      requires InBounds() && o.InBounds() && SameType(o)
      ensures r <==> Get() > o.Get()
    {
      Get() > o.Get()
    }

    /** operator<=. */
    function LessEq(o: Bounded): (r: bool)
      reads this, o
      requires InBounds() && o.InBounds() && SameType(o)
      ensures r <==> Get() <= o.Get()
    {
      Get() <= o.Get()
    }

    /** operator>=. */
    function GreaterEq(o: Bounded): (r: bool)
      reads this, o
      requires InBounds() && o.InBounds() && SameType(o)
      ensures r <==> Get() >= o.Get()
    {
      Get() >= o.Get()
    }

    /** Pre-increment: the value moves up by one and must stay below hi. */
    method Increment()
      requires InBounds() && value + 1 < hi
      modifies this
      ensures value == old(value) + 1 && InBounds()
    {
      value := value + 1;
    }

    /** Post-increment: like pre-increment, returning a copy holding the
        value from before. */
    method PostIncrement() returns (r: Bounded)
      requires InBounds() && value + 1 < hi
      modifies this
      ensures fresh(r) && r.lo == lo && r.hi == hi && r.value == old(value) && r.InBounds()
      ensures value == old(value) + 1 && InBounds()
    {
      r := new Bounded(lo, hi, value);
      value := value + 1;
    }

    /** operator+=: adds the other's value; the sum must stay in range. The
        other may be this very object. */
    method AddAssign(o: Bounded)
      requires InBounds() && o.InBounds() && SameType(o)
      requires lo <= value + o.value < hi
      modifies this
      ensures value == old(value) + old(o.value) && InBounds()
    {
      value := value + o.Get();
    }

    /** operator-=: subtracts the other's value; the difference must stay in
        range. The other may be this very object. */
    method SubAssign(o: Bounded)
      requires InBounds() && o.InBounds() && SameType(o)
      requires lo <= value - o.value < hi
      modifies this
      ensures value == old(value) - old(o.value) && InBounds()
    {
      value := value - o.Get();
    }
  }

  /** rng(): the values lo, lo + 1, ..., hi - 1 in order, each a valid
      bounded integer. */
  function Rng(lo: int, hi: int): (r: seq<int>)
    ensures |r| == if lo < hi then hi - lo else 0
    ensures forall i :: 0 <= i < |r| ==> r[i] == lo + i
    decreases hi - lo
  {
    if lo < hi then [lo] + Rng(lo + 1, hi) else []
  }

  /** The range holds exactly the in-bounds values, in increasing order. */
  lemma RngExact(lo: int, hi: int)
    ensures forall x :: x in Rng(lo, hi) <==> lo <= x < hi
    ensures forall i, j :: 0 <= i < j < |Rng(lo, hi)| ==> Rng(lo, hi)[i] < Rng(lo, hi)[j]
  {
    var r := Rng(lo, hi);
    forall x | lo <= x < hi
      ensures x in r
    {
      assert r[x - lo] == x;
    }
  }

  /** The comparisons are consistent with one another: exactly one of <, ==
      and > holds, != is the negation of ==, <= is < or ==, and >= is the
      negation of <. */
  lemma ComparisonsConsistent(a: Bounded, b: Bounded)
    requires a.InBounds() && b.InBounds() && a.SameType(b)
    ensures a.Less(b) || a.Equal(b) || a.Greater(b)
    ensures !(a.Less(b) && a.Equal(b)) && !(a.Less(b) && a.Greater(b)) && !(a.Equal(b) && a.Greater(b))
    ensures a.NotEqual(b) <==> !a.Equal(b)
    ensures a.LessEq(b) <==> a.Less(b) || a.Equal(b)
    ensures a.GreaterEq(b) <==> !a.Less(b)
    ensures a.Less(b) <==> b.Greater(a)
  {
  }
}
