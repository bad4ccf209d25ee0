/** values_adapter.h: a view over [beg, last) of a range of pairs that yields component N
    of each, N being 1 by default, as for the values of a map. The model takes that
    default: the elements are pairs and the view yields their second components. */
module RangesValues {
  import opened RangesSeq
  import RangesTransform

  /** The second components of s, in order. */
  function Seconds<K, V>(s: seq<(K, V)>): (r: seq<V>)
    ensures |r| == |s|
    ensures forall i | 0 <= i < |s| :: r[i] == s[i].1
  {
    if |s| == 0 then [] else [s[0].1] + Seconds(s[1..])
  }

  /** Values is Transform by the projection onto the second component. */
  lemma SecondsAsTransform<K, V>(s: seq<(K, V)>)
    ensures Seconds(s) == RangesTransform.Mapped(s, (p: (K, V)) => p.1)
  {
  }

  /** ValuesForwardIterator, ValuesBidirectionalIterator and ValuesRandomAccessIterator
      (values_adapter.h:6-178): the forward one is this class with Next, Get and Equal
      only, the bidirectional one adds Prev. */
  class ValuesIterator<K, V> {
    const source: seq<(K, V)>
    var cur: int

    constructor (source: seq<(K, V)>, cur: int)
      ensures this.source == source && this.cur == cur
    {
      this.source := source;
      this.cur := cur;
    }

    /** operator*: std::get<1> of the element at cur. */
    function Get(): (r: V)
      reads this
      requires 0 <= cur < |source|
      ensures r == Seconds(source)[cur]
    {
      source[cur].1
    }

    /** operator[]: the component n places on, leaving the iterator where it is. */
    function At(n: nat): (r: V)
      reads this
      requires 0 <= cur && cur + n < |source|
      ensures r == Seconds(source)[cur + n]
    {
      source[cur + n].1
    }

    /** operator== and operator!= compare positions only. */
    predicate Equal(other: ValuesIterator<K, V>)
      reads this, other
    {
      cur == other.cur
    }

    /** operator++ */
    method Next()
      modifies this
      ensures cur == old(cur) + 1
    {
      cur := cur + 1;
    }

    /** operator-- */
    method Prev()
      modifies this
      ensures cur == old(cur) - 1
    {
      cur := cur - 1;
    }

    /** operator+= */
    method AddAssign(n: nat)
      modifies this
      ensures cur == old(cur) + n
    {
      cur := cur + n;
    }

    /** operator-= */
    method SubAssign(n: nat)
      modifies this
      ensures cur == old(cur) - n
    {
      cur := cur - n;
    }

    /** it + n and n + it: a copy moved n places on; the operand stays where it is. */
    method Plus(n: nat) returns (r: ValuesIterator<K, V>)
      ensures fresh(r) && r.source == source && r.cur == cur + n
    {
      r := new ValuesIterator(source, cur);
      r.AddAssign(n);
    }

    /** it - n, and n - it, which the source defines as the same copy moved n places back. */
    method Minus(n: nat) returns (r: ValuesIterator<K, V>)
      ensures fresh(r) && r.source == source && r.cur == cur - n
    {
      r := new ValuesIterator(source, cur);
      r.SubAssign(n);
    }
  }

  /** ValuesView (values_adapter.h:180-210), built by operator| with Values()
      (values_adapter.h:212-215) over the range [beg, last) of its left operand. */
  class ValuesView<K, V> {
    const source: seq<(K, V)>
    const beg: int
    const last: int

    constructor (source: seq<(K, V)>, beg: int, last: int)
      ensures this.source == source && this.beg == beg && this.last == last
    {
      this.source := source;
      this.beg := beg;
      this.last := last;
    }

    method Begin() returns (it: ValuesIterator<K, V>)
      ensures fresh(it) && it.source == source && it.cur == beg
    {
      it := new ValuesIterator(source, beg);
    }

    method End() returns (it: ValuesIterator<K, V>)
      ensures fresh(it) && it.source == source && it.cur == last
    {
      it := new ValuesIterator(source, last);
    }
  }

  /** operator== is equality of positions, and so an equivalence; operator!= is its
      negation. */
  lemma IteratorEquality<K, V>(a: ValuesIterator<K, V>, b: ValuesIterator<K, V>, c: ValuesIterator<K, V>)
    ensures a.Equal(a) && (a.Equal(b) <==> b.Equal(a))
    ensures a.Equal(b) && b.Equal(c) ==> a.Equal(c)
    ensures a.Equal(b) <==> a.cur == b.cur
  {
  }

  /** A range-for over source[beg..last] | Values(): the second components, in order. */
  method Collect<K, V>(source: seq<(K, V)>, beg: int, last: int) returns (out: seq<V>)
    requires 0 <= beg <= last <= |source|
    ensures out == Seconds(source[beg..last])
  {
    var view := new ValuesView(source, beg, last);
    var it := view.Begin();
    var e := view.End();
    out := [];
    while !it.Equal(e)
      invariant it != e && e.cur == last && it.source == source
      invariant beg <= it.cur <= last
      invariant |out| == it.cur - beg && forall i | 0 <= i < |out| :: out[i] == source[beg + i].1
      decreases last - it.cur
    {
      out := out + [it.Get()];
      it.Next();
    }
  }

  /** A traversal from end() back to begin() with operator--: the second components,
      last first. */
  method CollectReverse<K, V>(source: seq<(K, V)>, beg: int, last: int) returns (out: seq<V>)
    requires 0 <= beg <= last <= |source|
    ensures out == Reversed(Seconds(source[beg..last]))
  {
    var view := new ValuesView(source, beg, last);
    var b := view.Begin();
    var it := view.End();
    out := [];
    while !it.Equal(b)
      invariant it != b && b.cur == beg && it.source == source
      invariant beg <= it.cur <= last
      invariant out == Reversed(Seconds(source[it.cur..last]))
      decreases it.cur
    {
      it.Prev();
      ReversedCons(source[it.cur].1, Seconds(source[it.cur + 1..last]));
      assert Seconds(source[it.cur..last]) == [source[it.cur].1] + Seconds(source[it.cur + 1..last]);
      out := out + [it.Get()];
    }
  }
}
