/** transform_adapter.h: a view over [beg, last) that yields f applied to each element.
    An iterator holds its position cur and the function; everything but dereferencing
    acts on cur alone. */
module RangesTransform {
  import opened RangesSeq

  /** f applied to each element of s. */
  function Mapped<T, U>(s: seq<T>, f: T -> U): (r: seq<U>)
    ensures |r| == |s|
    ensures forall i | 0 <= i < |s| :: r[i] == f(s[i])
  {
    if |s| == 0 then [] else [f(s[0])] + Mapped(s[1..], f)
  }

  /** Mapping distributes over concatenation. */
  lemma MappedAppend<T, U>(s: seq<T>, t: seq<T>, f: T -> U)
    ensures Mapped(s + t, f) == Mapped(s, f) + Mapped(t, f)
  {
  }

  /** Two transforms in a row yield what one transform by the composed function yields. */
  lemma MappedCompose<T, U, W>(s: seq<T>, f: T -> U, g: U -> W)
    ensures Mapped(Mapped(s, f), g) == Mapped(s, x => g(f(x)))
  {
  }

  /** TransformForwardIterator, TransformBidirectionalIterator and
      TransformRandomAccessIterator (transform_adapter.h:7-206): the forward one is this
      class with Next, Get and Equal only, the bidirectional one adds Prev. */
  class TransformIterator<T, U> {
    const source: seq<T>
    const f: T -> U
    var cur: int

    constructor (source: seq<T>, cur: int, f: T -> U)
      ensures this.source == source && this.cur == cur && this.f == f
    {
      this.source := source;
      this.cur := cur;
      this.f := f;
    }

    /** operator*: the transformed element at cur. */
    function Get(): (r: U)
      reads this
      requires 0 <= cur < |source|
      ensures r == Mapped(source, f)[cur]
    {
      f(source[cur])
    }

    /** operator[]: the transformed element n places on, leaving the iterator where it is. */
    function At(n: nat): (r: U)
      reads this
      requires 0 <= cur && cur + n < |source|
      ensures r == Mapped(source, f)[cur + n]
    {
      f(source[cur + n])
    }

    /** operator== and operator!= compare positions only. */
    predicate Equal(other: TransformIterator<T, U>)
      reads this, other
    {
      cur == other.cur
    }

    /** operator<; operator>, <= and >= are the same comparison of positions turned round
        or negated. */
    predicate Less(other: TransformIterator<T, U>)
      reads this, other
    {
      cur < other.cur
    }

    /** operator++ */
    method Next()
      modifies this
      ensures cur == old(cur) + 1
    {
      cur := cur + 1;
    }

    /** operator-- */
    method Prev()
      modifies this
      ensures cur == old(cur) - 1
    {
      cur := cur - 1;
    }

    /** operator+= */
    method AddAssign(n: nat)
      modifies this
      ensures cur == old(cur) + n
    {
      cur := cur + n;
    }

    /** operator-= */
    method SubAssign(n: nat)
      modifies this
      ensures cur == old(cur) - n
    {
      cur := cur - n;
    }

    /** it + n and n + it: a copy moved n places on; the operand stays where it is. */
    method Plus(n: nat) returns (r: TransformIterator<T, U>)
      ensures fresh(r) && r.source == source && r.f == f && r.cur == cur + n
    {
      r := new TransformIterator(source, cur, f);
      r.AddAssign(n);
    }

    /** it - n, and n - it, which the source defines as the same copy moved n places back. */
    method Minus(n: nat) returns (r: TransformIterator<T, U>)
      ensures fresh(r) && r.source == source && r.f == f && r.cur == cur - n
    {
      r := new TransformIterator(source, cur, f);
      r.SubAssign(n);
    }
  }

  /** TransformView (transform_adapter.h:208-237), built by operator| with Transform(f)
      (transform_adapter.h:239-254) over the range [beg, last) of its left operand. */
  class TransformView<T, U> {
    const source: seq<T>
    const beg: int
    const last: int
    const f: T -> U

    constructor (source: seq<T>, beg: int, last: int, f: T -> U)
      ensures this.source == source && this.beg == beg && this.last == last && this.f == f
    {
      this.source := source;
      this.beg := beg;
      this.last := last;
      this.f := f;
    }

    method Begin() returns (it: TransformIterator<T, U>)
      ensures fresh(it) && it.source == source && it.f == f && it.cur == beg
    {
      it := new TransformIterator(source, beg, f);
    }

    method End() returns (it: TransformIterator<T, U>)
      ensures fresh(it) && it.source == source && it.f == f && it.cur == last
    {
      it := new TransformIterator(source, last, f);
    }
  }

  /** operator< orders iterators by position strictly and totally: of a < b, a == b
      and b < a exactly one holds, < is transitive, and a <= b (which the source writes
      as the position comparison <=) holds exactly when not b < a. */
  lemma IteratorOrder<T, U>(a: TransformIterator<T, U>, b: TransformIterator<T, U>, c: TransformIterator<T, U>)
    ensures !a.Less(a) && a.Equal(a)
    ensures (a.Less(b) || a.Equal(b) || b.Less(a)) && !(a.Less(b) && b.Less(a))
    ensures a.Equal(b) ==> !a.Less(b) && !b.Less(a)
    ensures a.Less(b) && b.Less(c) ==> a.Less(c)
    ensures (a.Less(b) || a.Equal(b)) <==> !b.Less(a)
  {
  }

  /** A range-for over source[beg..last] | Transform(f): f of every element, in order. */
  method Collect<T, U>(source: seq<T>, beg: int, last: int, f: T -> U) returns (out: seq<U>)
    requires 0 <= beg <= last <= |source|
    ensures out == Mapped(source[beg..last], f)
  {
    var view := new TransformView(source, beg, last, f);
    var it := view.Begin();
    var e := view.End();
    out := [];
    while !it.Equal(e)
      invariant it != e && e.cur == last && it.source == source && it.f == f
      invariant beg <= it.cur <= last
      invariant |out| == it.cur - beg && forall i | 0 <= i < |out| :: out[i] == f(source[beg + i])
      decreases last - it.cur
    {
      out := out + [it.Get()];
      it.Next();
    }
  }

  /** A traversal from end() back to begin() with operator--: f of every element, last
      first. */
  method CollectReverse<T, U>(source: seq<T>, beg: int, last: int, f: T -> U) returns (out: seq<U>)
    requires 0 <= beg <= last <= |source|
    ensures out == Reversed(Mapped(source[beg..last], f))
  {
    var view := new TransformView(source, beg, last, f);
    var b := view.Begin();
    var it := view.End();
    out := [];
    while !it.Equal(b)
      invariant it != b && b.cur == beg && it.source == source && it.f == f
      invariant beg <= it.cur <= last
      invariant out == Reversed(Mapped(source[it.cur..last], f))
      decreases it.cur
    {
      it.Prev();
      ReversedCons(f(source[it.cur]), Mapped(source[it.cur + 1..last], f));
      assert Mapped(source[it.cur..last], f) == [f(source[it.cur])] + Mapped(source[it.cur + 1..last], f);
      out := out + [it.Get()];
    }
  }
}
