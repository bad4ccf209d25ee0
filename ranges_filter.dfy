/** filter_adapter.h: a view over [beg, last) of a sequence that yields only the elements
    satisfying a predicate. An iterator holds its position cur and the end of the range,
    and two iterators are equal when both positions are. */
module RangesFilter {
  import opened RangesSeq

  /** The elements of s that satisfy pred, in their order. */
  function Filtered<T>(s: seq<T>, pred: T -> bool): (r: seq<T>)
    ensures |r| <= |s|
    ensures forall i | 0 <= i < |r| :: pred(r[i])
  {
    if |s| == 0 then [] else (if pred(s[0]) then [s[0]] else []) + Filtered(s[1..], pred)
  }

  /** Filtering distributes over concatenation. */
  lemma {:induction false} FilteredAppend<T>(s: seq<T>, t: seq<T>, pred: T -> bool)
    ensures Filtered(s + t, pred) == Filtered(s, pred) + Filtered(t, pred)
  {
    if |s| > 0 {
      assert (s + t)[1..] == s[1..] + t;
      FilteredAppend(s[1..], t, pred);
    } else {
      assert s + t == t;
    }
  }

  /** Filtering keeps a sequence whose every element satisfies pred, and empties one none
      of whose elements does. */
  lemma {:induction false} FilteredExtremes<T>(s: seq<T>, pred: T -> bool)
    ensures (forall i | 0 <= i < |s| :: pred(s[i])) ==> Filtered(s, pred) == s
    ensures (forall i | 0 <= i < |s| :: !pred(s[i])) ==> Filtered(s, pred) == []
  {
    if |s| > 0 {
      FilteredExtremes(s[1..], pred);
      assert forall i | 0 <= i < |s| - 1 :: s[1..][i] == s[i + 1];
      if forall i | 0 <= i < |s| :: pred(s[i]) {
        assert forall i | 0 <= i < |s[1..]| :: pred(s[1..][i]);
        assert [s[0]] + s[1..] == s;
      }
    }
  }

  /** Skipping positions whose elements fail pred drops nothing from the filtered range. */
  lemma {:induction false} FilteredSkip<T>(s: seq<T>, pred: T -> bool, a: int, b: int, last: int)
    requires 0 <= a <= b <= last <= |s|
    requires forall k | a <= k < b :: !pred(s[k])
    ensures Filtered(s[a..last], pred) == Filtered(s[b..last], pred)
    decreases b - a
  {
    if a < b {
      assert s[a..last][1..] == s[a + 1..last];
      FilteredSkip(s, pred, a + 1, b, last);
    }
  }

  /** A filtered range starting at a match yields that match first. */
  lemma FilteredMatch<T>(s: seq<T>, pred: T -> bool, c: int, last: int)
    requires 0 <= c < last <= |s| && pred(s[c])
    ensures Filtered(s[c..last], pred) == [s[c]] + Filtered(s[c + 1..last], pred)
  {
    assert s[c..last][1..] == s[c + 1..last];
  }

  /** The first position in [beg, last) whose element satisfies pred, or last, found as
      the view's constructor finds it (filter_adapter.h:111-116). */
  method FirstMatch<T>(source: seq<T>, pred: T -> bool, beg: int, last: int) returns (b: int)
    requires 0 <= beg <= last <= |source|
    ensures beg <= b <= last && (b == last || pred(source[b]))
    ensures forall k | beg <= k < b :: !pred(source[k])
  {
    b := beg;
    while b != last && !pred(source[b])
      invariant beg <= b <= last
      invariant forall k | beg <= k < b :: !pred(source[k])
      decreases last - b
    {
      b := b + 1;
    }
  }

  /** FilterForwardIterator and FilterBidirectionalIterator (filter_adapter.h:8-106); the
      forward one is this class without Prev. */
  class FilterIterator<T> {
    const source: seq<T>
    const pred: T -> bool
    var cur: int
    const last: int

    constructor (source: seq<T>, pred: T -> bool, cur: int, last: int)
      ensures this.source == source && this.pred == pred && this.cur == cur && this.last == last
    {
      this.source := source;
      this.pred := pred;
      this.cur := cur;
      this.last := last;
    }

    /** operator*: the element at cur; at a match before last it is the first element
        the rest of the filtered range yields. */
    function Get(): (r: T)
      reads this
      requires 0 <= cur < |source|
      ensures cur < last <= |source| && pred(source[cur]) ==>
                Filtered(source[cur..last], pred) == [r] + Filtered(source[cur + 1..last], pred)
    {
      if cur < last <= |source| && pred(source[cur]) then
        FilteredMatch(source, pred, cur, last);
        source[cur]
      else source[cur]
    }

    /** operator== compares both positions; operator!= is its negation. */
    predicate Equal(other: FilterIterator<T>)
      reads this, other
    {
      cur == other.cur && last == other.last
    }

    /** operator++: step once, then on to the next match or to last. */
    method Next()
      requires 0 <= cur < last <= |source|
      modifies this
      ensures old(cur) < cur <= last && (cur == last || pred(source[cur]))
      ensures forall k | old(cur) < k < cur :: !pred(source[k])
    {
      cur := cur + 1;
      while cur != last && !pred(source[cur])
        invariant old(cur) < cur <= last
        invariant forall k | old(cur) < k < cur :: !pred(source[k])
        decreases last - cur
      {
        cur := cur + 1;
      }
    }

    /** operator--: step back once, then on back to the nearest match. It has no bound of
        its own, so an earlier match must exist. */
    method Prev()
      requires 0 <= cur <= |source| && exists k | 0 <= k < cur :: pred(source[k])
      modifies this
      ensures 0 <= cur < old(cur) && pred(source[cur])
      ensures forall k | cur < k < old(cur) :: !pred(source[k])
    {
      cur := cur - 1;
      while !pred(source[cur])
        invariant 0 <= cur < old(cur)
        invariant exists k | 0 <= k <= cur :: pred(source[k])
        invariant forall k | cur < k < old(cur) :: !pred(source[k])
        decreases cur
      {
        cur := cur - 1;
      }
    }
  }

  /** FilterView (filter_adapter.h:108-133), built by Filter and operator|
      (filter_adapter.h:140-155) over the range [beg, last) of its left operand. */
  class FilterView<T> {
    const source: seq<T>
    const pred: T -> bool
    const beg: int
    const last: int

    /** The constructor moves beg to the first match. */
    constructor (source: seq<T>, beg: int, last: int, pred: T -> bool)
      requires 0 <= beg <= last <= |source|
      ensures this.source == source && this.pred == pred && this.last == last
      ensures beg <= this.beg <= last && (this.beg == last || pred(source[this.beg]))
      ensures forall k | beg <= k < this.beg :: !pred(source[k])
    {
      var b := FirstMatch(source, pred, beg, last);
      this.source := source;
      this.pred := pred;
      this.beg := b;
      this.last := last;
    }

    /** begin() is the iterator at the first match. */
    method Begin() returns (it: FilterIterator<T>)
      ensures fresh(it) && it.source == source && it.pred == pred
      ensures it.cur == beg && it.last == last
    {
      it := new FilterIterator(source, pred, beg, last);
    }

    /** end() is the iterator at last. */
    method End() returns (it: FilterIterator<T>)
      ensures fresh(it) && it.source == source && it.pred == pred
      ensures it.cur == last && it.last == last
    {
      it := new FilterIterator(source, pred, last, last);
    }
  }

  /** operator== on iterators of one view: equality of positions, an equivalence, and
      an iterator equals end() exactly when it stands at last. */
  lemma IteratorEquality<T>(a: FilterIterator<T>, b: FilterIterator<T>, e: FilterIterator<T>)
    requires a.last == b.last && e.last == a.last && e.cur == e.last
    ensures a.Equal(a) && (a.Equal(b) <==> b.Equal(a))
    ensures a.Equal(b) <==> a.cur == b.cur
    ensures a.Equal(e) <==> a.cur == a.last
  {
  }

  /** A range-for over source[beg..last] | Filter(pred): from begin() to end() it yields
      exactly the matching elements, in order. */
  method Collect<T>(source: seq<T>, beg: int, last: int, pred: T -> bool) returns (out: seq<T>)
    requires 0 <= beg <= last <= |source|
    ensures out == Filtered(source[beg..last], pred)
  {
    var view := new FilterView(source, beg, last, pred);
    var it := view.Begin();
    var e := view.End();
    FilteredSkip(source, pred, beg, view.beg, last);
    out := [];
    while !it.Equal(e)
      invariant it != e && e.cur == last && e.last == last
      invariant it.source == source && it.pred == pred && it.last == last
      invariant view.beg <= it.cur <= last && (it.cur == last || pred(source[it.cur]))
      invariant out + Filtered(source[it.cur..last], pred) == Filtered(source[beg..last], pred)
      decreases last - it.cur
    {
      ghost var c := it.cur;
      ghost var rest := Filtered(source[c + 1..last], pred);
      FilteredMatch(source, pred, c, last);
      assert out + [source[c]] + rest == out + ([source[c]] + rest);
      out := out + [it.Get()];
      it.Next();
      FilteredSkip(source, pred, c + 1, it.cur, last);
    }
  }

  /** A traversal from end() back to begin() with operator--, as a reverse_iterator makes
      it: the matching elements, last first. */
  method CollectReverse<T>(source: seq<T>, beg: int, last: int, pred: T -> bool) returns (out: seq<T>)
    requires 0 <= beg <= last <= |source|
    ensures out == Reversed(Filtered(source[beg..last], pred))
  {
    var view := new FilterView(source, beg, last, pred);
    var b := view.Begin();
    var it := view.End();
    out := [];
    while !it.Equal(b)
      invariant it != b && b.cur == view.beg && b.last == last
      invariant it.source == source && it.pred == pred && it.last == last
      invariant view.beg <= it.cur <= last && (it.cur == last || pred(source[it.cur]))
      invariant out == Reversed(Filtered(source[it.cur..last], pred))
      decreases it.cur
    {
      ghost var c := it.cur;
      it.Prev();
      FilteredSkip(source, pred, it.cur + 1, c, last);
      FilteredMatch(source, pred, it.cur, last);
      ReversedCons(source[it.cur], Filtered(source[c..last], pred));
      out := out + [it.Get()];
    }
    FilteredSkip(source, pred, beg, view.beg, last);
  }
}
