/** take_adapter.h: a view of at most n leading elements of [beg, last). Its iterators are
    the underlying ones; only the end moves. */
module RangesTake {
  import opened RangesAdvance

  /** Where the constructor puts the view's end (take_adapter.h:9-22): a random-access
      range cuts last back to beg + n when it is longer; any other steps from beg until
      n steps are taken or last is met. */
  method TakeLast(beg: int, last: int, n: nat, cat: Category) returns (newLast: int)
    requires beg <= last
    ensures newLast == beg + Min(n, last - beg)
  {
    if cat == RandomAccess {
      newLast := last;
      if last - beg > n {
        newLast := beg + n;
      }
    } else {
      var k := n;
      newLast := beg;
      while k > 0 && newLast != last
        invariant beg <= newLast <= last && newLast - beg + k == n
        decreases k
      {
        k := k - 1;
        newLast := newLast + 1;
      }
    }
  }

  /** TakeView (take_adapter.h:6-34): begin() and end() hand out beg and last. */
  class TakeView {
    const beg: int
    const last: int

    constructor (beg: int, last: int, n: nat, cat: Category)
      requires beg <= last
      ensures this.beg == beg && this.last == beg + Min(n, last - beg)
    {
      var l := TakeLast(beg, last, n, cat);
      this.beg := beg;
      this.last := l;
    }
  }

  /** operator| with Take(n) (take_adapter.h:36-45) over the range [beg, last) of a
      sequence: the view yields its first min(n, last - beg) elements, none of an empty
      range, and the whole range when n is at least its length. */
  method TakeOf<T>(ghost source: seq<T>, beg: int, last: int, n: nat, cat: Category) returns (v: TakeView)
    requires 0 <= beg <= last <= |source|
    ensures fresh(v) && v.beg == beg && beg <= v.last <= last
    ensures source[v.beg..v.last] == source[beg..last][..Min(n, last - beg)]
    ensures n >= last - beg ==> v.last == last
  {
    v := new TakeView(beg, last, n, cat);
  }
}
