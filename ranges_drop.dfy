/** drop_adapter.h: a view of [beg, last) without its first shift elements. Its iterators
    are the underlying ones; only the beginning moves. */
module RangesDrop {
  import opened RangesAdvance

  /** Where operator| puts the view's beginning (drop_adapter.h:36-37): my_advance with
      the range's end as the bound, which for iterators of one type is assignable and, for
      random-access ones, sized. However the iterator steps, it lands on
      min(beg + shift, last). */
  method DropBegin(beg: int, last: int, shift: nat, cat: Category) returns (b: int)
    requires beg <= last
    ensures b == Min(beg + shift, last)
  {
    b := AdvanceBounded(beg, shift, last, true, cat == RandomAccess, cat);
    BoundedForward(beg, shift, last, cat == RandomAccess, cat);
  }

  /** DropView (drop_adapter.h:8-26): begin() and end() hand out beg and last. */
  class DropView {
    const beg: int
    const last: int

    constructor (beg: int, last: int)
      ensures this.beg == beg && this.last == last
    {
      this.beg := beg;
      this.last := last;
    }
  }

  /** operator| with Drop(shift) (drop_adapter.h:34-39) over the range [beg, last) of a
      sequence: the view yields what follows the first shift elements, and nothing once
      shift reaches the range's length. */
  method DropOf<T>(ghost source: seq<T>, beg: int, last: int, shift: nat, cat: Category) returns (v: DropView)
    requires 0 <= beg <= last <= |source|
    ensures fresh(v) && beg <= v.beg <= v.last == last
    ensures source[v.beg..v.last] == source[beg..last][Min(shift, last - beg)..]
    ensures shift >= last - beg ==> v.beg == v.last
  {
    var b := DropBegin(beg, last, shift, cat);
    v := new DropView(b, last);
  }
}
