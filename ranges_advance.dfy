/** utils.h: the three my_advance overloads. An iterator is its position, an index into
    the underlying sequence; a sentinel is a position too. What the overloads do depends
    on compile-time properties of the iterator and sentinel types, which the model takes
    as parameters: the iterator's category, whether the sentinel is sized (bound - it is
    defined) and whether it can be assigned to the iterator. */
module RangesAdvance {
  datatype Category = Forward | Bidirectional | RandomAccess

  function Abs(x: int): nat {
    if x < 0 then -x else x
  }

  function Min(a: int, b: int): int {
    if a <= b then a else b
  }

  function Max(a: int, b: int): int {
    if a <= b then b else a
  }

  /** Where my_advance(it, n) leaves it: n steps in either direction, except that a
      forward-only iterator cannot step back and stays where it is. */
  function Advanced(it: int, n: int, cat: Category): int {
    if cat == Forward && n < 0 then it else it + n
  }

  /** Where my_advance(it, n, bound) leaves it. With a sized sentinel it jumps to bound when
      bound is nearer than |n| steps, in whichever direction; otherwise it steps one at a
      time and stops early only on meeting bound. */
  function BoundedTarget(it: int, n: int, bound: int, sized: bool, cat: Category): int {
    if sized then
      if Abs(bound - it) < Abs(n) then bound else Advanced(it, n, cat)
    else if n > 0 then
      if it <= bound && bound - it < n then bound else it + n
    else if n < 0 && cat != Forward then
      if bound <= it && it - bound < -n then bound else it + n
    else
      it
  }

  /** my_advance(it, n) (utils.h:4-21): a random-access iterator moves by n at once; any
      other steps forward while n > 0 and, when bidirectional, back while n < 0. */
  method AdvanceBy(it: int, n: int, cat: Category) returns (r: int)
    ensures r == Advanced(it, n, cat)
  {
    r := it;
    if cat == RandomAccess {
      r := r + n;
    } else {
      var k := n;
      while k > 0
        invariant r - it == n - k && (n > 0 ==> k >= 0) && (n <= 0 ==> k == n)
      {
        k := k - 1;
        r := r + 1;
      }
      if cat == Bidirectional {
        while k < 0
          invariant r - it == n - k && k <= 0
        {
          k := k + 1;
          r := r - 1;
        }
      }
    }
  }

  /** my_advance(it, bound) (utils.h:23-36): assigns bound when the sentinel is of the
      iterator's own type, moves by bound - it when the sentinel is sized, and otherwise
      steps forward until it meets bound, which must then lie ahead. */
  method AdvanceTo(it: int, bound: int, assignable: bool, sized: bool, cat: Category) returns (r: int)
    requires !assignable && !(sized && cat != Forward) ==> it <= bound
    ensures r == bound
  {
    if assignable {
      r := bound;
    } else if sized {
      r := AdvanceBy(it, bound - it, cat);
    } else {
      r := it;
      while r != bound
        invariant it <= r <= bound
        decreases bound - r
      {
        r := r + 1;
      }
    }
  }

  /** my_advance(it, n, bound) (utils.h:38-59). */
  method AdvanceBounded(it: int, n: int, bound: int, assignable: bool, sized: bool, cat: Category) returns (r: int)
    requires sized && !assignable && cat == Forward ==> it <= bound
    ensures r == BoundedTarget(it, n, bound, sized, cat)
  {
    if sized {
      var dist := Abs(bound - it) - Abs(n);
      if dist < 0 {
        r := AdvanceTo(it, bound, assignable, sized, cat);
        return;
      }
      r := AdvanceBy(it, n, cat);
    } else {
      r := it;
      var k := n;
      while k > 0 && r != bound
        invariant r - it == n - k && (n > 0 ==> 0 <= k) && (n <= 0 ==> k == n)
        invariant n > 0 && it <= bound ==> r <= bound
        invariant n > 0 && it > bound ==> r > bound
      {
        k := k - 1;
        r := r + 1;
      }
      if cat == Bidirectional || cat == RandomAccess {
        ghost var ahead := r;
        while k < 0 && r != bound
          invariant r - it == n - k && (n > 0 ==> 0 <= k) && (n <= 0 ==> n <= k <= 0)
          invariant n >= 0 ==> r == ahead
          invariant n < 0 && bound <= it ==> bound <= r
          invariant n < 0 && bound > it ==> bound > r
        {
          k := k + 1;
          r := r - 1;
        }
      }
    }
  }

  /** When n >= 0 and bound lies ahead, both ways of bounded advancing end at
      min(it + n, bound). */
  lemma BoundedForward(it: int, n: int, bound: int, sized: bool, cat: Category)
    requires n >= 0 && it <= bound
    ensures BoundedTarget(it, n, bound, sized, cat) == Min(it + n, bound)
  {
  }

  /** When n <= 0 and bound lies behind a bidirectional iterator, both ways end at
      max(it + n, bound). */
  lemma BoundedBackward(it: int, n: int, bound: int, sized: bool, cat: Category)
    requires n <= 0 && bound <= it && cat != Forward
    ensures BoundedTarget(it, n, bound, sized, cat) == Max(it + n, bound)
  {
  }

  /** Advancing by zero, bounded or not, leaves the iterator where it is. */
  lemma AdvanceZero(it: int, bound: int, sized: bool, cat: Category)
    ensures Advanced(it, 0, cat) == it && BoundedTarget(it, 0, bound, sized, cat) == it
  {
  }
}
