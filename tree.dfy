/** The ordered binary tree of tree.h: an arena of nodes with left, right and
    parent slots, a sentinel node END whose slots double as caches, and the
    per-walk-order iterators.

    Node handles stand for the node pointers: END for `&end_node_`, NIL for
    `nullptr`, and fresh positive handles for allocated nodes. The ghost field
    `shape` is the abstract tree the slots encode. */
module BinTree {
  import opened TreeShape
  import opened TreeGraph
  import opened TreeOrder
  import opened TreeArena
  import TreeSteps
  import TreeErase
  import TreeClear
  import TreeCopy

  class BinaryTree<T(!new)> {
    /** The WalkType template argument and the comparator. */
    const walk: WalkType
    const less: (T, T) -> bool

    var left: map<int, int>
    var right: map<int, int>
    var parent: map<int, int>
    var value: map<int, T>
    var size: nat
    /** The next handle the allocator hands out. */
    var nextId: int
    ghost var shape: Shape

    function G(): Graph
      reads this
    {
      Graph(left, right, parent)
    }

    ghost function Synth(): int
      reads this
    {
      SynthOf(G(), walk)
    }

    /** get_root() (tree.h:305-319): the sentinel slot that holds the root, END in an empty tree. */
    function Root(): (r: int)
      reads this
      requires Valid()
      ensures r == (if shape.Empty? then END else shape.id)
      ensures shape.Node? ==> r in Ids(shape) && r != END && r != NIL
    {
      DistinctPositive(shape);
      RootOf(G(), walk)
    }

    /** The stored values in-order: the contents of the set. */
    ghost function Elements(): seq<T>
      reads this
      requires Ids(shape) <= value.Keys
    {
      KeysOf(shape, value)
    }

    ghost predicate Structure()
      reads this
    {
      Wf(shape, G(), value, nextId, size, walk, less)
    }

    ghost predicate Valid()
      reads this
    {
      ValidOf(shape, G(), value, nextId, size, walk, less)
    }

    /** The sequence an iterator runs through from begin() to end(). */
    ghost function Cursor(): seq<int>
      reads this
    {
      TreeSteps.Cursor(shape, walk)
    }

    /** The values an iteration from begin() to end() yields, in walk order. */
    ghost function Walked(): seq<T>
      reads this
      requires Valid()
    {
      WalkValues(shape, walk, value)
    }

    /** An empty tree: every sentinel slot points at the sentinel (tree.h:51-56). */
    constructor (walk: WalkType, less: (T, T) -> bool)
      requires StrictWeakOrder(less)
      ensures Valid() && this.walk == walk && this.less == less
      ensures shape == Empty && Elements() == [] && size == 0 && value == map[] && nextId == 1
      ensures left[END] == END && right[END] == END && parent[END] == END
    {
      this.walk := walk;
      this.less := less;
      left, right, parent := map[END := END], map[END := END], map[END := END];
      value := map[];
      size := 0;
      nextId := 1;
      shape := Empty;
    }

    function Size(): (r: nat)
      reads this
      requires Valid()
      ensures r == |Elements()| && r == |Walk(shape, walk)|
    {
      WalkElems(shape, walk);
      WalkElems(shape, InOrder);
      size
    }

    function IsEmpty(): (r: bool)
      reads this
      requires Valid()
      ensures r <==> Elements() == []
    {
      WalkElems(shape, InOrder);
      size == 0
    }

    /** begin(): the cache slot that holds the first element of the walk (tree.h:103-109). */
    function Begin(): (b: int)
      reads this
      requires Valid()
      ensures b == Cursor()[0]
      ensures shape.Empty? <==> b == END
      ensures shape.Node? ==> b in Ids(shape) && b == Walk(shape, walk)[0]
    {
      if size != 0 then FirstLast(shape, walk); DescentsInIds(shape); DistinctPositive(shape);
        (if walk == InOrder then right[END] else left[END])
      else (if walk == InOrder then right[END] else left[END])
    }

    function End(): (e: int)
      reads this
      requires Valid()
      ensures e == Cursor()[|Cursor()| - 1]
    {
      END
    }

    /** operator*: the value a real node holds. */
    function Deref(x: int): (v: T)
      reads this
      requires Valid() && x in Ids(shape)
      ensures v == value[x] && v in Elements()
    {
      KeysOfHas(shape, value, x);
      value[x]
    }

    // ---- find (tree.h:339-352) ----

    function FindFrom(v: T, cur: int, ghost sub: Shape, ghost p: int): (r: int)
      reads this
      requires Structure() && Ids(sub) <= Ids(shape) && Distinct(sub)
      requires Linked(sub, p, G(), Synth())
      requires Ascending(KeysOf(sub, value), less)
      requires cur == Link(sub) || (sub.Empty? && cur == END)
      ensures r == END <==> !Holds(KeysOf(sub, value), v, less)
      ensures r != END ==> r in Ids(sub) && Equiv(less, value[r], v)
      decreases sub
    {
      if cur == NIL || cur == END then END
      else
        KeysOfNode(sub.left, sub.id, sub.right, value);
        AscendingParts(KeysOf(sub.left, value), value[cur], KeysOf(sub.right, value), less);
        if less(v, value[cur]) then
          HoldsLeft(KeysOf(sub.left, value), value[cur], KeysOf(sub.right, value), v, less);
          FindFrom(v, left[cur], sub.left, cur)
        else if less(value[cur], v) then
          HoldsRight(KeysOf(sub.left, value), value[cur], KeysOf(sub.right, value), v, less);
          FindFrom(v, right[cur], sub.right, cur)
        else
          assert (KeysOf(sub.left, value) + [value[cur]] + KeysOf(sub.right, value))[|KeysOf(sub.left, value)|] == value[cur];
          cur
    }

    /** find(value) (tree.h:170-172): END on a miss, a node holding an equivalent value on a hit. */
    function Find(v: T): (r: int)
      reads this
      requires Valid()
      ensures r == END <==> !Holds(Elements(), v, less)
      ensures r != END ==> r in Ids(shape) && Equiv(less, value[r], v)
    {
      FindFrom(v, Root(), shape, END)
    }

    /** The mutable state besides the shape. */
    function A(): Arena<T>
      reads this
    {
      Arena(G(), value, size, nextId)
    }

    /** Stores a new valid state. */
    method Install(ghost t: Shape, a: Arena<T>)
      requires ArenaValid(t, a, walk, less)
      modifies this
      ensures shape == t && G() == a.g && value == a.value && size == a.size && nextId == a.next
      ensures Valid()
    {
      left, right, parent, value, size, nextId, shape := a.g.left, a.g.right, a.g.parent, a.value, a.size, a.next, t;
    }

    /** insert(value) (tree.h:152-168). */
    method Insert(v: T) returns (it: int, inserted: bool)
      requires Valid()
      modifies this
      ensures Valid()
      ensures inserted <==> !old(Holds(Elements(), v, less))
      ensures Elements() == SortedInsert(old(Elements()), v, less)
      ensures shape == BstInsert(old(shape), old(value), v, old(nextId), less)
      ensures size == old(size) + (if inserted then 1 else 0)
      ensures it in Ids(shape) && Equiv(less, value[it], v)
      ensures forall y | y in old(value) :: y in value && value[y] == old(value)[y]
      ensures inserted ==> it == old(nextId) && value == old(value)[it := v] && nextId == old(nextId) + 1
      ensures !inserted ==> shape == old(shape) && value == old(value) && nextId == old(nextId) && G() == old(G())
      ensures inserted <==> old(nextId) in Ids(shape)
    {
      var a: Arena<T>;
      ghost var t: Shape;
      ghost var a0 := A();
      a, t, it, inserted := InsertTree(A(), walk, less, v, shape);
      Install(t, a);
      if !inserted {
        assert a == a0 && G() == a0.g;
      }
    }
  
    /** operator++ on an iterator at position k of the walk (tree.h:594-747). */
    method Increment(x: int, ghost k: nat) returns (y: int)
      requires Valid() && k < |Walk(shape, walk)| && Walk(shape, walk)[k] == x
      ensures y == Cursor()[k + 1]
    {
      y := TreeSteps.Next(G(), walk, shape, x, k);
    }

    /** operator-- on an iterator at position k of the cursor, end() included. */
    method Decrement(x: int, ghost k: nat) returns (y: int)
      requires Valid() && 0 < k < |Cursor()| && Cursor()[k] == x
      ensures y == Cursor()[k - 1]
    {
      y := TreeSteps.Prev(G(), walk, shape, x, k);
    }

    /** erase(iterator) (tree.h:184-198): the successor taken before the cut comes back. */
    method Erase(x: int, ghost k: nat) returns (it: int)
      requires Valid() && k < |Walk(shape, walk)| && Walk(shape, walk)[k] == x && x in Ids(shape)
      modifies this
      ensures Valid() && shape == CutAt(old(shape), x)
      ensures it == old(Cursor())[k + 1]
      ensures size == old(size) - 1
      ensures Elements() == SortedRemove(old(Elements()), old(value[x]), less)
      ensures Ids(shape) == old(Ids(shape)) - {x} && value == old(value) - {x}
    {
      ghost var t, K := shape, Elements();
      var a: Arena<T>;
      ghost var t': Shape, j: nat;
      a, t', it, j := TreeErase.EraseAt(A(), walk, less, x, shape, k);
      SortedRemoveAt(K, value[x], less, j);
      CutAtIds(t, x);
      Install(t', a);
    }

    /** erase(value) (tree.h:174-182): 0 on a miss, else the equivalent value goes. */
    method EraseValue(v: T) returns (r: nat)
      requires Valid()
      modifies this
      ensures Valid()
      ensures r == 0 <==> !old(Holds(Elements(), v, less))
      ensures r <= 1 && size == old(size) - r
      ensures Elements() == SortedRemove(old(Elements()), v, less)
      ensures !Holds(Elements(), v, less)
    {
      var node := Find(v);
      if node == END {
        SortedRemoveMissing(Elements(), v, less);
        return 0;
      }
      WalkElems(shape, walk);
      assert node in Walk(shape, walk);
      ghost var k :| 0 <= k < |Walk(shape, walk)| && Walk(shape, walk)[k] == node;
      WalkIds(shape, walk);
      ghost var K, u := Elements(), value[node];
      KeysOfHas(shape, value, node);
      ghost var j :| 0 <= j < |K| && K[j] == u;
      var _ := Erase(node, k);
      EraseFacts(K, u, v, j, less);
      r := 1;
    }

    /** Removing the value at j, equivalent to v, leaves nothing equivalent to v. */
    static lemma EraseFacts(K: seq<T>, u: T, v: T, j: nat, less: (T, T) -> bool)
      requires StrictWeakOrder(less) && Ascending(K, less) && j < |K| && K[j] == u && Equiv(less, u, v)
      ensures SortedRemove(K, u, less) == SortedRemove(K, v, less)
      ensures !Holds(SortedRemove(K, v, less), v, less)
    {
      SortedRemoveAt(K, u, less, j);
      SortedRemoveAt(K, v, less, j);
      HoldsAfterRemove(K, v, less, j, v);
    }
  
    /** erase(begin()): the first element of the walk goes; j is its in-order rank. */
    method EraseBegin(b: int) returns (ghost j: nat)
      requires Valid() && size != 0 && b == Begin()
      modifies this
      ensures Valid() && size == old(size) - 1
      ensures j < |old(Elements())| && old(Elements())[j] == old(value[b])
      ensures Elements() == SortedRemove(old(Elements()), old(value[b]), less)
    {
      KeysOfHas(shape, value, b);
      ghost var K := Elements();
      j :| 0 <= j < |K| && K[j] == value[b];
      var _ := Erase(b, 0);
    }

    /** merge(other) (tree.h:200-206), as intended: each element of `other` is inserted
        here and erased from `other` until `other` is empty. */
    method Merge(other: BinaryTree<T>)
      requires Valid() && other.Valid() && other != this && other.less == less
      modifies this, other
      ensures Valid() && other.Valid() && other.Elements() == [] && other.size == 0
      ensures forall u :: Holds(Elements(), u, less) <==> old(Holds(Elements(), u, less)) || old(Holds(other.Elements(), u, less))
    {
      ghost var e0, o0 := Elements(), other.Elements();
      while other.size != 0
        invariant Valid() && other.Valid()
        invariant forall u :: Holds(Elements(), u, less) || Holds(other.Elements(), u, less) <==> Holds(e0, u, less) || Holds(o0, u, less)
        decreases other.size
      {
        var b := other.Begin();
        ghost var e, o := Elements(), other.Elements();
        var v := other.Deref(b);
        var _, _ := Insert(v);
        ghost var j := other.EraseBegin(b);
        forall u ensures Holds(Elements(), u, less) || Holds(other.Elements(), u, less) <==> Holds(e, u, less) || Holds(o, u, less) {
          MergeStep(e, o, j, less, u);
        }
      }
      WalkElems(other.shape, InOrder);
    }

    /** merge(*this) (tree.h:200-206 with other the tree itself), with the loop of Merge
        that always erases begin(): every insert finds its value already stored and
        changes nothing, and every erase removes a node, so the tree ends empty. As
        written, the loop can leave a node behind here just as in Merge. */
    method MergeSelf()
      requires Valid()
      modifies this
      ensures Valid() && Elements() == [] && size == 0 && shape == Empty
    {
      while size != 0
        invariant Valid()
        decreases size
      {
        var b := Begin();
        var v := Deref(b);
        HoldsOwn(b);
        var _, inserted := Insert(v);
        assert !inserted;
        var _ := EraseBegin(b);
      }
      WalkElems(shape, InOrder);
    }

    /** A stored value is held. */
    lemma HoldsOwn(x: int)
      requires Valid() && x in Ids(shape)
      ensures Holds(Elements(), value[x], less)
    {
      KeysOfHas(shape, value, x);
      ghost var j :| 0 <= j < |Elements()| && Elements()[j] == value[x];
    }
  
    /** clear() (tree.h:236-243): all nodes are released and the sentinel points at itself again. */
    method Clear()
      requires Valid()
      modifies this
      ensures Valid() && shape == Empty && Elements() == [] && size == 0 && value == map[]
      ensures left == map[END := END] && right == map[END := END] && parent == map[END := END]
      ensures nextId == old(nextId) && Begin() == End()
    {
      var a := TreeClear.ClearArena(A(), walk, less, shape);
      Install(Empty, a);
    }

    /** The copy constructor (tree.h:61-65): the same shape and values, so the same walk. */
    constructor Copy(other: BinaryTree<T>)
      requires other.Valid()
      ensures Valid() && walk == other.walk && less == other.less
      ensures shape == other.shape && value == other.value && size == other.size
      ensures Walked() == other.Walked()
    {
      var a := TreeCopy.CopyArena(other.A(), other.walk, other.less, other.shape);
      walk, less := other.walk, other.less;
      left, right, parent, value, size, nextId, shape := a.g.left, a.g.right, a.g.parent, a.value, a.size, a.next, other.shape;
    }
  }

  /** The value sequence after inserting each of vs in turn into s. */
  function InsertAll<T>(s: seq<T>, vs: seq<T>, less: (T, T) -> bool): seq<T>
    decreases |vs|
  {
    if |vs| == 0 then s else InsertAll(SortedInsert(s, vs[0], less), vs[1..], less)
  }

  /** The range and initializer-list constructors (tree.h:72-96): an empty tree, then
      every value inserted in turn, so that equivalent repeats are stored once. */
  method Build<T(!new)>(walk: WalkType, less: (T, T) -> bool, vs: seq<T>) returns (t: BinaryTree<T>)
    requires StrictWeakOrder(less)
    ensures fresh(t) && t.Valid() && t.walk == walk && t.less == less
    ensures t.Elements() == InsertAll([], vs, less)
    ensures (t.shape, t.value, t.nextId) == BuildFrom(Empty, map[], 1, vs, less)
  {
    t := new BinaryTree(walk, less);
    var i := 0;
    while i < |vs|
      invariant 0 <= i <= |vs| && fresh(t) && t.Valid() && t.walk == walk && t.less == less
      invariant InsertAll(t.Elements(), vs[i..], less) == InsertAll([], vs, less)
      invariant BuildFrom(t.shape, t.value, t.nextId, vs[i..], less) == BuildFrom(Empty, map[], 1, vs, less)
    {
      assert vs[i..][1..] == vs[i + 1..];
      var _, _ := t.Insert(vs[i]);
      i := i + 1;
    }
  }

  /** The shape, values and next handle after inserting each of vs in turn, as insert
      does it: the search of BstInsert either hangs a leaf with the fresh handle, which
      then holds the value, or finds an equivalent value and changes nothing. */
  ghost function BuildFrom<T>(t: Shape, vm: map<int, T>, next: int, vs: seq<T>, less: (T, T) -> bool): (r: (Shape, map<int, T>, int))
    requires Ids(t) <= vm.Keys
    ensures Ids(r.0) <= r.1.Keys && r.2 >= next
    decreases |vs|
  {
    if |vs| == 0 then (t, vm, next)
    else
      var t' := BstInsert(t, vm, vs[0], next, less);
      BstInsertWithin(t, vm, vs[0], next, less);
      if next in Ids(t') then BuildFrom(t', vm[next := vs[0]], next + 1, vs[1..], less)
      else BuildFrom(t', vm, next, vs[1..], less)
  }

  function IntLess(a: int, b: int): bool {
    a < b
  }

  /** A value above every stored one goes at the end. */
  lemma AppendLargest<T>(s: seq<T>, v: T, less: (T, T) -> bool)
    requires forall i | 0 <= i < |s| :: less(s[i], v) && !less(v, s[i])
    ensures SortedInsert(s, v, less) == s + [v]
  {
    SortedInsertSkip(s, [], v, less);
    assert s + [] == s;
  }

  /** The first insertions of the example below, one at a time. */
  lemma ExampleInsertsFirst()
    ensures SortedInsert([], 5, IntLess) == [5]
    ensures SortedInsert([5], 1, IntLess) == [1, 5]
    ensures SortedInsert([1, 5], 9, IntLess) == [1, 5, 9]
    ensures SortedInsert([1, 5, 9], 10, IntLess) == [1, 5, 9, 10]
  {
    AppendLargest([1, 5], 9, IntLess);
    AppendLargest([1, 5, 9], 10, IntLess);
  }

  /** The last insertions of the example below; the second 9 changes nothing. */
  lemma ExampleInsertsLast()
    ensures SortedInsert([1, 5, 9, 10], -1, IntLess) == [-1, 1, 5, 9, 10]
    ensures SortedInsert([-1, 1, 5, 9, 10], 15, IntLess) == [-1, 1, 5, 9, 10, 15]
    ensures SortedInsert([-1, 1, 5, 9, 10, 15], 9, IntLess) == [-1, 1, 5, 9, 10, 15]
    ensures SortedInsert([-1, 1, 5, 9, 10, 15], 33, IntLess) == [-1, 1, 5, 9, 10, 15, 33]
  {
    AppendLargest([-1, 1, 5, 9, 10], 15, IntLess);
    SortedInsertSkip([-1, 1, 5], [9, 10, 15], 9, IntLess);
    assert [-1, 1, 5] + [9, 10, 15] == [-1, 1, 5, 9, 10, 15];
    AppendLargest([-1, 1, 5, 9, 10, 15], 33, IntLess);
  }

  /** Building from {5, 1, 9, 10, -1, 15, 9, 33} under < stores seven values, in order,
      the repeated 9 once (tree_ut.cpp:18-26). */
  lemma BuildExample()
    ensures InsertAll([], [5, 1, 9, 10, -1, 15, 9, 33], IntLess) == [-1, 1, 5, 9, 10, 15, 33]
  {
    ExampleInsertsFirst();
    ExampleInsertsLast();
    var r := [-1, 1, 5, 9, 10, 15, 33];
    assert InsertAll(r, [], IntLess) == r;
    assert InsertAll([-1, 1, 5, 9, 10, 15], [33], IntLess) == r by { assert [33][1..] == []; }
    assert InsertAll([-1, 1, 5, 9, 10, 15], [9, 33], IntLess) == r by { assert [9, 33][1..] == [33]; }
    assert InsertAll([-1, 1, 5, 9, 10], [15, 9, 33], IntLess) == r by { assert [15, 9, 33][1..] == [9, 33]; }
    assert InsertAll([1, 5, 9, 10], [-1, 15, 9, 33], IntLess) == r by { assert [-1, 15, 9, 33][1..] == [15, 9, 33]; }
    assert InsertAll([1, 5, 9], [10, -1, 15, 9, 33], IntLess) == r by { assert [10, -1, 15, 9, 33][1..] == [-1, 15, 9, 33]; }
    assert InsertAll([1, 5], [9, 10, -1, 15, 9, 33], IntLess) == r by { assert [9, 10, -1, 15, 9, 33][1..] == [10, -1, 15, 9, 33]; }
    assert InsertAll([5], [1, 9, 10, -1, 15, 9, 33], IntLess) == r by { assert [1, 9, 10, -1, 15, 9, 33][1..] == [9, 10, -1, 15, 9, 33]; }
    assert [5, 1, 9, 10, -1, 15, 9, 33][1..] == [1, 9, 10, -1, 15, 9, 33];
  }

  /** One step of BuildFrom that hangs the fresh handle. */
  lemma BuildHangs<T>(t: Shape, vm: map<int, T>, next: int, vs: seq<T>, less: (T, T) -> bool, t': Shape)
    requires Ids(t) <= vm.Keys && |vs| > 0
    requires t' == BstInsert(t, vm, vs[0], next, less) && next in Ids(t')
    ensures Ids(t') <= vm[next := vs[0]].Keys
    ensures BuildFrom(t, vm, next, vs, less) == BuildFrom(t', vm[next := vs[0]], next + 1, vs[1..], less)
  {
    BstInsertWithin(t, vm, vs[0], next, less);
  }

  /** The tree of the range-for tests (tree_ut.cpp:28-46), built from {5, 3, 1, 4, 7, 10, 6}:
      handle k holds the k-th value inserted. */
  function ExampleShape(): Shape {
    Node(Node(Node(Empty, 3, Empty), 2, Node(Empty, 4, Empty)), 1,
         Node(Node(Empty, 7, Empty), 5, Node(Empty, 6, Empty)))
  }

  function ExampleValues(): map<int, int> {
    map[1 := 5, 2 := 3, 3 := 1, 4 := 4, 5 := 7, 6 := 10, 7 := 6]
  }

  /** The first four insertions: 5 at the root, 3 below it, then 1 and 4 below 3. */
  lemma ExampleFirstHalf()
    ensures BuildFrom(Empty, map[], 1, [5, 3, 1, 4, 7, 10, 6], IntLess) ==
            BuildFrom(Node(Node(Node(Empty, 3, Empty), 2, Node(Empty, 4, Empty)), 1, Empty),
                      map[1 := 5, 2 := 3, 3 := 1, 4 := 4], 5, [7, 10, 6], IntLess)
  {
    var l3 := Node(Node(Empty, 3, Empty), 2, Empty);
    var l4 := Node(Node(Empty, 3, Empty), 2, Node(Empty, 4, Empty));
    BuildHangs(Empty, map[], 1, [5, 3, 1, 4, 7, 10, 6], IntLess, Node(Empty, 1, Empty));
    BuildHangs(Node(Empty, 1, Empty), map[1 := 5], 2, [3, 1, 4, 7, 10, 6], IntLess, Node(Node(Empty, 2, Empty), 1, Empty));
    BuildHangs(Node(Node(Empty, 2, Empty), 1, Empty), map[1 := 5, 2 := 3], 3, [1, 4, 7, 10, 6], IntLess, Node(l3, 1, Empty));
    BuildHangs(Node(l3, 1, Empty), map[1 := 5, 2 := 3, 3 := 1], 4, [4, 7, 10, 6], IntLess, Node(l4, 1, Empty));
    assert map[][1 := 5] == map[1 := 5];
    assert map[1 := 5][2 := 3] == map[1 := 5, 2 := 3];
    assert map[1 := 5, 2 := 3][3 := 1] == map[1 := 5, 2 := 3, 3 := 1];
    assert map[1 := 5, 2 := 3, 3 := 1][4 := 4] == map[1 := 5, 2 := 3, 3 := 1, 4 := 4];
    assert [5, 3, 1, 4, 7, 10, 6][1..] == [3, 1, 4, 7, 10, 6];
    assert [3, 1, 4, 7, 10, 6][1..] == [1, 4, 7, 10, 6];
    assert [1, 4, 7, 10, 6][1..] == [4, 7, 10, 6];
    assert [4, 7, 10, 6][1..] == [7, 10, 6];
  }

  /** The last three: 7 right of the root, 10 right of 7, then 6 left of 7. */
  lemma ExampleSecondHalf()
    ensures BuildFrom(Node(Node(Node(Empty, 3, Empty), 2, Node(Empty, 4, Empty)), 1, Empty),
                      map[1 := 5, 2 := 3, 3 := 1, 4 := 4], 5, [7, 10, 6], IntLess) ==
            (ExampleShape(), ExampleValues(), 8)
  {
    var l4 := Node(Node(Empty, 3, Empty), 2, Node(Empty, 4, Empty));
    var m4 := map[1 := 5, 2 := 3, 3 := 1, 4 := 4];
    var m5 := m4[5 := 7];
    var m6 := m5[6 := 10];
    BuildHangs(Node(l4, 1, Empty), m4, 5, [7, 10, 6], IntLess, Node(l4, 1, Node(Empty, 5, Empty)));
    assert BstInsert(Node(Empty, 5, Empty), m5, 10, 6, IntLess) == Node(Empty, 5, Node(Empty, 6, Empty));
    BuildHangs(Node(l4, 1, Node(Empty, 5, Empty)), m5, 6, [10, 6], IntLess, Node(l4, 1, Node(Empty, 5, Node(Empty, 6, Empty))));
    assert BstInsert(Node(Empty, 5, Node(Empty, 6, Empty)), m6, 6, 7, IntLess) == ExampleShape().right;
    BuildHangs(Node(l4, 1, Node(Empty, 5, Node(Empty, 6, Empty))), m6, 7, [6], IntLess, ExampleShape());
    assert m6[7 := 6] == ExampleValues();
    assert [7, 10, 6][1..] == [10, 6];
    assert [10, 6][1..] == [6];
    assert [6][1..] == [];
  }

  /** The walks of the test tree: pre-order gives 5, 3, 1, 4, 7, 6, 10 and post-order
      1, 4, 3, 6, 10, 7, 5 (tree_ut.cpp:28-46), in-order the sorted values. */
  lemma ExampleWalks()
    ensures BuildFrom(Empty, map[], 1, [5, 3, 1, 4, 7, 10, 6], IntLess) == (ExampleShape(), ExampleValues(), 8)
    ensures WalkValues(ExampleShape(), PreOrder, ExampleValues()) == [5, 3, 1, 4, 7, 6, 10]
    ensures WalkValues(ExampleShape(), PostOrder, ExampleValues()) == [1, 4, 3, 6, 10, 7, 5]
    ensures WalkValues(ExampleShape(), InOrder, ExampleValues()) == [1, 3, 4, 5, 6, 7, 10]
  {
    ExampleFirstHalf();
    ExampleSecondHalf();
    ExamplePreorder();
    ExamplePostorder();
    ExampleInorder();
  }

  lemma ExamplePreorder()
    ensures WalkValues(ExampleShape(), PreOrder, ExampleValues()) == [5, 3, 1, 4, 7, 6, 10]
  {
    var t := ExampleShape();
    assert Preorder(t.left) == [2, 3, 4] by {
      assert Preorder(t.left.left) == [3] && Preorder(t.left.right) == [4];
    }
    assert Preorder(t.right) == [5, 7, 6] by {
      assert Preorder(t.right.left) == [7] && Preorder(t.right.right) == [6];
    }
    assert Walk(t, PreOrder) == [1] + [2, 3, 4] + [5, 7, 6];
    ProjectExample([1, 2, 3, 4, 5, 7, 6]);
  }

  lemma ExamplePostorder()
    ensures WalkValues(ExampleShape(), PostOrder, ExampleValues()) == [1, 4, 3, 6, 10, 7, 5]
  {
    var t := ExampleShape();
    assert Postorder(t.left) == [3, 4, 2] by {
      assert Postorder(t.left.left) == [3] && Postorder(t.left.right) == [4];
    }
    assert Postorder(t.right) == [7, 6, 5] by {
      assert Postorder(t.right.left) == [7] && Postorder(t.right.right) == [6];
    }
    assert Walk(t, PostOrder) == [3, 4, 2] + [7, 6, 5] + [1];
    ProjectExample([3, 4, 2, 7, 6, 5, 1]);
  }

  lemma ExampleInorder()
    ensures WalkValues(ExampleShape(), InOrder, ExampleValues()) == [1, 3, 4, 5, 6, 7, 10]
  {
    var t := ExampleShape();
    assert Inorder(t.left) == [3, 2, 4] by {
      assert Inorder(t.left.left) == [3] && Inorder(t.left.right) == [4];
    }
    assert Inorder(t.right) == [7, 5, 6] by {
      assert Inorder(t.right.left) == [7] && Inorder(t.right.right) == [6];
    }
    assert Walk(t, InOrder) == [3, 2, 4] + [1] + [7, 5, 6];
    ProjectExample([3, 2, 4, 1, 7, 5, 6]);
  }

  /** Reading a walk of the test tree through its values, position by position. */
  lemma ProjectExample(ws: seq<int>)
    requires |ws| == 7 && forall i | 0 <= i < 7 :: ws[i] in ExampleValues()
    ensures Project(ws, ExampleValues()) ==
            [ExampleValues()[ws[0]], ExampleValues()[ws[1]], ExampleValues()[ws[2]], ExampleValues()[ws[3]],
             ExampleValues()[ws[4]], ExampleValues()[ws[5]], ExampleValues()[ws[6]]]
  {
  }

  /** The values visited along the walk of t. */
  ghost function WalkValues<T>(t: Shape, w: WalkType, vm: map<int, T>): seq<T>
    requires Ids(t) <= vm.Keys
  {
    WalkIds(t, w);
    Project(Walk(t, w), vm)
  }

  /** Equal prefixes grow by one position exactly when the next entries agree. */
  lemma PrefixStep<T>(a: seq<T>, b: seq<T>, k: nat)
    requires k < |a| && k < |b| && a[..k] == b[..k]
    ensures a[..k + 1] == b[..k + 1] <==> a[k] == b[k]
    ensures a[k] != b[k] ==> a != b
  {
    assert a[..k + 1] == a[..k] + [a[k]];
    assert b[..k + 1] == b[..k] + [b[k]];
  }

  lemma PrefixAll<T>(a: seq<T>, b: seq<T>, k: nat)
    requires k == |a| == |b| && a[..k] == b[..k]
    ensures a == b
  {
    assert a == a[..k] && b == b[..k];
  }

  /** std::equal over two walks of the same length (tree.h:145): both iterators step
      together until the first one reaches end(). */
  method EqualWalks<T(==)>(ga: Graph, va: map<int, T>, ghost ta: Shape, wa: WalkType, ia: int,
                           gb: Graph, vb: map<int, T>, ghost tb: Shape, wb: WalkType, ib: int) returns (r: bool)
    requires Encodes(ta, ga, wa) && CachesOf(ta, ga, wa) && Ids(ta) <= va.Keys
    requires Encodes(tb, gb, wb) && CachesOf(tb, gb, wb) && Ids(tb) <= vb.Keys
    requires |Walk(ta, wa)| == |Walk(tb, wb)|
    requires ia == TreeSteps.Cursor(ta, wa)[0] && ib == TreeSteps.Cursor(tb, wb)[0]
    ensures r <==> WalkValues(ta, wa, va) == WalkValues(tb, wb, vb)
  {
    var i, j := ia, ib;
    ghost var k: nat := 0;
    WalkIds(ta, wa);
    WalkIds(tb, wb);
    ghost var A, B := WalkValues(ta, wa, va), WalkValues(tb, wb, vb);
    assert forall n :: 0 <= n < |A| ==> A[n] == va[Walk(ta, wa)[n]];
    assert forall n :: 0 <= n < |B| ==> B[n] == vb[Walk(tb, wb)[n]];
    while i != END
      invariant k <= |Walk(ta, wa)| && i == TreeSteps.Cursor(ta, wa)[k] && j == TreeSteps.Cursor(tb, wb)[k]
      invariant A[..k] == B[..k]
      decreases |Walk(ta, wa)| - k
    {
      TreeSteps.CursorEnd(ta, wa, k);
      assert i == Walk(ta, wa)[k] && j == Walk(tb, wb)[k];
      PrefixStep(A, B, k);
      if va[i] != vb[j] {
        return false;
      }
      i := TreeSteps.Next(ga, wa, ta, i, k);
      j := TreeSteps.Next(gb, wb, tb, j, k);
      k := k + 1;
    }
    TreeSteps.CursorEnd(ta, wa, k);
    PrefixAll(A, B, k);
    r := true;
  }

  /** operator== (tree.h:140-146): equal sizes, then the two walks compared value by value. */
  method Equal<T(!new, ==)>(a: BinaryTree<T>, b: BinaryTree<T>) returns (r: bool)
    requires a.Valid() && b.Valid()
    ensures r <==> a.size == b.size && a.Walked() == b.Walked()
  {
    if a.size != b.size {
      return false;
    }
    var _ := a.Size();
    var _ := b.Size();
    r := EqualWalks(a.G(), a.value, a.shape, a.walk, a.Begin(), b.G(), b.value, b.shape, b.walk, b.Begin());
  }
}
