/** copy (tree.h:540-563) with recursive_copy (tree.h:517-538): every node of the
    other tree gets a node of its own here, holding the same value and linked the
    same way, and the caches are then recomputed.

    The copied nodes take the same handles as the nodes they copy: handles name
    nodes of one tree's own store, so the two trees share no node. */
module TreeCopy {
  import opened TreeShape
  import opened TreeGraph
  import opened TreeOrder
  import opened TreeArena
  import opened TreeClear

  ghost predicate SameKeysAll(g: Graph) {
    g.right.Keys == g.left.Keys && g.parent.Keys == g.left.Keys
  }

  /** The copy below cur: the nodes of sub are new in d', and hold the values of svm. */
  ghost predicate CopiedBelow<T>(sub: Shape, svm: map<int, T>, d: Graph, dvm: map<int, T>, d': Graph, dvm': map<int, T>)
    requires Ids(sub) <= svm.Keys
  {
    SameKeysAll(d') && d'.left.Keys == d.left.Keys + Ids(sub) &&
    dvm'.Keys == dvm.Keys + Ids(sub) &&
    (forall y | y in dvm' :: dvm'[y] == if y in Ids(sub) then svm[y] else dvm[y])
  }

  /** One child of recursive_copy (tree.h:518-537): a real child of the other tree
      gets a fresh node with its value, linked below cur, and is copied in turn; a null
      child or the other tree's sentinel leaves a null slot. */
  method CopyChild<T>(src: Graph, svm: map<int, T>, cur: int, ghost c: Shape, ghost s: int,
                      d: Graph, dvm: map<int, T>, goLeft: bool)
    returns (d': Graph, dvm': map<int, T>)
    requires Distinct(c) && Linked(c, cur, src, s) && Ids(c) <= svm.Keys && cur !in Ids(c) && cur >= 1
    requires Slots(src, cur) && (if goLeft then src.left[cur] == LeftVal(Link(c), cur, s) else src.right[cur] == Link(c))
    requires Slots(d, cur) && SameKeysAll(d) && Ids(c) !! d.left.Keys
    ensures Linked(c, cur, d', NIL) && CopiedBelow(c, svm, d, dvm, d', dvm')
    ensures SameAway(d, d', Ids(c) + {cur}) && Slots(d', cur) && d'.parent[cur] == d.parent[cur]
    ensures if goLeft then d'.left[cur] == Link(c) && d'.right[cur] == d.right[cur]
            else d'.right[cur] == Link(c) && d'.left[cur] == d.left[cur]
    decreases c, 1
  {
    DistinctPositive(c);
    var k := if goLeft then src.left[cur] else src.right[cur];
    if k != NIL && k != END {
      var d1 := HangGraph(d, cur, k, goLeft);
      var dvm1 := dvm[k := svm[k]];
      d', dvm' := CopyBelow(src, svm, k, c, cur, s, d1, dvm1);
      ChildFacts(c, svm, d, dvm, d1, dvm1, d', dvm', cur, goLeft);
    } else {
      d' := if goLeft then Graph(d.left[cur := NIL], d.right, d.parent) else Graph(d.left, d.right[cur := NIL], d.parent);
      dvm' := dvm;
    }
  }

  /** Hanging the fresh node k and copying below it, put together. */
  lemma ChildFacts<T>(c: Shape, svm: map<int, T>, d: Graph, dvm: map<int, T>, d1: Graph, dvm1: map<int, T>,
                      d': Graph, dvm': map<int, T>, cur: int, goLeft: bool)
    requires c.Node? && cur !in Ids(c) && Ids(c) <= svm.Keys && Slots(d, cur) && SameKeysAll(d)
    requires d1 == HangGraph(d, cur, c.id, goLeft) && dvm1 == dvm[c.id := svm[c.id]]
    requires CopiedBelow(c, svm, d1, dvm1, d', dvm') && SameAway(d1, d', Ids(c))
    ensures CopiedBelow(c, svm, d, dvm, d', dvm')
    ensures SameAway(d, d', Ids(c) + {cur}) && Slots(d', cur) && d'.parent[cur] == d.parent[cur]
    ensures if goLeft then d'.left[cur] == c.id && d'.right[cur] == d.right[cur]
            else d'.right[cur] == c.id && d'.left[cur] == d.left[cur]
  {
    ChildKeys(c, svm, d, dvm, d1, dvm1, d', dvm', cur, goLeft);
    ChildSlots(c, d, d1, d', cur, goLeft);
  }

  lemma ChildKeys<T>(c: Shape, svm: map<int, T>, d: Graph, dvm: map<int, T>, d1: Graph, dvm1: map<int, T>,
                     d': Graph, dvm': map<int, T>, cur: int, goLeft: bool)
    requires c.Node? && Ids(c) <= svm.Keys && Slots(d, cur)
    requires d1 == HangGraph(d, cur, c.id, goLeft) && dvm1 == dvm[c.id := svm[c.id]]
    requires CopiedBelow(c, svm, d1, dvm1, d', dvm')
    ensures CopiedBelow(c, svm, d, dvm, d', dvm')
  {
    assert d1.left.Keys == d.left.Keys + {c.id};
  }

  lemma ChildSlots(c: Shape, d: Graph, d1: Graph, d': Graph, cur: int, goLeft: bool)
    requires c.Node? && cur !in Ids(c) && Slots(d, cur)
    requires d1 == HangGraph(d, cur, c.id, goLeft)
    requires SameAway(d1, d', Ids(c))
    ensures SameAway(d, d', Ids(c) + {cur}) && Slots(d', cur) && d'.parent[cur] == d.parent[cur]
    ensures if goLeft then d'.left[cur] == c.id && d'.right[cur] == d.right[cur]
            else d'.right[cur] == c.id && d'.left[cur] == d.left[cur]
  {
  }

  /** recursive_copy(cur, cur of the other tree): the left child, then the right child. */
  method CopyBelow<T>(src: Graph, svm: map<int, T>, cur: int, ghost sub: Shape, ghost p: int, ghost s: int,
                      d: Graph, dvm: map<int, T>)
    returns (d': Graph, dvm': map<int, T>)
    requires sub.Node? && cur == sub.id && Distinct(sub) && Linked(sub, p, src, s) && Ids(sub) <= svm.Keys
    requires Slots(d, cur) && SameKeysAll(d) && (Ids(sub) - {cur}) !! d.left.Keys
    requires cur in dvm && dvm[cur] == svm[cur]
    ensures Linked(sub, d.parent[cur], d', NIL) && CopiedBelow(sub, svm, d, dvm, d', dvm')
    ensures SameAway(d, d', Ids(sub))
    decreases sub, 0
  {
    DistinctPositive(sub);
    var d1, dvm1 := CopyChild(src, svm, cur, sub.left, s, d, dvm, true);
    var d2, dvm2 := CopyChild(src, svm, cur, sub.right, s, d1, dvm1, false);
    d', dvm' := d2, dvm2;
    BelowFacts(sub, svm, d, dvm, d1, dvm1, d2, dvm2);
  }

  /** The two children copied one after the other give the copy of the whole subtree. */
  lemma BelowFacts<T>(sub: Shape, svm: map<int, T>, d: Graph, dvm: map<int, T>, d1: Graph, dvm1: map<int, T>,
                      d2: Graph, dvm2: map<int, T>)
    requires sub.Node? && Distinct(sub) && Ids(sub) <= svm.Keys && Slots(d, sub.id)
    requires sub.id in dvm && dvm[sub.id] == svm[sub.id]
    requires Linked(sub.left, sub.id, d1, NIL) && CopiedBelow(sub.left, svm, d, dvm, d1, dvm1)
    requires SameAway(d, d1, Ids(sub.left) + {sub.id}) && Slots(d1, sub.id) && d1.parent[sub.id] == d.parent[sub.id]
    requires d1.left[sub.id] == Link(sub.left)
    requires Linked(sub.right, sub.id, d2, NIL) && CopiedBelow(sub.right, svm, d1, dvm1, d2, dvm2)
    requires SameAway(d1, d2, Ids(sub.right) + {sub.id}) && Slots(d2, sub.id) && d2.parent[sub.id] == d1.parent[sub.id]
    requires d2.right[sub.id] == Link(sub.right) && d2.left[sub.id] == d1.left[sub.id]
    ensures Linked(sub, d.parent[sub.id], d2, NIL) && CopiedBelow(sub, svm, d, dvm, d2, dvm2)
    ensures SameAway(d, d2, Ids(sub))
  {
    var x := sub.id;
    LinkedSlots(sub.left, x, d1, NIL);
    AgreeAway(Ids(sub.left), d1, d2, Ids(sub.right) + {x});
    LinkedFrame(sub.left, x, d1, NIL, d2, NIL);
  }

  /** The sentinel and the copied root before recursive_copy runs (tree.h:546-560). */
  function RootGraph(r: int, w: WalkType): Graph {
    var d := EmptyGraph();
    var d1 := Graph(d.left[r := NIL], d.right[r := NIL], d.parent[r := END]);
    if w == PostOrder then Graph(d1.left, d1.right[END := r], d1.parent) else Graph(d1.left[END := r], d1.right, d1.parent)
  }

  /** The fresh root is the only node so far, and the rest of t is still to come. */
  lemma RootStart(t: Shape, w: WalkType, d1: Graph)
    requires t.Node? && Distinct(t) && d1 == RootGraph(t.id, w)
    ensures Slots(d1, t.id) && SameKeysAll(d1) && (Ids(t) - {t.id}) !! d1.left.Keys
  {
    DistinctPositive(t);
  }

  /** The copied slots encode t, with every handle from the other tree's store. */
  lemma CopyLinks<T>(t: Shape, src: Graph, next: int, w: WalkType, d1: Graph, d2: Graph,
                     svm: map<int, T>, vm1: map<int, T>, vm2: map<int, T>)
    requires WfLinks(t, src, next, w) && src.left.Keys == Ids(t) + {END} && t.Node?
    requires Ids(t) <= svm.Keys && vm1 == map[t.id := svm[t.id]]
    requires d1 == RootGraph(t.id, w)
    requires Linked(t, d1.parent[t.id], d2, NIL) && CopiedBelow(t, svm, d1, vm1, d2, vm2) && SameAway(d1, d2, Ids(t))
    ensures WfLinks(t, d2, next, w) && d2.left.Keys == Ids(t) + {END}
  {
    DistinctPositive(t);
    assert END !in Ids(t);
    assert forall y | y in d2.left :: y in src.left;
    LinkedFrame(t, END, d2, NIL, d2, SynthOf(d2, w));
  }

  /** Every value of the other tree is copied, and nothing else. */
  lemma CopyValues<T>(t: Shape, svm: map<int, T>, d1: Graph, d2: Graph, vm1: map<int, T>, vm2: map<int, T>)
    requires t.Node? && svm.Keys == Ids(t) && vm1 == map[t.id := svm[t.id]]
    requires CopiedBelow(t, svm, d1, vm1, d2, vm2)
    ensures vm2 == svm
  {
    assert t.id in Ids(t);
    assert vm2.Keys == svm.Keys;
    forall y | y in svm ensures vm2[y] == svm[y] {
      assert y in vm2 && y in Ids(t);
    }
  }

  /** copy(other), the body of the copy constructor (tree.h:61-65): the same shape and
      the same values in a store of its own, with fresh caches. */
  method CopyArena<T(!new)>(src: Arena<T>, w: WalkType, less: (T, T) -> bool, ghost t: Shape) returns (a': Arena<T>)
    requires ArenaValid(t, src, w, less)
    ensures ArenaValid(t, a', w, less)
    ensures a'.value == src.value && a'.size == src.size && a'.next == src.next
  {
    if src.size == 0 {
      if t.Node? {
        assert false;
      }
      EmptyState(src, w, less);
      return Arena(EmptyGraph(), map[], 0, src.next);
    }
    var r := RootOf(src.g, w);
    var d1 := RootGraph(r, w);
    var vm1 := map[r := src.value[r]];
    RootStart(t, w, d1);
    var d2, vm2 := CopyBelow(src.g, src.value, r, t, END, SynthOf(src.g, w), d1, vm1);
    CopyLinks(t, src.g, src.next, w, d1, d2, src.value, vm1, vm2);
    CopyValues(t, src.value, d1, d2, vm1, vm2);
    var g := Refresh(d2, t, src.next, w);
    a' := Arena(g, vm2, src.size, src.next);
  }
}
