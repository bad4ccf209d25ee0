/** clear (tree.h:236-243) with recursive_free (tree.h:504-515): every node of the
    tree is released, right subtree first, and the sentinel is reset. */
module TreeClear {
  import opened TreeShape
  import opened TreeGraph
  import opened TreeOrder
  import opened TreeArena

  /** The slots of g once the nodes of u are released. */
  function Without(g: Graph, u: set<int>): Graph {
    Graph(g.left - u, g.right - u, g.parent - u)
  }

  /** Releasing nodes away from u leaves the slots of u alone. */
  lemma AgreeWithout(u: set<int>, g: Graph, w: set<int>)
    requires forall x | x in u :: Slots(g, x)
    requires u !! w
    ensures Agree(u, g, Without(g, w))
  {
  }

  /** Releasing nothing changes nothing. */
  lemma WithoutNone<T>(g: Graph, vm: map<int, T>)
    ensures Without(g, {}) == g && vm - {} == vm
  {
  }

  /** Releasing r, then l, then x releases the whole subtree. */
  lemma WithoutSplit<T>(g: Graph, vm: map<int, T>, l: set<int>, x: int, r: set<int>,
                        g1: Graph, vm1: map<int, T>, g2: Graph, vm2: map<int, T>)
    requires g1 == Without(g, r) && vm1 == vm - r
    requires g2 == Without(g1, l) && vm2 == vm1 - l
    ensures Without(g2, {x}) == Without(g, l + {x} + r)
    ensures vm2 - {x} == vm - (l + {x} + r)
  {
  }

  /** recursive_free(cur) on the subtree sub rooted at cur: the right subtree, the
      left subtree, then cur itself. */
  method FreeBelow<T>(g: Graph, vm: map<int, T>, cur: int, ghost sub: Shape, ghost p: int, ghost s: int)
    returns (g': Graph, vm': map<int, T>)
    requires sub.Node? && cur == sub.id && Distinct(sub) && Linked(sub, p, g, s)
    ensures g' == Without(g, Ids(sub)) && vm' == vm - Ids(sub)
    decreases sub
  {
    DistinctPositive(sub);
    var g1, vm1 := g, vm;
    if g.right[cur] != NIL && g.right[cur] != END {
      g1, vm1 := FreeBelow(g, vm, g.right[cur], sub.right, cur, s);
    } else {
      WithoutNone(g, vm);
    }
    LinkedSlots(sub.left, cur, g, s);
    AgreeWithout(Ids(sub.left) + {cur}, g, Ids(sub.right));
    Narrow(Ids(sub.left) + {cur}, Ids(sub.left), g, g1, s, s);
    LinkedFrame(sub.left, cur, g, s, g1, s);
    var g2, vm2 := g1, vm1;
    if g1.left[cur] != NIL && g1.left[cur] != END {
      g2, vm2 := FreeBelow(g1, vm1, g1.left[cur], sub.left, cur, s);
    } else {
      WithoutNone(g1, vm1);
    }
    g', vm' := Without(g2, {cur}), vm2 - {cur};
    WithoutSplit(g, vm, Ids(sub.left), cur, Ids(sub.right), g1, vm1, g2, vm2);
  }

  /** The state of a fresh tree: the sentinel alone, pointing at itself. */
  function EmptyGraph(): Graph {
    Graph(map[END := END], map[END := END], map[END := END])
  }

  /** A valid empty state is exactly the fresh sentinel. */
  lemma EmptyState<T(!new)>(a: Arena<T>, w: WalkType, less: (T, T) -> bool)
    requires ArenaValid(Empty, a, w, less)
    ensures a.g == EmptyGraph() && a.value == map[] && a.size == 0
  {
    assert a.g.left.Keys == {END};
    assert a.value.Keys == {};
  }

  /** clear(): nothing is left but the sentinel; the allocator's next handle is kept. */
  method ClearArena<T(!new)>(a: Arena<T>, w: WalkType, less: (T, T) -> bool, ghost t: Shape) returns (a': Arena<T>)
    requires ArenaValid(t, a, w, less)
    ensures ArenaValid(Empty, a', w, less)
    ensures a'.g == EmptyGraph() && a'.value == map[] && a'.size == 0 && a'.next == a.next
  {
    if a.size == 0 {
      if t.Node? {
        assert false;
      }
      EmptyState(a, w, less);
      return a;
    }
    var g, vm := FreeBelow(a.g, a.value, RootOf(a.g, w), t, END, SynthOf(a.g, w));
    a' := Arena(EmptyGraph(), map[], 0, a.next);
  }
}
