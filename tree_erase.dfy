/** erase (tree.h:174-198): the walk-order successor is taken first, then the
    node is cut, the count drops, the caches are refreshed and the node is freed. */
module TreeErase {
  import opened TreeShape
  import opened TreeGraph
  import opened TreeOrder
  import opened TreeArena
  import opened TreeCut
  import TreeSteps

  /** Cutting x drops its value, at in-order position j, from the value sequence. */
  lemma CutAtKeys<T>(t: Shape, vm: map<int, T>, x: int) returns (j: nat)
    requires Distinct(t) && x in Ids(t) && Ids(t) <= vm.Keys
    ensures Ids(CutAt(t, x)) <= (vm - {x}).Keys
    ensures j < |KeysOf(t, vm)| && KeysOf(t, vm)[j] == vm[x]
    ensures KeysOf(CutAt(t, x), vm - {x}) == KeysOf(t, vm)[..j] + KeysOf(t, vm)[j + 1..]
  {
    var t', vm' := CutAt(t, x), vm - {x};
    CutAtIds(t, x);
    j := CutAtInorder(t, x);
    var I, I' := Inorder(t), Inorder(t');
    InorderInVm(t, vm);
    InorderInVm(t', vm');
    var K, K' := KeysOf(t, vm), KeysOf(t', vm');
    assert K[j] == vm[x];
    assert I' == I[..j] + I[j + 1..];
    forall i | 0 <= i < |K'| ensures K'[i] == (K[..j] + K[j + 1..])[i] {
      if i < j {
        assert I'[i] == I[i];
      } else {
        assert I'[i] == I[i + 1];
      }
    }
  }

  /** Freeing x, once no slot of the remaining shape refers to it, keeps the state valid. */
  lemma FreeValid(t: Shape, g: Graph, next: int, w: WalkType, x: int, g': Graph)
    requires WfLinks(t, g, next, w) && CachesOf(t, g, w) && x !in Ids(t) && x != END
    requires g' == Graph(g.left - {x}, g.right - {x}, g.parent - {x})
    ensures WfLinks(t, g', next, w) && CachesOf(t, g', w)
  {
    if t.Node? {
      DescentsInIds(t);
    }
    assert SynthOf(g', w) == SynthOf(g, w);
    LinkedSlots(t, END, g, SynthOf(g, w));
    AgreeAway(Ids(t), g, g', {x});
    LinkedFrame(t, END, g, SynthOf(g, w), g', SynthOf(g, w));
  }

  /** The tail of erase (tree.h:190-195): refresh the caches unless the tree is
      now empty, then free x. */
  method RefreshFree(g: Graph, x: int, sz: nat, ghost t: Shape, w: WalkType, ghost next: int) returns (g': Graph)
    requires WfLinks(t, g, next, w) && x !in Ids(t) && x != END && sz == Size(t) && (sz == 0 ==> CachesOf(t, g, w))
    ensures WfLinks(t, g', next, w) && CachesOf(t, g', w) && g'.left.Keys == g.left.Keys - {x}
  {
    var g1 := g;
    if sz != 0 {
      g1 := Refresh(g, t, next, w);
    }
    g' := Graph(g1.left - {x}, g1.right - {x}, g1.parent - {x});
    FreeValid(t, g1, next, w, x, g');
  }

  /** What erase leaves: the shape without x, and the values without x's. */
  lemma EraseValid<T(!new)>(t: Shape, a: Arena<T>, w: WalkType, less: (T, T) -> bool, x: int, a': Arena<T>) returns (j: nat)
    requires ArenaValid(t, a, w, less) && x in Ids(t)
    requires WfLinks(CutAt(t, x), a'.g, a.next, w) && CachesOf(CutAt(t, x), a'.g, w)
    requires a'.g.left.Keys == a.g.left.Keys - {x} && a' == Arena(a'.g, a.value - {x}, a.size - 1, a.next)
    ensures ArenaValid(CutAt(t, x), a', w, less)
    ensures j < |KeysOf(t, a.value)| && KeysOf(t, a.value)[j] == a.value[x]
    ensures KeysOf(CutAt(t, x), a'.value) == KeysOf(t, a.value)[..j] + KeysOf(t, a.value)[j + 1..]
  {
    CutAtIds(t, x);
    j := CutAtKeys(t, a.value, x);
    AscendingDrop(KeysOf(t, a.value), j, less);
  }

  /** erase(iterator) (tree.h:184-198) at the node x, position k of the walk. */
  method EraseAt<T(!new)>(a: Arena<T>, w: WalkType, less: (T, T) -> bool, x: int, ghost t: Shape, ghost k: nat)
    returns (a': Arena<T>, ghost t': Shape, it: int, ghost j: nat)
    requires ArenaValid(t, a, w, less) && k < |Walk(t, w)| && Walk(t, w)[k] == x && x in Ids(t)
    ensures t' == CutAt(t, x) && ArenaValid(t', a', w, less)
    ensures it == TreeSteps.Cursor(t, w)[k + 1]
    ensures a'.size == a.size - 1 && a'.value == a.value - {x} && a'.next == a.next
    ensures j < |KeysOf(t, a.value)| && KeysOf(t, a.value)[j] == a.value[x]
    ensures KeysOf(t', a'.value) == KeysOf(t, a.value)[..j] + KeysOf(t, a.value)[j + 1..]
  {
    it := TreeSteps.Next(a.g, w, t, x, k);
    var g1 := Cut(a.g, x, a.size, t, w, a.next);
    t' := CutAt(t, x);
    CutAtIds(t, x);
    DistinctPositive(t);
    var g2 := RefreshFree(g1, x, a.size - 1, t', w, a.next);
    a' := Arena(g2, a.value - {x}, a.size - 1, a.next);
    j := EraseValid(t, a, w, less, x, a');
  }
}
