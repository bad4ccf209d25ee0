/** The node arena behind BinaryTree (tree.h): the slots, the stored values, the
    element count and the next free handle, what makes them valid, the sentinel
    cache refreshes and insertion. Every operation here is a plain method on an
    `Arena` value together with the ghost shape it encodes. */
module TreeArena {
  import opened TreeShape
  import opened TreeGraph
  import opened TreeOrder

  /** The search path of v: the frames a descent by the comparator passes through. */
  ghost predicate OnPath<T>(ctx: Ctx, vm: map<int, T>, v: T, less: (T, T) -> bool) {
    forall i | 0 <= i < |ctx| ::
      ctx[i].pid in vm &&
      (if ctx[i].LeftOf? then less(v, vm[ctx[i].pid]) else !less(v, vm[ctx[i].pid]) && less(vm[ctx[i].pid], v))
  }

  lemma {:induction false} PathInsert<T>(ctx: Ctx, s: Shape, vm: map<int, T>, v: T, n: int, less: (T, T) -> bool)
    requires OnPath(ctx, vm, v, less) && Ids(Plug(ctx, s)) <= vm.Keys
    ensures Ids(s) <= vm.Keys
    ensures BstInsert(Plug(ctx, s), vm, v, n, less) == Plug(ctx, BstInsert(s, vm, v, n, less))
    decreases |ctx|
  {
    IdsPlug(ctx, s);
    if ctx != [] {
      assert OnPath(ctx[1..], vm, v, less) by {
        forall i | 0 <= i < |ctx[1..]| ensures ctx[1..][i] == ctx[i + 1] { }
      }
      PathInsert(ctx[1..], Wrap(ctx[0], s), vm, v, n, less);
    }
  }

  /** The subtree after hanging the leaf n below the root of sub. */
  function Hang(sub: Shape, n: int, goLeft: bool): Shape
    requires sub.Node?
  {
    if goLeft then Node(Node(Empty, n, Empty), sub.id, sub.right)
    else Node(sub.left, sub.id, Node(Empty, n, Empty))
  }

  /** The slot writes of insert encode the subtree with its new leaf. */
  lemma HangLocal(sub: Shape, p: int, g: Graph, s: int, n: int, goLeft: bool, g': Graph)
    requires sub.Node? && Linked(sub, p, g, s) && Distinct(sub)
    requires goLeft ==> sub.left.Empty?
    requires !goLeft ==> sub.right.Empty?
    requires n >= 1 && n != s && n !in Ids(sub)
    requires g' == HangGraph(g, sub.id, n, goLeft)
    ensures Linked(Hang(sub, n, goLeft), p, g', s)
  {
    LinkedSlots(sub, p, g, s);
    assert SameAway(g, g', {sub.id, n});
    if goLeft {
      AgreeAway(Ids(sub.right), g, g', {sub.id, n});
      LinkedFrame(sub.right, sub.id, g, s, g', s);
    } else {
      AgreeAway(Ids(sub.left), g, g', {sub.id, n});
      LinkedFrame(sub.left, sub.id, g, s, g', s);
    }
  }

  /** The slot writes of insert (tree.h:424-425, 439-440) encode the tree with the new leaf. */
  lemma HangLinked(ctx: Ctx, sub: Shape, g: Graph, s: int, n: int, goLeft: bool, g': Graph)
    requires sub.Node? && Linked(Plug(ctx, sub), END, g, s) && Distinct(Plug(ctx, sub))
    requires goLeft ==> sub.left.Empty?
    requires !goLeft ==> sub.right.Empty?
    requires n >= 1 && n != s && n !in Ids(Plug(ctx, sub))
    requires g' == HangGraph(g, sub.id, n, goLeft)
    ensures Linked(Plug(ctx, Hang(sub, n, goLeft)), END, g', s)
  {
    LinkedPlug(ctx, sub, END, g, s);
    DistinctPlug(ctx, sub);
    IdsPlug(ctx, sub);
    HangLocal(sub, Up(ctx, END), g, s, n, goLeft, g');
    LinkedSlots(Plug(ctx, sub), END, g, s);
    assert SameAway(g, g', {sub.id, n});
    AgreeAway(CtxIds(ctx), g, g', {sub.id, n});
    LinkedCtxFrame(ctx, sub.id, END, g, s, g', s);
    LinkedPlug(ctx, Hang(sub, n, goLeft), END, g', s);
  }

  /** The shape facts about hanging a fresh leaf. */
  lemma HangShape(ctx: Ctx, sub: Shape, n: int, goLeft: bool)
    requires sub.Node? && Distinct(Plug(ctx, sub))
    requires goLeft ==> sub.left.Empty?
    requires !goLeft ==> sub.right.Empty?
    requires n >= 1 && n !in Ids(Plug(ctx, sub))
    ensures Distinct(Plug(ctx, Hang(sub, n, goLeft)))
    ensures Ids(Plug(ctx, Hang(sub, n, goLeft))) == Ids(Plug(ctx, sub)) + {n}
    ensures TreeShape.Size(Plug(ctx, Hang(sub, n, goLeft))) == TreeShape.Size(Plug(ctx, sub)) + 1
    ensures Plug(ctx, sub).Node? && Plug(ctx, Hang(sub, n, goLeft)).Node?
    ensures Plug(ctx, Hang(sub, n, goLeft)).id == Plug(ctx, sub).id
  {
    var sub' := Hang(sub, n, goLeft);
    DistinctPlug(ctx, sub);
    IdsPlug(ctx, sub);
    IdsPlug(ctx, sub');
    DistinctPlug(ctx, sub');
    SizePlug(ctx, sub, sub');
    if ctx != [] {
      PlugRoot(ctx, sub);
      PlugRoot(ctx, sub');
    }
  }

  /** Every node holds a value, the size field counts the nodes, and the values
      ascend in-order under a strict weak order. */
  ghost predicate WfKeys<T(!new)>(t: Shape, vm: map<int, T>, sz: int, less: (T, T) -> bool) {
    StrictWeakOrder(less) && Ids(t) <= vm.Keys && sz == TreeShape.Size(t) && Ascending(KeysOf(t, vm), less)
  }

  ghost predicate Wf<T(!new)>(t: Shape, g: Graph, vm: map<int, T>, next: int, sz: int, w: WalkType, less: (T, T) -> bool) {
    WfLinks(t, g, next, w) && WfKeys(t, vm, sz, less)
  }

  /** Wf, no node outside the tree, and fresh caches. */
  ghost predicate ValidOf<T(!new)>(t: Shape, g: Graph, vm: map<int, T>, next: int, sz: int, w: WalkType, less: (T, T) -> bool) {
    Wf(t, g, vm, next, sz, w, less) &&
    g.left.Keys == Ids(t) + {END} && vm.Keys == Ids(t) &&
    CachesOf(t, g, w)
  }

  /** The writes of insert (tree.h:424-425, 439-440): the fresh node n, with null
      children, becomes the left or right child of cur. */
  function HangGraph(g: Graph, cur: int, n: int, goLeft: bool): Graph {
    if goLeft then Graph(g.left[n := NIL][cur := n], g.right[n := NIL], g.parent[n := cur])
    else Graph(g.left[n := NIL], g.right[cur := n][n := NIL], g.parent[n := cur])
  }

  /** Hanging a fresh leaf where the search for v ends is BstInsert, and keeps the values ascending. */
  lemma HangKeys<T(!new)>(t: Shape, vm: map<int, T>, less: (T, T) -> bool, ctx: Ctx, sub: Shape, v: T, next: int, goLeft: bool)
    requires StrictWeakOrder(less) && Plug(ctx, sub) == t && sub.Node? && Distinct(t)
    requires Ids(t) <= vm.Keys && sub.id in vm && next !in Ids(t) && Ascending(KeysOf(t, vm), less)
    requires OnPath(ctx, vm, v, less)
    requires goLeft ==> sub.left.Empty? && less(v, vm[sub.id])
    requires !goLeft ==> sub.right.Empty? && !less(v, vm[sub.id]) && less(vm[sub.id], v)
    ensures Plug(ctx, Hang(sub, next, goLeft)) == BstInsert(t, vm, v, next, less)
    ensures Ids(Plug(ctx, Hang(sub, next, goLeft))) <= vm[next := v].Keys
    ensures Ascending(KeysOf(Plug(ctx, Hang(sub, next, goLeft)), vm[next := v]), less)
  {
    PathInsert(ctx, sub, vm, v, next, less);
    assert BstInsert(sub, vm, v, next, less) == Hang(sub, next, goLeft);
    BstInsertKeys(t, vm, v, next, less);
    SortedInsertAscending(KeysOf(t, vm), v, less);
  }

  /** Hanging a fresh leaf where the search for v ends keeps Wf and is BstInsert. */
  lemma HangWf<T(!new)>(t: Shape, g: Graph, vm: map<int, T>, next: int, sz: int, w: WalkType, less: (T, T) -> bool,
                         ctx: Ctx, sub: Shape, v: T, goLeft: bool) returns (t': Shape)
    requires Wf(t, g, vm, next, sz, w, less) && Plug(ctx, sub) == t && sub.Node? && Ids(sub) <= Ids(t)
    requires OnPath(ctx, vm, v, less)
    requires goLeft ==> sub.left.Empty? && less(v, vm[sub.id])
    requires !goLeft ==> sub.right.Empty? && !less(v, vm[sub.id]) && less(vm[sub.id], v)
    ensures t' == BstInsert(t, vm, v, next, less)
    ensures Ids(t') == Ids(t) + {next}
    ensures HangGraph(g, sub.id, next, goLeft).left.Keys == g.left.Keys + {next}
    ensures g.left.Keys == Ids(t) + {END} ==> HangGraph(g, sub.id, next, goLeft).left.Keys == Ids(t') + {END}
    ensures vm.Keys == Ids(t) ==> vm[next := v].Keys == Ids(t')
    ensures Wf(t', HangGraph(g, sub.id, next, goLeft), vm[next := v], next + 1, sz + 1, w, less)
  {
    t' := Plug(ctx, Hang(sub, next, goLeft));
    HangLinks(t, g, next, w, ctx, sub, goLeft);
    HangKeys(t, vm, less, ctx, sub, v, next, goLeft);
    HangShape(ctx, sub, next, goLeft);
  }

  /** Hanging a fresh leaf keeps WfLinks. */
  lemma HangLinks(t: Shape, g: Graph, next: int, w: WalkType, ctx: Ctx, sub: Shape, goLeft: bool)
    requires WfLinks(t, g, next, w) && Plug(ctx, sub) == t && sub.Node?
    requires goLeft ==> sub.left.Empty?
    requires !goLeft ==> sub.right.Empty?
    ensures HangGraph(g, sub.id, next, goLeft).left.Keys == g.left.Keys + {next}
    ensures WfLinks(Plug(ctx, Hang(sub, next, goLeft)), HangGraph(g, sub.id, next, goLeft), next + 1, w)
  {
    var g' := HangGraph(g, sub.id, next, goLeft);
    DistinctPositive(t);
    IdsPlug(ctx, sub);
    HangDomains(g, sub.id, next, goLeft);
    HangLinked(ctx, sub, g, SynthOf(g, w), next, goLeft, g');
    HangShape(ctx, sub, next, goLeft);
  }

  /** The writes of insert touch only cur and the fresh handle n. */
  lemma HangDomains(g: Graph, cur: int, n: int, goLeft: bool)
    requires cur in g.left && cur != END && n != END && END in g.left
    requires g.right.Keys == g.left.Keys && g.parent.Keys == g.left.Keys
    requires forall y | y in g.left :: y < n
    ensures HangGraph(g, cur, n, goLeft).left.Keys == g.left.Keys + {n}
    ensures HangGraph(g, cur, n, goLeft).right.Keys == g.left.Keys + {n}
    ensures HangGraph(g, cur, n, goLeft).parent.Keys == g.left.Keys + {n}
    ensures forall y | y in HangGraph(g, cur, n, goLeft).left :: y < n + 1
    ensures HangGraph(g, cur, n, goLeft).left[END] == g.left[END]
    ensures HangGraph(g, cur, n, goLeft).right[END] == g.right[END]
    ensures HangGraph(g, cur, n, goLeft).parent[END] == g.parent[END]
  {
  }

  /** The mutable state of a tree besides its shape: the node slots, the stored
      values, the element count and the next free handle. */
  datatype Arena<T> = Arena(g: Graph, value: map<int, T>, size: nat, next: int)

  ghost predicate ArenaValid<T(!new)>(t: Shape, a: Arena<T>, w: WalkType, less: (T, T) -> bool) {
    ValidOf(t, a.g, a.value, a.next, a.size, w, less)
  }

  // ---- the sentinel caches ----

  /** update_left (tree.h:259-278): in post-order `end_node_.left` gets the left-deep
      leaf, the walk's first node; otherwise `end_node_.right` gets the leftmost node,
      which in pre-order is not the first node (the root, read from `end_node_.left`). */
  method UpdateLeft(g: Graph, ghost t: Shape, ghost next: int, w: WalkType) returns (g': Graph)
    requires WfLinks(t, g, next, w) && t.Node?
    ensures g' == (if w == PostOrder then Graph(g.left[END := LeftDeepLeaf(t)], g.right, g.parent)
                   else Graph(g.left, g.right[END := Leftmost(t)], g.parent))
    ensures WfLinks(t, g', next, w) && LeftCacheOf(g', w) == LeftTarget(t, w)
  {
    DistinctPositive(t);
    var node := RootOf(g, w);
    ghost var sub := t;
    ghost var p := END;
    ghost var s := SynthOf(g, w);
    if w != PostOrder {
      while g.left[node] != NIL && g.left[node] != END
        invariant sub.Node? && node == sub.id && Ids(sub) <= Ids(t)
        invariant Linked(sub, p, g, s) && Leftmost(sub) == Leftmost(t)
        decreases sub
      {
        p, node, sub := node, g.left[node], sub.left;
      }
      g' := Graph(g.left, g.right[END := node], g.parent);
    } else {
      while (g.left[node] != NIL && g.left[node] != END) || (g.right[node] != NIL && g.right[node] != END)
        invariant sub.Node? && node == sub.id && Ids(sub) <= Ids(t)
        invariant Linked(sub, p, g, s) && LeftDeepLeaf(sub) == LeftDeepLeaf(t)
        decreases sub
      {
        if g.left[node] != NIL && g.left[node] != END {
          p, node, sub := node, g.left[node], sub.left;
        } else {
          p, node, sub := node, g.right[node], sub.right;
        }
      }
      g' := Graph(g.left[END := node], g.right, g.parent);
    }
    LinkedFrame(t, END, g, s, g', s);
  }

  /** The left slots after the synthetic link of s is dropped (tree.h:284-286). */
  function ClearLink(l: map<int, int>, s: int): map<int, int> {
    if s != END && s in l && l[s] == END then l[s := NIL] else l
  }

  /** update_right (tree.h:280-303): `end_node_.parent` gets the last pre-order node in
      pre-order, and the rightmost node otherwise; in post-order that is not the walk's
      last node, which is the root in `end_node_.right`. In pre-order the synthetic link
      moves from the old last node to the new one. */
  method UpdateRight(g: Graph, ghost t: Shape, ghost next: int, w: WalkType) returns (g': Graph)
    requires WfLinks(t, g, next, w) && t.Node?
    ensures g'.right == g.right && g'.parent == g.parent[END := RightTarget(t, w)]
    ensures g'.left == (if w == PreOrder then ClearLink(g.left, g.parent[END])[RightTarget(t, w) := END] else g.left)
    ensures WfLinks(t, g', next, w) && LeftCacheOf(g', w) == LeftCacheOf(g, w) && g'.left.Keys == g.left.Keys
  {
    DistinctPositive(t);
    var node := RootOf(g, w);
    ghost var sub := t;
    ghost var p := END;
    if w == PreOrder {
      var g0 := Graph(ClearLink(g.left, g.parent[END]), g.right, g.parent);
      ClearSynth(t, g, g.parent[END], g0);
      while (g0.left[node] != NIL && g0.left[node] != END) || (g0.right[node] != NIL && g0.right[node] != END)
        invariant sub.Node? && node == sub.id && Ids(sub) <= Ids(t)
        invariant Linked(sub, p, g0, NIL) && RightDeepLeaf(sub) == RightDeepLeaf(t)
        decreases sub
      {
        if g0.right[node] != NIL && g0.right[node] != END {
          p, node, sub := node, g0.right[node], sub.right;
        } else {
          p, node, sub := node, g0.left[node], sub.left;
        }
      }
      g' := Graph(g0.left[node := END], g0.right, g0.parent[END := node]);
      SetSynth(t, g0, node, g');
    } else {
      while g.right[node] != NIL && g.right[node] != END
        invariant sub.Node? && node == sub.id && Ids(sub) <= Ids(t)
        invariant Linked(sub, p, g, NIL) && Rightmost(sub) == Rightmost(t)
        decreases sub
      {
        p, node, sub := node, g.right[node], sub.right;
      }
      g' := Graph(g.left, g.right, g.parent[END := node]);
      LinkedFrame(t, END, g, NIL, g', NIL);
    }
  }

  /** Both cache refreshes, as insert and erase run them (tree.h:427-428, 191-192). */
  method Refresh(g: Graph, ghost t: Shape, ghost next: int, w: WalkType) returns (g': Graph)
    requires WfLinks(t, g, next, w) && t.Node?
    ensures WfLinks(t, g', next, w) && g'.left.Keys == g.left.Keys && CachesOf(t, g', w)
  {
    var g1 := UpdateLeft(g, t, next, w);
    g' := UpdateRight(g1, t, next, w);
  }

  /** The caches refreshed on a state whose slots and values are otherwise valid. */
  method RefreshArena<T(!new)>(a: Arena<T>, ghost t: Shape, w: WalkType, less: (T, T) -> bool) returns (a': Arena<T>)
    requires Wf(t, a.g, a.value, a.next, a.size, w, less) && t.Node?
    requires a.g.left.Keys == Ids(t) + {END} && a.value.Keys == Ids(t)
    ensures ArenaValid(t, a', w, less) && a'.value == a.value && a'.size == a.size && a'.next == a.next
  {
    var g := Refresh(a.g, t, a.next, w);
    a' := Arena(g, a.value, a.size, a.next);
  }

  /** Dropping the synthetic link of s leaves the plain encoding. */
  lemma ClearSynth(t: Shape, g: Graph, s: int, g0: Graph)
    requires Distinct(t) && Linked(t, END, g, s) && s in g.left
    requires g0 == Graph(ClearLink(g.left, s), g.right, g.parent)
    ensures Linked(t, END, g0, NIL)
  {
    DistinctPositive(t);
    LinkedSlots(t, END, g, s);
    if s in Ids(t) {
      LinkedAtFocus(t, END, g, s, s);
      IdsPlug(Focus(t, s).0, Focus(t, s).1);
      LinkedRewriteNode(t, END, g, s, s, g0, NIL);
    } else {
      LinkedFrame(t, END, g, s, g0, NIL);
    }
  }

  /** Giving the leaf x the synthetic link keeps the encoding, now with x as s. */
  lemma SetSynth(t: Shape, g1: Graph, x: int, g': Graph)
    requires Distinct(t) && Linked(t, END, g1, NIL) && x in Ids(t)
    requires x in g1.left && (g1.left[x] == NIL || g1.left[x] == END) && END in g1.parent
    requires g' == Graph(g1.left[x := END], g1.right, g1.parent[END := x])
    ensures Linked(t, END, g', x)
  {
    DistinctPositive(t);
    LinkedSlots(t, END, g1, NIL);
    LinkedAtFocus(t, END, g1, NIL, x);
    LinkedRewriteNode(t, END, g1, NIL, x, g', x);
  }

  // ---- insert (tree.h:152-168, 418-452) ----

  /** The leaf case of the descent: hang a fresh node holding v below cur, then
      refresh both caches (tree.h:420-430, 435-445). */
  method AttachLeaf<T(!new)>(a: Arena<T>, w: WalkType, less: (T, T) -> bool, v: T, cur: int, goLeft: bool,
                             ghost t: Shape, ghost ctx: Ctx, ghost sub: Shape) returns (a': Arena<T>, ghost t': Shape)
    requires ArenaValid(t, a, w, less) && Plug(ctx, sub) == t && sub.Node? && cur == sub.id && Ids(sub) <= Ids(t)
    requires OnPath(ctx, a.value, v, less)
    requires goLeft ==> sub.left.Empty? && less(v, a.value[cur])
    requires !goLeft ==> sub.right.Empty? && !less(v, a.value[cur]) && less(a.value[cur], v)
    ensures ArenaValid(t', a', w, less)
    ensures a'.value == a.value[a.next := v] && a'.size == a.size + 1 && a'.next == a.next + 1
    ensures t' == BstInsert(t, a.value, v, a.next, less)
  {
    var n := a.next;
    var g1 := HangGraph(a.g, cur, n, goLeft);
    t' := HangWf(t, a.g, a.value, n, a.size, w, less, ctx, sub, v, goLeft);
    a' := RefreshArena(Arena(g1, a.value[n := v], a.size + 1, n + 1), t', w, less);
  }

  /** insert(value, cur_node) (tree.h:418-452): the descent for v below cur. */
  method InsertAt<T(!new)>(a: Arena<T>, w: WalkType, less: (T, T) -> bool, v: T, cur: int,
                           ghost t: Shape, ghost ctx: Ctx, ghost sub: Shape)
    returns (a': Arena<T>, ghost t': Shape, it: int, inserted: bool)
    requires ArenaValid(t, a, w, less) && Plug(ctx, sub) == t && sub.Node? && cur == sub.id && Ids(sub) <= Ids(t)
    requires OnPath(ctx, a.value, v, less) && Ascending(KeysOf(sub, a.value), less)
    ensures ArenaValid(t', a', w, less)
    ensures inserted <==> !Holds(KeysOf(sub, a.value), v, less)
    ensures inserted ==> it == a.next && a'.value == a.value[it := v] && a'.size == a.size + 1 &&
                         a'.next == a.next + 1 && t' == BstInsert(t, a.value, v, it, less)
    ensures !inserted ==> a' == a && t' == t && it in Ids(sub) && Equiv(less, a.value[it], v)
    decreases sub
  {
    var g, vm := a.g, a.value;
    LinkedPlug(ctx, sub, END, g, SynthOf(g, w));
    DistinctPlug(ctx, sub);
    DistinctPositive(t);
    KeysOfNode(sub.left, cur, sub.right, vm);
    AscendingParts(KeysOf(sub.left, vm), vm[cur], KeysOf(sub.right, vm), less);
    if less(v, vm[cur]) {
      HoldsLeft(KeysOf(sub.left, vm), vm[cur], KeysOf(sub.right, vm), v, less);
      if g.left[cur] == NIL || g.left[cur] == END {
        a', t' := AttachLeaf(a, w, less, v, cur, true, t, ctx, sub);
        it, inserted := a.next, true;
      } else {
        ghost var ctx' := [LeftOf(cur, sub.right)] + ctx;
        assert ctx'[1..] == ctx;
        assert OnPath(ctx', vm, v, less);
        a', t', it, inserted := InsertAt(a, w, less, v, g.left[cur], t, ctx', sub.left);
      }
    } else if less(vm[cur], v) {
      HoldsRight(KeysOf(sub.left, vm), vm[cur], KeysOf(sub.right, vm), v, less);
      if g.right[cur] == NIL || g.right[cur] == END {
        a', t' := AttachLeaf(a, w, less, v, cur, false, t, ctx, sub);
        it, inserted := a.next, true;
      } else {
        ghost var ctx' := [RightOf(sub.left, cur)] + ctx;
        assert ctx'[1..] == ctx;
        assert OnPath(ctx', vm, v, less);
        a', t', it, inserted := InsertAt(a, w, less, v, g.right[cur], t, ctx', sub.right);
      }
    } else {
      assert (KeysOf(sub.left, vm) + [vm[cur]] + KeysOf(sub.right, vm))[|KeysOf(sub.left, vm)|] == vm[cur];
      a', t', it, inserted := a, t, cur, false;
    }
  }

  /** The first node of an empty tree fills all three sentinel slots (tree.h:152-165). */
  function FirstGraph(g: Graph, n: int, w: WalkType): Graph {
    Graph(g.left[n := if w == PreOrder then END else NIL][END := n], g.right[n := NIL][END := n], g.parent[n := END][END := n])
  }

  lemma FirstValid<T(!new)>(a: Arena<T>, w: WalkType, less: (T, T) -> bool, v: T)
    requires ArenaValid(Empty, a, w, less)
    ensures ArenaValid(Node(Empty, a.next, Empty), Arena(FirstGraph(a.g, a.next, w), a.value[a.next := v], 1, a.next + 1), w, less)
  {
    var n := a.next;
    var t' := Node(Empty, n, Empty);
    var vm' := a.value[n := v];
    var g' := FirstGraph(a.g, n, w);
    KeysOfNode(Empty, n, Empty, vm');
    assert Distinct(t');
    assert Ids(t') + {END} <= g'.left.Keys && g'.right.Keys == g'.left.Keys && g'.parent.Keys == g'.left.Keys;
    assert n + 1 >= 1 && (forall y | y in g'.left :: y < n + 1);
    assert g'.parent[END] in g'.left;
    assert Linked(t', END, g', SynthOf(g', w));
    assert RootOf(g', w) == (if t'.Empty? then END else t'.id);
  }

  /** insert(value) (tree.h:152-168): a fresh node when no equivalent value is
      stored, otherwise the node holding the equivalent one. */
  method InsertTree<T(!new)>(a: Arena<T>, w: WalkType, less: (T, T) -> bool, v: T, ghost t: Shape)
    returns (a': Arena<T>, ghost t': Shape, it: int, inserted: bool)
    requires ArenaValid(t, a, w, less)
    ensures ArenaValid(t', a', w, less)
    ensures inserted <==> !Holds(KeysOf(t, a.value), v, less)
    ensures KeysOf(t', a'.value) == SortedInsert(KeysOf(t, a.value), v, less)
    ensures t' == BstInsert(t, a.value, v, a.next, less)
    ensures a'.size == a.size + (if inserted then 1 else 0)
    ensures it in Ids(t') && Equiv(less, a'.value[it], v)
    ensures forall y | y in a.value :: y in a'.value && a'.value[y] == a.value[y]
    ensures inserted ==> it == a.next && a'.value == a.value[a.next := v] && a'.next == a.next + 1
    ensures !inserted ==> t' == t && a' == a
  {
    if a.size == 0 {
      var n := a.next;
      a' := Arena(FirstGraph(a.g, n, w), a.value[n := v], 1, n + 1);
      t' := Node(Empty, n, Empty);
      FirstValid(a, w, less, v);
      KeysOfNode(Empty, n, Empty, a'.value);
      it, inserted := n, true;
    } else {
      a', t', it, inserted := InsertAt(a, w, less, v, RootOf(a.g, w), t, [], t);
      BstInsertIds(t, a.value, v, a.next, less);
      if inserted {
        BstInsertKeys(t, a.value, v, a.next, less);
      } else {
        SortedInsertPresent(KeysOf(t, a.value), v, less);
      }
    }
  }
}
