/** The node graph of the arena: every node's left, right and parent slots,
    and what it means for those slots to spell out a given shape. */
module TreeGraph {
  import opened TreeShape

  /** The left/right/parent slots of all live arena nodes, the sentinel's included. */
  datatype Graph = Graph(left: map<int, int>, right: map<int, int>, parent: map<int, int>)

  ghost predicate Slots(g: Graph, x: int) {
    x in g.left && x in g.right && x in g.parent
  }

  /** What the left slot of node x holds when its left subtree has link `below`: the
      subtree's root or null, except that the designated leaf s of a pre-order tree
      (its last node) carries the synthetic link to the sentinel (tree.h:296). */
  function LeftVal(below: int, x: int, s: int): int {
    if below == NIL && x == s then END else below
  }

  /** The slots of g encode the subtree t hanging below p, with s the synthetic leaf. */
  ghost predicate Linked(t: Shape, p: int, g: Graph, s: int) {
    match t
    case Empty => true
    case Node(l, x, r) =>
      Slots(g, x) && g.parent[x] == p &&
      g.left[x] == LeftVal(Link(l), x, s) && g.right[x] == Link(r) &&
      Linked(l, x, g, s) && Linked(r, x, g, s)
  }

  /** The slots of g encode the frames of ctx around a focus whose link is `below`;
      the outermost frame hangs below `top`. */
  ghost predicate LinkedCtx(ctx: Ctx, below: int, top: int, g: Graph, s: int)
    decreases |ctx|
  {
    ctx == [] ||
    (var q := ctx[0].pid;
     Slots(g, q) && g.parent[q] == Up(ctx[1..], top) && Linked(ctx[0].sib, q, g, s) &&
     (if ctx[0].LeftOf? then g.left[q] == LeftVal(below, q, s) && g.right[q] == Link(ctx[0].sib)
      else g.right[q] == below && g.left[q] == LeftVal(Link(ctx[0].sib), q, s)) &&
     LinkedCtx(ctx[1..], q, top, g, s))
  }

  lemma {:induction false} LinkedPlug(ctx: Ctx, t: Shape, top: int, g: Graph, s: int)
    ensures Linked(Plug(ctx, t), top, g, s) <==>
            Linked(t, Up(ctx, top), g, s) && LinkedCtx(ctx, Link(t), top, g, s)
    decreases |ctx|
  {
    if ctx != [] {
      LinkedPlug(ctx[1..], Wrap(ctx[0], t), top, g, s);
    }
  }

  /** Every node of an encoded tree has its three slots. */
  lemma {:induction false} LinkedSlots(t: Shape, p: int, g: Graph, s: int)
    requires Linked(t, p, g, s)
    ensures forall x | x in Ids(t) :: Slots(g, x)
  {
    if t.Node? {
      LinkedSlots(t.left, t.id, g, s);
      LinkedSlots(t.right, t.id, g, s);
    }
  }

  /** g and g' hold the same slots for every node of U. */
  ghost predicate Agree(u: set<int>, g: Graph, g': Graph) {
    forall x | x in u ::
      Slots(g, x) && Slots(g', x) &&
      g'.left[x] == g.left[x] && g'.right[x] == g.right[x] && g'.parent[x] == g.parent[x]
  }

  /** Graphs that differ only at the nodes of w agree away from w. */
  ghost predicate SameAway(g: Graph, g': Graph, w: set<int>) {
    (forall x | x in g.left && x !in w :: x in g'.left && g'.left[x] == g.left[x]) &&
    (forall x | x in g.right && x !in w :: x in g'.right && g'.right[x] == g.right[x]) &&
    (forall x | x in g.parent && x !in w :: x in g'.parent && g'.parent[x] == g.parent[x])
  }

  lemma AgreeAway(u: set<int>, g: Graph, g': Graph, w: set<int>)
    requires forall x | x in u :: Slots(g, x)
    requires u !! w && SameAway(g, g', w)
    ensures Agree(u, g, g')
  {
  }

  /** s and s' designate the same node of U (or none of them). */
  ghost predicate SameSynth(u: set<int>, s: int, s': int) {
    forall x | x in u :: x == s <==> x == s'
  }

  lemma Narrow(u: set<int>, u': set<int>, g: Graph, g': Graph, s: int, s': int)
    requires u' <= u
    ensures Agree(u, g, g') ==> Agree(u', g, g')
    ensures SameSynth(u, s, s') ==> SameSynth(u', s, s')
  {
    if Agree(u, g, g') {
      forall x | x in u' ensures x in u { }
    }
    if SameSynth(u, s, s') {
      forall x | x in u' ensures x in u { }
    }
  }

  lemma {:induction false} LinkedFrame(t: Shape, p: int, g: Graph, s: int, g': Graph, s': int)
    requires Linked(t, p, g, s) && Agree(Ids(t), g, g') && SameSynth(Ids(t), s, s')
    ensures Linked(t, p, g', s')
  {
    match t
    case Empty =>
    case Node(l, x, r) =>
      LinkedFrame(l, x, g, s, g', s');
      LinkedFrame(r, x, g, s, g', s');
  }

  lemma {:induction false} LinkedCtxFrame(ctx: Ctx, below: int, top: int, g: Graph, s: int, g': Graph, s': int)
    requires LinkedCtx(ctx, below, top, g, s) && Agree(CtxIds(ctx), g, g') && SameSynth(CtxIds(ctx), s, s')
    ensures LinkedCtx(ctx, below, top, g', s')
    decreases |ctx|
  {
    if ctx != [] {
      LinkedFrame(ctx[0].sib, ctx[0].pid, g, s, g', s');
      LinkedCtxFrame(ctx[1..], ctx[0].pid, top, g, s, g', s');
    }
  }

  /** Re-hanging a subtree below another parent only touches its root's parent slot. */
  lemma LinkedRetarget(t: Shape, p: int, g: Graph, s: int, p': int, g': Graph)
    requires Linked(t, p, g, s) && Distinct(t) && t.Node?
    requires Agree(Ids(t) - {t.id}, g, g')
    requires Slots(g', t.id) && g'.parent[t.id] == p'
    requires g'.left[t.id] == g.left[t.id] && g'.right[t.id] == g.right[t.id]
    ensures Linked(t, p', g', s)
  {
    LinkedFrame(t.left, t.id, g, s, g', s);
    LinkedFrame(t.right, t.id, g, s, g', s);
  }

  /** Re-pointing the parent's slot at a new focus keeps every other frame. */
  lemma LinkedCtxRelink(ctx: Ctx, below: int, below': int, top: int, g: Graph, s: int, g': Graph)
    requires LinkedCtx(ctx, below, top, g, s) && CtxDistinct(ctx) && ctx != []
    requires Agree(CtxIds(ctx) - {ctx[0].pid}, g, g')
    requires Slots(g', ctx[0].pid)
    requires g'.parent[ctx[0].pid] == g.parent[ctx[0].pid]
    requires ctx[0].LeftOf? ==> g'.left[ctx[0].pid] == LeftVal(below', ctx[0].pid, s) &&
                                g'.right[ctx[0].pid] == g.right[ctx[0].pid]
    requires ctx[0].RightOf? ==> g'.right[ctx[0].pid] == below' &&
                                 g'.left[ctx[0].pid] == g.left[ctx[0].pid]
    ensures LinkedCtx(ctx, below', top, g', s)
  {
    var q := ctx[0].pid;
    assert Ids(ctx[0].sib) <= CtxIds(ctx) - {q};
    assert CtxIds(ctx[1..]) <= CtxIds(ctx) - {q};
    LinkedFrame(ctx[0].sib, q, g, s, g', s);
    LinkedCtxFrame(ctx[1..], q, top, g, s, g', s);
  }

  /** LinkedCtx with the outermost frame re-hung below another `top`. */
  lemma {:induction false} LinkedCtxRetop(ctx: Ctx, below: int, top: int, g: Graph, s: int, top': int, g': Graph)
    requires LinkedCtx(ctx, below, top, g, s) && CtxDistinct(ctx) && ctx != []
    requires Agree(CtxIds(ctx) - {ctx[|ctx| - 1].pid}, g, g')
    requires Slots(g, ctx[|ctx| - 1].pid) && Slots(g', ctx[|ctx| - 1].pid)
    requires g'.parent[ctx[|ctx| - 1].pid] == top'
    requires g'.left[ctx[|ctx| - 1].pid] == g.left[ctx[|ctx| - 1].pid]
    requires g'.right[ctx[|ctx| - 1].pid] == g.right[ctx[|ctx| - 1].pid]
    ensures LinkedCtx(ctx, below, top', g', s)
    decreases |ctx|
  {
    var q := ctx[0].pid;
    LastPidInCtxIds(ctx);
    assert Ids(ctx[0].sib) <= CtxIds(ctx) - {ctx[|ctx| - 1].pid};
    LinkedFrame(ctx[0].sib, q, g, s, g', s);
    if |ctx| > 1 {
      assert ctx[1..][|ctx[1..]| - 1] == ctx[|ctx| - 1];
      LastPidInCtxIds(ctx[1..]);
      assert q != ctx[|ctx| - 1].pid;
      assert CtxIds(ctx[1..]) <= CtxIds(ctx);
      LinkedCtxRetop(ctx[1..], q, top, g, s, top', g');
    }
  }

  lemma LastPidInCtxIds(ctx: Ctx)
    requires ctx != []
    ensures ctx[|ctx| - 1].pid in CtxIds(ctx)
    ensures CtxDistinct(ctx) ==> ctx[|ctx| - 1].pid !in Ids(ctx[0].sib)
    decreases |ctx|
  {
    if |ctx| > 1 {
      assert ctx[1..][|ctx[1..]| - 1] == ctx[|ctx| - 1];
      LastPidInCtxIds(ctx[1..]);
    }
  }

  /** The slots of a node of an encoded tree. */
  lemma LinkedAtFocus(t: Shape, top: int, g: Graph, s: int, x: int)
    requires Linked(t, top, g, s) && x in Ids(t)
    ensures Linked(Focus(t, x).1, Up(Focus(t, x).0, top), g, s)
    ensures LinkedCtx(Focus(t, x).0, x, top, g, s)
    ensures Slots(g, x) && g.parent[x] == Up(Focus(t, x).0, top)
    ensures g.left[x] == LeftVal(Link(Focus(t, x).1.left), x, s) && g.right[x] == Link(Focus(t, x).1.right)
  {
    var (ctx, sub) := Focus(t, x);
    LinkedPlug(ctx, sub, top, g, s);
  }

  /** Rewriting the slots of one node x of t so that they still encode t
      (possibly with another synthetic leaf) keeps t encoded. */
  lemma LinkedRewriteNode(t: Shape, top: int, g: Graph, s: int, x: int, g': Graph, s': int)
    requires Linked(t, top, g, s) && Distinct(t) && x in Ids(t)
    requires Agree(Ids(t) - {x}, g, g') && SameSynth(Ids(t) - {x}, s, s')
    requires Slots(g, x) && Slots(g', x) && g'.parent[x] == g.parent[x] && g'.right[x] == g.right[x]
    requires g'.left[x] == LeftVal(Link(Focus(t, x).1.left), x, s')
    ensures Linked(t, top, g', s')
  {
    var (ctx, sub) := Focus(t, x);
    LinkedPlug(ctx, sub, top, g, s);
    DistinctPlug(ctx, sub);
    IdsPlug(ctx, sub);
    Narrow(Ids(t) - {x}, Ids(sub.left), g, g', s, s');
    Narrow(Ids(t) - {x}, Ids(sub.right), g, g', s, s');
    Narrow(Ids(t) - {x}, CtxIds(ctx), g, g', s, s');
    LinkedFrame(sub.left, x, g, s, g', s');
    LinkedFrame(sub.right, x, g, s, g', s');
    LinkedCtxFrame(ctx, x, top, g, s, g', s');
    LinkedPlug(ctx, sub, top, g', s');
  }

  // ---- the sentinel and its caches ----

  /** The cache that update_left fills: the leftmost node in in-order and pre-order,
      or the left-preferring deepest leaf in post-order. */
  function LeftTarget(t: Shape, w: WalkType): int
    requires t.Node?
  {
    if w == PostOrder then LeftDeepLeaf(t) else Leftmost(t)
  }

  /** The cache that update_right stores in `end_node_.parent`. */
  function RightTarget(t: Shape, w: WalkType): int
    requires t.Node?
  {
    if w == PreOrder then RightDeepLeaf(t) else Rightmost(t)
  }

  /** The node whose empty left slot carries the synthetic link to END: in a
      pre-order tree the node `end_node_.parent` names. */
  ghost function SynthOf(g: Graph, w: WalkType): int {
    if w == PreOrder && END in g.parent then g.parent[END] else NIL
  }

  /** The sentinel slot holding the root (get_root, tree.h:305-319). */
  function RootOf(g: Graph, w: WalkType): int
    requires END in g.left && END in g.right
  {
    if w == PostOrder then g.right[END] else g.left[END]
  }

  /** The sentinel slot update_left writes. */
  function LeftCacheOf(g: Graph, w: WalkType): int
    requires END in g.left && END in g.right
  {
    if w == PostOrder then g.left[END] else g.right[END]
  }

  /** The slots of g encode t below the sentinel, and the root slot names its root;
      the other sentinel caches may be stale. */
  ghost predicate Encodes(t: Shape, g: Graph, w: WalkType) {
    Distinct(t) &&
    Ids(t) + {END} <= g.left.Keys && g.right.Keys == g.left.Keys && g.parent.Keys == g.left.Keys &&
    g.parent[END] in g.left &&
    Linked(t, END, g, SynthOf(g, w)) &&
    RootOf(g, w) == (if t.Empty? then END else t.id)
  }

  /** Encodes, and every allocated handle is below `next`. */
  ghost predicate WfLinks(t: Shape, g: Graph, next: int, w: WalkType) {
    Encodes(t, g, w) && next >= 1 && (forall y | y in g.left :: y < next)
  }

  /** The sentinel caches of tree.h:259-303: all END in an empty tree; otherwise the
      update_left target, the update_right target, and in pre-order the synthetic
      link from that last node back to END. */
  ghost predicate CachesOf(t: Shape, g: Graph, w: WalkType)
    requires END in g.left && END in g.right && END in g.parent
  {
    (t.Empty? ==> g.left[END] == END && g.right[END] == END && g.parent[END] == END) &&
    (t.Node? ==> LeftCacheOf(g, w) == LeftTarget(t, w) && g.parent[END] == RightTarget(t, w)) &&
    (w == PreOrder ==> g.parent[END] in g.left && g.left[g.parent[END]] == END)
  }
}
