/** Unlinking one node from the arena: cut (tree.h:454-502) with its helpers
    get_next (tree.h:321-337) and the update_parent lambda (tree.h:460-467). The
    slot writes are proved to encode CutAt, the shape with that node cut out. */
module TreeCut {
  import opened TreeShape
  import opened TreeGraph
  import opened TreeOrder
  import opened TreeSteps

  // ---- the leftmost node of a subtree as a zipper ----

  /** The subtree rooted at the leftmost node of t. */
  function LeftFocus(t: Shape): (r: Shape)
    requires t.Node?
    ensures r.Node? && r.left.Empty? && r.id == Leftmost(t)
  {
    if t.left.Empty? then t else LeftFocus(t.left)
  }

  /** The frames between the leftmost node of t and the root of t. */
  function LeftPath(t: Shape): (c: Ctx)
    requires t.Node?
    ensures c == [] <==> t.left.Empty?
    ensures c != [] ==> c[0].LeftOf?
  {
    if t.left.Empty? then [] else LeftPath(t.left) + [LeftOf(t.id, t.right)]
  }

  lemma {:induction false} LeftPathPlug(t: Shape)
    requires t.Node?
    ensures Plug(LeftPath(t), LeftFocus(t)) == t
    ensures Plug(LeftPath(t), LeftFocus(t).right) == RemoveLeftmost(t)
  {
    if t.left.Node? {
      LeftPathPlug(t.left);
      PlugAppend(LeftPath(t.left), LeftOf(t.id, t.right), LeftFocus(t.left));
      PlugAppend(LeftPath(t.left), LeftOf(t.id, t.right), LeftFocus(t.left).right);
    }
  }

  // ---- the slot writes ----

  /** The update_parent lambda (tree.h:460-467): whichever slots of o's parent
      point at o are redirected to n. */
  function UpdateParent(g: Graph, o: int, n: int): Graph
    requires o in g.parent && g.parent[o] in g.left && g.parent[o] in g.right
  {
    var p := g.parent[o];
    var g1 := if g.right[p] == o then g.(right := g.right[p := n]) else g;
    if g1.left[p] == o then g1.(left := g1.left[p := n]) else g1
  }

  /** The writes of UpdateParent touch only the parent of o, and allocate nothing. */
  lemma UpdateParentFacts(g: Graph, o: int, n: int)
    requires o in g.parent && g.parent[o] in g.left && g.parent[o] in g.right
    ensures SameKeys(g, UpdateParent(g, o, n)) && UpdateParent(g, o, n).parent == g.parent
    ensures SameAway(g, UpdateParent(g, o, n), {g.parent[o]})
    ensures var g', p := UpdateParent(g, o, n), g.parent[o];
            g'.left[p] == (if g.left[p] == o then n else g.left[p]) &&
            g'.right[p] == (if g.right[p] == o then n else g.right[p])
  {
  }

  /** Same allocated handles. */
  ghost predicate SameKeys(g: Graph, g': Graph) {
    g'.left.Keys == g.left.Keys && g'.right.Keys == g.right.Keys && g'.parent.Keys == g.parent.Keys
  }

  /** Writing the parent slot of an allocated node c. */
  function SetParent(g: Graph, c: int, v: int): Graph {
    g.(parent := g.parent[c := v])
  }

  lemma SetParentFacts(g: Graph, c: int, v: int)
    requires c in g.parent
    ensures SameKeys(g, SetParent(g, c, v)) && SameAway(g, SetParent(g, c, v), {c})
  {
  }

  /** The synthetic leaf s, if any, carries the synthetic link. */
  ghost predicate SynthLeaf(g: Graph, s: int) {
    s == NIL || (s in g.left && g.left[s] == END)
  }

  /** Replacing the subtree sub of t == Plug(ctx, sub) by sub', encoded below the
      same parent, with the parent's child slot redirected and no other slot of the
      context touched, encodes Plug(ctx, sub'). */
  lemma SpliceAt(t: Shape, g: Graph, sy: int, ctx: Ctx, sub: Shape, sub': Shape, g': Graph, w: set<int>)
    requires Linked(t, END, g, sy) && Distinct(t) && Plug(ctx, sub) == t && sub.Node?
    requires Linked(sub', Up(ctx, END), g', sy)
    requires w <= Ids(sub) + {Up(ctx, END), NIL} && SameAway(g, g', w + {Up(ctx, END)})
    requires ctx != [] ==> Slots(g, ctx[0].pid) && Slots(g', ctx[0].pid) && g'.parent[ctx[0].pid] == g.parent[ctx[0].pid]
    requires ctx != [] && ctx[0].LeftOf? ==>
               g'.left[ctx[0].pid] == LeftVal(Link(sub'), ctx[0].pid, sy) && g'.right[ctx[0].pid] == g.right[ctx[0].pid]
    requires ctx != [] && ctx[0].RightOf? ==>
               g'.right[ctx[0].pid] == Link(sub') && g'.left[ctx[0].pid] == g.left[ctx[0].pid]
    ensures Linked(Plug(ctx, sub'), END, g', sy)
  {
    LinkedPlug(ctx, sub, END, g, sy);
    if ctx != [] {
      var q := ctx[0].pid;
      LinkedSlots(t, END, g, sy);
      DistinctPositive(t);
      IdsPlug(ctx, sub);
      DistinctPlug(ctx, sub);
      AgreeAway(CtxIds(ctx) - {q}, g, g', w + {q});
      LinkedCtxRelink(ctx, sub.id, Link(sub'), END, g, sy, g');
    }
    LinkedPlug(ctx, sub', END, g', sy);
  }

  /** What every case of cut establishes: the slots encode the shape with the
      subtree sub replaced by CutShape(sub), the same handles are allocated, and
      a sentinel slot changes only if it pointed at the cut root. */
  ghost predicate CutPost(g: Graph, g': Graph, sy: int, ctx: Ctx, sub: Shape)
    requires sub.Node?
  {
    Linked(Plug(ctx, CutShape(sub)), END, g', sy) && SameKeys(g, g') &&
    Slots(g, END) && g'.parent[END] == g.parent[END] &&
    (ctx != [] ==> g'.left[END] == g.left[END] && g'.right[END] == g.right[END]) &&
    (ctx == [] ==>
       g'.left[END] == (if g.left[END] == sub.id then Link(CutShape(sub)) else g.left[END]) &&
       g'.right[END] == (if g.right[END] == sub.id then Link(CutShape(sub)) else g.right[END]))
  }

  /** What every case of cut relies on: sub is the subtree at the node being cut. */
  ghost predicate CutPre(t: Shape, g: Graph, sy: int, ctx: Ctx, sub: Shape) {
    Linked(t, END, g, sy) && Distinct(t) && Plug(ctx, sub) == t && sub.Node? && Slots(g, END) &&
    SynthLeaf(g, sy) && g.right.Keys == g.left.Keys && g.parent.Keys == g.left.Keys
  }

  /** The slots around the node being cut. */
  lemma CutSlots(t: Shape, g: Graph, sy: int, ctx: Ctx, sub: Shape)
    requires CutPre(t, g, sy, ctx, sub)
    ensures Linked(sub, Up(ctx, END), g, sy) && Distinct(sub) && sub.id >= 1
    ensures Slots(g, sub.id) && g.parent[sub.id] == Up(ctx, END) && Slots(g, Up(ctx, END))
    ensures g.left[sub.id] == LeftVal(Link(sub.left), sub.id, sy) && g.right[sub.id] == Link(sub.right)
    ensures Up(ctx, END) !in Ids(sub) && END !in Ids(sub)
    ensures ctx != [] ==> ctx[0].pid >= 1 && Link(ctx[0].sib) != sub.id
    ensures ctx != [] && ctx[0].LeftOf? ==> g.left[ctx[0].pid] == sub.id && g.right[ctx[0].pid] == Link(ctx[0].sib)
    ensures ctx != [] && ctx[0].LeftOf? ==> ctx[0].pid != sy
    ensures ctx != [] && ctx[0].RightOf? ==> g.right[ctx[0].pid] == sub.id && g.left[ctx[0].pid] == LeftVal(Link(ctx[0].sib), ctx[0].pid, sy)
  {
    ZipperSlots(t, g, sy, ctx, sub);
    DistinctPositive(sub);
    if ctx != [] {
      DistinctPlug(ctx, sub);
      IdsPlug(ctx, sub);
    }
  }

  /** A leaf is unlinked from its parent (tree.h:468-473, with the test of the
      left slot as evidently intended). */
  method CutLeaf(g: Graph, x: int, ghost t: Shape, ghost sy: int, ghost ctx: Ctx, ghost sub: Shape) returns (g': Graph)
    requires CutPre(t, g, sy, ctx, sub) && x == sub.id && sub.left.Empty? && sub.right.Empty? && ctx != []
    ensures CutPost(g, g', sy, ctx, sub)
  {
    CutSlots(t, g, sy, ctx, sub);
    g' := UpdateParent(g, x, NIL);
    UpdateParentFacts(g, x, NIL);
    SpliceAt(t, g, sy, ctx, sub, Empty, g', {});
  }

  /** A node with only a left child is replaced by that child (tree.h:474-479). */
  method CutOnlyLeft(g: Graph, x: int, ghost t: Shape, ghost sy: int, ghost ctx: Ctx, ghost sub: Shape) returns (g': Graph)
    requires CutPre(t, g, sy, ctx, sub) && x == sub.id && sub.left.Node? && sub.right.Empty?
    ensures CutPost(g, g', sy, ctx, sub)
  {
    CutSlots(t, g, sy, ctx, sub);
    var l := g.left[x];
    var g1 := UpdateParent(g, x, l);
    g' := SetParent(g1, l, g.parent[x]);
    UpdateParentFacts(g, x, l);
    SetParentFacts(g1, l, g.parent[x]);
    LinkedSlots(sub, Up(ctx, END), g, sy);
    AgreeAway(Ids(sub.left) - {l}, g, g', {l, Up(ctx, END)});
    LinkedRetarget(sub.left, x, g, sy, Up(ctx, END), g');
    SpliceAt(t, g, sy, ctx, sub, sub.left, g', {l});
  }

  /** A node with only a right child is replaced by that child (tree.h:480-485). */
  method CutOnlyRight(g: Graph, x: int, ghost t: Shape, ghost sy: int, ghost ctx: Ctx, ghost sub: Shape) returns (g': Graph)
    requires CutPre(t, g, sy, ctx, sub) && x == sub.id && sub.left.Empty? && sub.right.Node?
    ensures CutPost(g, g', sy, ctx, sub)
  {
    CutSlots(t, g, sy, ctx, sub);
    var r := g.right[x];
    var g1 := UpdateParent(g, x, r);
    g' := SetParent(g1, r, g.parent[x]);
    UpdateParentFacts(g, x, r);
    SetParentFacts(g1, r, g.parent[x]);
    LinkedSlots(sub, Up(ctx, END), g, sy);
    AgreeAway(Ids(sub.right) - {r}, g, g', {r, Up(ctx, END)});
    LinkedRetarget(sub.right, x, g, sy, Up(ctx, END), g');
    SpliceAt(t, g, sy, ctx, sub, sub.right, g', {r});
  }

  // ---- the node with two children (tree.h:486-501) ----

  /** get_next (tree.h:321-337) as evidently intended: from the right child, follow
      left links (a synthetic link to END is none) to the in-order successor. */
  method GetNext(g: Graph, x: int, ghost sub: Shape, ghost p: int, ghost sy: int) returns (next: int)
    requires sub.Node? && sub.right.Node? && x == sub.id && Linked(sub, p, g, sy) && Distinct(sub)
    ensures next == Leftmost(sub.right)
  {
    DistinctPositive(sub);
    next := g.right[x];
    ghost var cur, q := sub.right, x;
    while g.left[next] != NIL && g.left[next] != END
      invariant cur.Node? && next == cur.id && Ids(cur) <= Ids(sub) && Linked(cur, q, g, sy) && Leftmost(cur) == Leftmost(sub.right)
      decreases cur
    {
      q, next, cur := next, g.left[next], cur.left;
    }
  }

  /** Writing the left slot, or the right slot, of an allocated node c. */
  function SetLeft(g: Graph, c: int, v: int): Graph {
    g.(left := g.left[c := v])
  }

  function SetRight(g: Graph, c: int, v: int): Graph {
    g.(right := g.right[c := v])
  }

  /** Where the handles of r sit around its leftmost node. */
  lemma LeftFocusIds(r: Shape)
    requires r.Node? && r.left.Node? && Distinct(r)
    ensures var mn, cR := LeftFocus(r), LeftPath(r);
            Plug(cR, mn) == r && Ids(r) == {mn.id} + Ids(mn.right) + CtxIds(cR) &&
            mn.id !in Ids(mn.right) && Ids(mn.right) !! CtxIds(cR) && mn.id !in CtxIds(cR) &&
            cR[0].pid in CtxIds(cR) && r.id in CtxIds(cR) && r.id == cR[|cR| - 1].pid &&
            CtxDistinct(cR) && Distinct(mn) && Distinct(mn.right)
  {
    LeftPathPlug(r);
    var mn, cR := LeftFocus(r), LeftPath(r);
    DistinctPlug(cR, mn);
    IdsPlug(cR, mn);
    PlugRoot(cR, mn);
    LastPidInCtxIds(cR);
  }

  lemma InterNarrow(w: set<int>, a: set<int>, b: set<int>, s: set<int>, t: set<int>)
    requires w * a <= s && b <= a && b !! (s - t)
    ensures w * b <= t
  {
  }

  /** m's right subtree, re-hung below q. */
  lemma MoveUpLinked(mn: Shape, q: int, g: Graph, sy: int, g': Graph, w: set<int>)
    requires mn.Node? && Linked(mn, q, g, sy) && Distinct(mn) && mn.right.Node?
    requires SameAway(g, g', w) && w * Ids(mn.right) <= {mn.right.id}
    requires Slots(g, mn.right.id) && Slots(g', mn.right.id) && g'.parent[mn.right.id] == q
    requires g'.left[mn.right.id] == g.left[mn.right.id] && g'.right[mn.right.id] == g.right[mn.right.id]
    ensures Linked(mn.right, q, g', sy)
  {
    LinkedSlots(mn.right, mn.id, g, sy);
    AgreeAway(Ids(mn.right) - {mn.right.id}, g, g', w);
    LinkedRetarget(mn.right, mn.id, g, sy, q, g');
  }

  /** The frames above m after q adopts m's right subtree and r hangs below top'. */
  lemma SpineLinked(r: Shape, top: int, g: Graph, sy: int, top': int, g': Graph, w: set<int>)
    requires Linked(r, top, g, sy) && Distinct(r) && r.Node? && r.left.Node? && SynthLeaf(g, sy)
    requires var mn, q := LeftFocus(r), LeftPath(r)[0].pid;
             SameAway(g, g', w) && w * Ids(r) <= {mn.id, q, r.id, Link(mn.right)} &&
             Slots(g, q) && Slots(g', q) && Slots(g, r.id) && Slots(g', r.id) &&
             g'.left[q] == Link(mn.right) && g'.right[q] == g.right[q] && (q != r.id ==> g'.parent[q] == g.parent[q]) &&
             g'.parent[r.id] == top' && g'.right[r.id] == g.right[r.id] && (q != r.id ==> g'.left[r.id] == g.left[r.id])
    ensures LinkedCtx(LeftPath(r), Link(LeftFocus(r).right), top', g', sy)
  {
    LeftFocusIds(r);
    var mn, cR := LeftFocus(r), LeftPath(r);
    var m, q, mr := mn.id, cR[0].pid, Link(mn.right);
    SpineRelink(r, top, g, sy);
    var gI := SetLeft(g, q, mr);
    DistinctPositive(r);
    assert mr !in CtxIds(cR);
    InterNarrow(w, Ids(r), CtxIds(cR) - {r.id, q}, {m, q, r.id, mr}, {});
    LinkedSlots(r, top, g, sy);
    AgreeAway(CtxIds(cR) - {r.id, q}, g, g', w);
    assert Agree(CtxIds(cR) - {r.id}, gI, g');
    LinkedCtxRetop(cR, mr, top, gI, sy, top', g');
  }

  /** The frames above m once q adopts m's right subtree. */
  lemma SpineRelink(r: Shape, top: int, g: Graph, sy: int)
    requires Linked(r, top, g, sy) && Distinct(r) && r.Node? && r.left.Node? && SynthLeaf(g, sy)
    ensures LeftPath(r)[0].pid in g.left
    ensures LinkedCtx(LeftPath(r), Link(LeftFocus(r).right), top,
                      SetLeft(g, LeftPath(r)[0].pid, Link(LeftFocus(r).right)), sy)
  {
    LeftFocusIds(r);
    var mn, cR := LeftFocus(r), LeftPath(r);
    var m, q, mr := mn.id, cR[0].pid, Link(mn.right);
    LinkedPlug(cR, mn, top, g, sy);
    LinkedSlots(r, top, g, sy);
    var gI := SetLeft(g, q, mr);
    assert g.left[q] == m;
    AgreeAway(CtxIds(cR) - {q}, g, gI, {q});
    LinkedCtxRelink(cR, m, mr, top, g, sy, gI);
  }

  /** Splicing the leftmost node m out of r: its parent q adopts m's right
      subtree, and the root of r is re-hung below top'. */
  lemma RemoveLeftmostLinked(r: Shape, top: int, g: Graph, sy: int, top': int, g': Graph, w: set<int>)
    requires Linked(r, top, g, sy) && Distinct(r) && r.Node? && r.left.Node? && SynthLeaf(g, sy)
    requires var mn, q := LeftFocus(r), LeftPath(r)[0].pid;
             SameAway(g, g', w) && w * Ids(r) <= {mn.id, q, r.id, Link(mn.right)} &&
             Slots(g, q) && Slots(g', q) && Slots(g, r.id) && Slots(g', r.id) &&
             g'.left[q] == Link(mn.right) && g'.right[q] == g.right[q] && (q != r.id ==> g'.parent[q] == g.parent[q]) &&
             (mn.right.Node? ==> Slots(g, mn.right.id) && Slots(g', mn.right.id) && g'.parent[mn.right.id] == q &&
                                 g'.left[mn.right.id] == g.left[mn.right.id] && g'.right[mn.right.id] == g.right[mn.right.id]) &&
             g'.parent[r.id] == top' && g'.right[r.id] == g.right[r.id] && (q != r.id ==> g'.left[r.id] == g.left[r.id])
    ensures Linked(RemoveLeftmost(r), top', g', sy)
  {
    LeftFocusIds(r);
    LeftPathPlug(r);
    var mn, cR := LeftFocus(r), LeftPath(r);
    LinkedPlug(cR, mn, top, g, sy);
    if mn.right.Node? {
      InterNarrow(w, Ids(r), Ids(mn.right), {mn.id, cR[0].pid, r.id, Link(mn.right)}, {mn.right.id});
      MoveUpLinked(mn, cR[0].pid, g, sy, g', w);
    }
    SpineLinked(r, top, g, sy, top', g', w);
    LinkedPlug(cR, mn.right, top', g', sy);
  }

  /** The subtree after its root x is replaced by the in-order successor m:
      m takes x's left subtree and what remains of x's right subtree. */
  lemma SuccessorLinked(sub: Shape, p: int, g: Graph, sy: int, g': Graph, w: set<int>)
    requires Linked(sub, p, g, sy) && Distinct(sub) && sub.Node? && sub.left.Node? && sub.right.Node? && SynthLeaf(g, sy)
    requires SameAway(g, g', w) && w * Ids(sub.left) <= {sub.left.id}
    requires var l, m := sub.left.id, Leftmost(sub.right);
             Slots(g, l) && Slots(g', l) && g'.parent[l] == m && g'.left[l] == g.left[l] && g'.right[l] == g.right[l] &&
             Slots(g', m) && g'.parent[m] == p && g'.left[m] == l && g'.right[m] == Link(RemoveLeftmost(sub.right))
    requires Linked(RemoveLeftmost(sub.right), Leftmost(sub.right), g', sy)
    ensures Linked(CutShape(sub), p, g', sy)
  {
    LinkedSlots(sub.left, sub.id, g, sy);
    DistinctPositive(sub);
    AgreeAway(Ids(sub.left) - {sub.left.id}, g, g', w);
    LinkedRetarget(sub.left, sub.id, g, sy, Leftmost(sub.right), g');
  }

  /** The slots the two-children case reads and writes, for x with left child l and
      right child R, in-order successor m, m's parent q, m's right link mr, and x's parent p. */
  ghost predicate TwoFacts(g: Graph, x: int, l: int, R: int, m: int, q: int, mr: int, p: int, sy: int) {
    Slots(g, x) && Slots(g, l) && Slots(g, R) && Slots(g, m) && Slots(g, q) && Slots(g, p) &&
    g.left[x] == l && g.right[x] == R && g.parent[x] == p && g.parent[m] == q && g.right[m] == mr &&
    x >= 1 && l >= 1 && R >= 1 && m >= 1 && q >= 1 && p != NIL && mr != END &&
    l != x && l != m && l != R && R != x && R != p && m != x && q != m && q != l &&
    p != x && p != l && p != m && p != q && q != sy &&
    (q == x <==> m == R) && (q != x ==> g.left[q] == m) &&
    (mr != NIL ==> Slots(g, mr) && mr != x && mr != l && mr != R && mr != m && mr != q && mr != p)
  }

  lemma TwoSlots(t: Shape, g: Graph, sy: int, ctx: Ctx, sub: Shape)
    requires CutPre(t, g, sy, ctx, sub) && sub.left.Node? && sub.right.Node?
    ensures var r := sub.right;
            TwoFacts(g, sub.id, sub.left.id, r.id, Leftmost(r), if r.left.Empty? then sub.id else LeftPath(r)[0].pid,
                     Link(LeftFocus(r).right), Up(ctx, END), sy) &&
            (r.left.Node? ==> LeftPath(r)[0].pid != sub.id)
  {
    CutSlots(t, g, sy, ctx, sub);
    var l, r, p := sub.left, sub.right, Up(ctx, END);
    LinkedSlots(sub, p, g, sy);
    DistinctPositive(sub);
    var mn := LeftFocus(r);
    if r.left.Empty? {
      assert mn == r;
    } else {
      LeftFocusIds(r);
      LeftPathPlug(r);
      var cR := LeftPath(r);
      LinkedPlug(cR, mn, sub.id, g, sy);
      LinkedSlots(r, sub.id, g, sy);
      DistinctPositive(mn);
    }
  }

  /** The writes of tree.h:488-496, when m sits deeper than R, as map updates. */
  lemma DeepSteps(g: Graph, x: int, l: int, R: int, m: int, q: int, mr: int, p: int, sy: int,
                  g1: Graph, g2: Graph, g3: Graph, g4: Graph, g5: Graph, g6: Graph, g7: Graph)
    requires TwoFacts(g, x, l, R, m, q, mr, p, sy) && q != x
    requires g1 == SetParent(g, g.left[x], m) && g2 == SetLeft(g1, m, g1.left[x])
    requires g3 == (if g2.right[m] != NIL && g2.right[m] != END then SetParent(g2, g2.right[m], g2.parent[m]) else g2)
    requires g4 == SetLeft(g3, g3.parent[m], g3.right[m]) && g5 == SetRight(g4, m, g4.right[x])
    requires g6 == SetParent(g5, g5.right[m], m) && g7 == SetParent(g6, m, g6.parent[x])
    ensures g7.left == g.left[m := l][q := mr] && g7.right == g.right[m := R]
    ensures g7.parent == (if mr != NIL then g.parent[l := m][mr := q] else g.parent[l := m])[R := m][m := p]
  {
    assert g2.parent == g1.parent && g2.right == g.right && g2.parent[m] == q;
    assert g3.left == g2.left && g3.right == g.right && g3.parent[m] == q && g3.parent[x] == p;
  }

  /** The slots after the writes of tree.h:488-497, when m sits deeper than R: what
      changed, and the slots of l, m and x's parent. */
  lemma DeepWrites(g: Graph, x: int, l: int, R: int, m: int, q: int, mr: int, p: int, sy: int, g7: Graph, g': Graph)
    requires TwoFacts(g, x, l, R, m, q, mr, p, sy) && q != x
    requires g7.left == g.left[m := l][q := mr] && g7.right == g.right[m := R]
    requires g7.parent == (if mr != NIL then g.parent[l := m][mr := q] else g.parent[l := m])[R := m][m := p]
    requires g' == UpdateParent(g7, x, m)
    ensures DeepAt(g, g', x, l, R, m, q, mr, p)
  {
    UpdateParentMaps(g7, x, m);
  }

  /** What the deep case leaves at l, m and x's parent, and where it wrote. */
  ghost predicate DeepAt(g: Graph, g': Graph, x: int, l: int, R: int, m: int, q: int, mr: int, p: int)
    requires Slots(g, l) && Slots(g, p)
  {
    SameKeys(g, g') && SameAway(g, g', {l, m, q, R, mr, p}) &&
    Slots(g', l) && Slots(g', m) && Slots(g', p) &&
    g'.parent[l] == m && g'.left[l] == g.left[l] && g'.right[l] == g.right[l] &&
    g'.parent[m] == p && g'.left[m] == l && g'.right[m] == R &&
    g'.parent[p] == g.parent[p] &&
    g'.left[p] == (if g.left[p] == x then m else g.left[p]) &&
    g'.right[p] == (if g.right[p] == x then m else g.right[p])
  }

  /** What the deep case leaves at q, at m's former right child and at R. */
  ghost predicate DeepBelow(g: Graph, g': Graph, l: int, R: int, m: int, q: int, mr: int)
    requires Slots(g, q) && Slots(g, R) && (mr != NIL ==> Slots(g, mr))
  {
    Slots(g', q) && Slots(g', R) &&
    g'.left[q] == mr && g'.right[q] == g.right[q] && (q != R ==> g'.parent[q] == g.parent[q]) &&
    (mr != NIL ==> Slots(g', mr) && g'.parent[mr] == q && g'.left[mr] == g.left[mr] && g'.right[mr] == g.right[mr]) &&
    g'.parent[R] == m && g'.right[R] == g.right[R] && (q != R ==> g'.left[R] == g.left[R])
  }

  /** The same writes: the slots of q, of m's former right child and of R. */
  lemma DeepWritesBelow(g: Graph, x: int, l: int, R: int, m: int, q: int, mr: int, p: int, sy: int, g7: Graph, g': Graph)
    requires TwoFacts(g, x, l, R, m, q, mr, p, sy) && q != x
    requires g7.left == g.left[m := l][q := mr] && g7.right == g.right[m := R]
    requires g7.parent == (if mr != NIL then g.parent[l := m][mr := q] else g.parent[l := m])[R := m][m := p]
    requires g' == UpdateParent(g7, x, m)
    ensures DeepBelow(g, g', l, R, m, q, mr)
  {
    UpdateParentMaps(g7, x, m);
  }

  /** UpdateParent as map updates at o's parent. */
  lemma UpdateParentMaps(g: Graph, o: int, n: int)
    requires o in g.parent && g.parent[o] in g.left && g.parent[o] in g.right
    ensures var g', p := UpdateParent(g, o, n), g.parent[o];
            g'.parent == g.parent &&
            g'.left == (if g.left[p] == o then g.left[p := n] else g.left) &&
            g'.right == (if g.right[p] == o then g.right[p := n] else g.right)
  {
  }

  lemma SameAwayTrans(g: Graph, g1: Graph, g2: Graph, a: set<int>, b: set<int>)
    requires SameAway(g, g1, a) && SameAway(g1, g2, b)
    ensures SameAway(g, g2, a + b)
  {
  }

  /** The slots after the writes of tree.h:488-489, 499-500, when m is R itself. */
  lemma NearWrites(g: Graph, x: int, l: int, R: int, m: int, q: int, mr: int, p: int, sy: int,
                   g1: Graph, g2: Graph, g3: Graph, g': Graph)
    requires TwoFacts(g, x, l, R, m, q, mr, p, sy) && q == x
    requires g1 == SetParent(g, g.left[x], m) && g2 == SetLeft(g1, m, g1.left[x])
    requires Slots(g2, x) && g2.parent[x] in g2.left && g2.parent[x] in g2.right && g3 == UpdateParent(g2, x, m)
    requires x in g3.parent && g' == SetParent(g3, m, g3.parent[x])
    ensures NearAt(g, g', x, l, m, p)
  {
    UpdateParentFacts(g2, x, m);
  }

  /** What the near case leaves at l, m and x's parent, and where it wrote. */
  ghost predicate NearAt(g: Graph, g': Graph, x: int, l: int, m: int, p: int)
    requires Slots(g, l) && Slots(g, m) && Slots(g, p)
  {
    SameKeys(g, g') && SameAway(g, g', {l, m, p}) &&
    Slots(g', l) && Slots(g', m) && Slots(g', p) &&
    g'.parent[l] == m && g'.left[l] == g.left[l] && g'.right[l] == g.right[l] &&
    g'.parent[m] == p && g'.left[m] == l && g'.right[m] == g.right[m] &&
    g'.parent[p] == g.parent[p] &&
    g'.left[p] == (if g.left[p] == x then m else g.left[p]) &&
    g'.right[p] == (if g.right[p] == x then m else g.right[p])
  }

  /** The near case of the two-children cut: the successor is x's right child R. */
  lemma NearCase(t: Shape, g: Graph, sy: int, ctx: Ctx, sub: Shape, g1: Graph, g2: Graph, g3: Graph, g': Graph)
    requires CutPre(t, g, sy, ctx, sub) && sub.left.Node? && sub.right.Node? && sub.right.left.Empty?
    requires var x, l, m := sub.id, sub.left.id, sub.right.id;
             TwoFacts(g, x, l, m, m, x, Link(sub.right.right), Up(ctx, END), sy) &&
             g1 == SetParent(g, g.left[x], m) && g2 == SetLeft(g1, m, g1.left[x]) &&
             Slots(g2, x) && g2.parent[x] in g2.left && g2.parent[x] in g2.right && g3 == UpdateParent(g2, x, m) &&
             x in g3.parent && g' == SetParent(g3, m, g3.parent[x])
    ensures CutPost(g, g', sy, ctx, sub)
  {
    var x, l, m, p := sub.id, sub.left.id, sub.right.id, Up(ctx, END);
    NearWrites(g, x, l, m, m, x, Link(sub.right.right), p, sy, g1, g2, g3, g');
    NearFinish(t, g, sy, ctx, sub, g');
  }

  /** The near case from the slots it leaves behind. */
  lemma NearFinish(t: Shape, g: Graph, sy: int, ctx: Ctx, sub: Shape, g': Graph)
    requires CutPre(t, g, sy, ctx, sub) && sub.left.Node? && sub.right.Node? && sub.right.left.Empty?
    requires var x, l, m, p := sub.id, sub.left.id, sub.right.id, Up(ctx, END);
             TwoFacts(g, x, l, m, m, x, Link(sub.right.right), p, sy) && NearAt(g, g', x, l, m, p)
    ensures CutPost(g, g', sy, ctx, sub)
  {
    var x, l, r, p := sub.id, sub.left.id, sub.right, Up(ctx, END);
    var w := {l, r.id, p};
    CutSlots(t, g, sy, ctx, sub);
    TwoIds(sub);
    DistinctPositive(sub);
    LinkedSlots(r.right, r.id, g, sy);
    AgreeAway(Ids(r.right), g, g', w);
    LinkedFrame(r.right, r.id, g, sy, g', sy);
    assert LeftFocus(r) == r;
    SuccessorLinked(sub, p, g, sy, g', w);
    SpliceAt(t, g, sy, ctx, sub, CutShape(sub), g', w);
  }

  /** Where the handles of the two-children case lie. */
  lemma TwoIds(sub: Shape)
    requires sub.Node? && sub.left.Node? && sub.right.Node? && Distinct(sub)
    ensures var r := sub.right;
            Ids(sub) == Ids(sub.left) + {sub.id} + Ids(r) && Ids(sub.left) !! Ids(r) &&
            sub.id !in Ids(sub.left) && sub.id !in Ids(r) && Leftmost(r) in Ids(r) &&
            (r.left.Node? ==> LeftPath(r)[0].pid in Ids(r)) &&
            (LeftFocus(r).right.Node? ==> LeftFocus(r).right.id in Ids(r))
  {
    var r := sub.right;
    DescentsInIds(r);
    if r.left.Node? {
      LeftFocusIds(r);
    }
  }

  /** The nodes the deep case writes, against the subtrees it rearranges. */
  lemma DeepSets(sub: Shape, p: int)
    requires sub.Node? && sub.left.Node? && sub.right.Node? && sub.right.left.Node? && Distinct(sub) && p !in Ids(sub)
    ensures var l, r := sub.left.id, sub.right;
            var m, q, mr := Leftmost(r), LeftPath(r)[0].pid, Link(LeftFocus(r).right);
            var w := {l, m, q, r.id, mr, p};
            w * Ids(r) <= {m, q, r.id, mr} && w * Ids(sub.left) <= {l} && w <= Ids(sub) + {p, NIL} &&
            (LeftFocus(r).right.Node? ==> mr == LeftFocus(r).right.id && mr != NIL)
  {
    TwoIds(sub);
    DistinctPositive(sub);
  }

  /** The deep case of the two-children cut: the successor m sits below R. */
  lemma DeepCase(t: Shape, g: Graph, sy: int, ctx: Ctx, sub: Shape, g7: Graph, g': Graph)
    requires CutPre(t, g, sy, ctx, sub) && sub.left.Node? && sub.right.Node? && sub.right.left.Node?
    requires var x, l, r := sub.id, sub.left.id, sub.right;
             var m, q, mr, p := Leftmost(r), LeftPath(r)[0].pid, Link(LeftFocus(r).right), Up(ctx, END);
             g7.left == g.left[m := l][q := mr] && g7.right == g.right[m := r.id] &&
             g7.parent == (if mr != NIL then g.parent[l := m][mr := q] else g.parent[l := m])[r.id := m][m := p] &&
             Slots(g7, x) && g7.parent[x] in g7.left && g7.parent[x] in g7.right && g' == UpdateParent(g7, x, m)
    ensures CutPost(g, g', sy, ctx, sub)
  {
    var x, l, r := sub.id, sub.left.id, sub.right;
    var m, q, mr, p := Leftmost(r), LeftPath(r)[0].pid, Link(LeftFocus(r).right), Up(ctx, END);
    TwoSlots(t, g, sy, ctx, sub);
    DeepWrites(g, x, l, r.id, m, q, mr, p, sy, g7, g');
    DeepWritesBelow(g, x, l, r.id, m, q, mr, p, sy, g7, g');
    DeepFinish(t, g, sy, ctx, sub, g');
  }

  /** The deep case from the slots it leaves behind. */
  lemma DeepFinish(t: Shape, g: Graph, sy: int, ctx: Ctx, sub: Shape, g': Graph)
    requires CutPre(t, g, sy, ctx, sub) && sub.left.Node? && sub.right.Node? && sub.right.left.Node?
    requires var x, l, r := sub.id, sub.left.id, sub.right;
             var m, q, mr, p := Leftmost(r), LeftPath(r)[0].pid, Link(LeftFocus(r).right), Up(ctx, END);
             TwoFacts(g, x, l, r.id, m, q, mr, p, sy) &&
             DeepAt(g, g', x, l, r.id, m, q, mr, p) && DeepBelow(g, g', l, r.id, m, q, mr)
    ensures CutPost(g, g', sy, ctx, sub)
  {
    var l, r, p := sub.left.id, sub.right, Up(ctx, END);
    var m, q, mr := Leftmost(r), LeftPath(r)[0].pid, Link(LeftFocus(r).right);
    DeepLinked(t, g, sy, ctx, sub, g');
    CutSlots(t, g, sy, ctx, sub);
    DeepSets(sub, p);
    SpliceAt(t, g, sy, ctx, sub, CutShape(sub), g', {l, m, q, r.id, mr, p});
  }

  /** The cut subtree is encoded below x's parent once the deep writes are done. */
  lemma DeepLinked(t: Shape, g: Graph, sy: int, ctx: Ctx, sub: Shape, g': Graph)
    requires CutPre(t, g, sy, ctx, sub) && sub.left.Node? && sub.right.Node? && sub.right.left.Node?
    requires var x, l, r := sub.id, sub.left.id, sub.right;
             var m, q, mr, p := Leftmost(r), LeftPath(r)[0].pid, Link(LeftFocus(r).right), Up(ctx, END);
             TwoFacts(g, x, l, r.id, m, q, mr, p, sy) &&
             DeepAt(g, g', x, l, r.id, m, q, mr, p) && DeepBelow(g, g', l, r.id, m, q, mr)
    ensures Linked(CutShape(sub), Up(ctx, END), g', sy)
  {
    var x, l, r, p := sub.id, sub.left.id, sub.right, Up(ctx, END);
    var m, q, mr := Leftmost(r), LeftPath(r)[0].pid, Link(LeftFocus(r).right);
    var w := {l, m, q, r.id, mr, p};
    CutSlots(t, g, sy, ctx, sub);
    DeepSets(sub, p);
    RemoveLeftmostLinked(r, x, g, sy, m, g', w);
    SuccessorLinked(sub, p, g, sy, g', w);
  }

  /** A node with two children is replaced by its in-order successor (tree.h:486-501). */
  method CutTwo(g: Graph, x: int, ghost t: Shape, ghost sy: int, ghost ctx: Ctx, ghost sub: Shape) returns (g': Graph)
    requires CutPre(t, g, sy, ctx, sub) && x == sub.id && sub.left.Node? && sub.right.Node?
    ensures CutPost(g, g', sy, ctx, sub)
  {
    TwoSlots(t, g, sy, ctx, sub);
    CutSlots(t, g, sy, ctx, sub);
    ghost var l, r, p := sub.left.id, sub.right, Up(ctx, END);
    ghost var q, mr := if r.left.Empty? then x else LeftPath(r)[0].pid, Link(LeftFocus(r).right);
    var next := GetNext(g, x, sub, p, sy);
    var g1 := SetParent(g, g.left[x], next);
    var g2 := SetLeft(g1, next, g1.left[x]);
    if g2.left[g2.parent[next]] == next {
      var g3 := g2;
      if g2.right[next] != NIL && g2.right[next] != END {
        g3 := SetParent(g2, g2.right[next], g2.parent[next]);
      }
      var g4 := SetLeft(g3, g3.parent[next], g3.right[next]);
      var g5 := SetRight(g4, next, g4.right[x]);
      var g6 := SetParent(g5, g5.right[next], next);
      var g7 := SetParent(g6, next, g6.parent[x]);
      DeepSteps(g, x, l, r.id, next, q, mr, p, sy, g1, g2, g3, g4, g5, g6, g7);
      g' := UpdateParent(g7, x, next);
      DeepCase(t, g, sy, ctx, sub, g7, g');
    } else {
      var g3 := UpdateParent(g2, x, next);
      g' := SetParent(g3, next, g3.parent[x]);
      NearCase(t, g, sy, ctx, sub, g1, g2, g3, g');
    }
  }

  // ---- cut (tree.h:454-502) ----

  /** The state cut starts from, seen at the node x. */
  lemma CutStart(t: Shape, g: Graph, next: int, w: WalkType, x: int, sz: nat)
    requires WfLinks(t, g, next, w) && CachesOf(t, g, w) && x in Ids(t) && sz == Size(t) && sz != 1
    ensures var sub := Focus(t, x).1;
            CutPre(t, g, SynthOf(g, w), Focus(t, x).0, sub) &&
            Slots(g, x) && g.left[x] == LeftVal(Link(sub.left), x, SynthOf(g, w)) && g.right[x] == Link(sub.right) &&
            (sub.left.Node? ==> sub.left.id >= 1) && (sub.right.Node? ==> sub.right.id >= 1) &&
            (Focus(t, x).0 == [] ==> sub == t && (sub.left.Node? || sub.right.Node?))
  {
    var (ctx, sub) := Focus(t, x);
    CutSlots(t, g, SynthOf(g, w), ctx, sub);
    DistinctPositive(sub);
  }

  /** After the cut, the slots encode t with x cut out, and the root slot names its root. */
  lemma CutEncodes(t: Shape, g: Graph, g': Graph, next: int, w: WalkType, x: int)
    requires WfLinks(t, g, next, w) && x in Ids(t) && Size(t) != 1
    requires var (ctx, sub) := Focus(t, x);
             (ctx == [] ==> sub.left.Node? || sub.right.Node?) && CutPost(g, g', SynthOf(g, w), ctx, sub)
    ensures WfLinks(CutAt(t, x), g', next, w)
  {
    var (ctx, sub) := Focus(t, x);
    CutAtIds(t, x);
    if ctx != [] {
      PlugRoot(ctx, sub);
      PlugRoot(ctx, CutShape(sub));
    }
  }

  /** cut(node) (tree.h:454-502), the leaf test as evidently intended: x leaves the
      encoded shape, which becomes CutAt(t, x); the last node empties the tree. The
      sentinel caches are refreshed by the caller. */
  method Cut(g: Graph, x: int, sz: nat, ghost t: Shape, ghost w: WalkType, ghost next: int) returns (g': Graph)
    requires WfLinks(t, g, next, w) && CachesOf(t, g, w) && x in Ids(t) && sz == Size(t)
    ensures WfLinks(CutAt(t, x), g', next, w) && SameKeys(g, g')
    ensures sz == 1 ==> CutAt(t, x).Empty? && CachesOf(CutAt(t, x), g', w)
  {
    if sz == 1 {
      g' := Graph(g.left[END := END], g.right[END := END], g.parent[END := END]);
      assert t == Node(Empty, x, Empty);
      return;
    }
    CutStart(t, g, next, w, x, sz);
    ghost var sy, ctx, sub := SynthOf(g, w), Focus(t, x).0, Focus(t, x).1;
    if (g.right[x] == NIL || g.right[x] == END) && (g.left[x] == NIL || g.left[x] == END) {
      g' := CutLeaf(g, x, t, sy, ctx, sub);
    } else if g.right[x] == NIL || g.right[x] == END {
      g' := CutOnlyLeft(g, x, t, sy, ctx, sub);
    } else if g.left[x] == NIL || g.left[x] == END {
      g' := CutOnlyRight(g, x, t, sy, ctx, sub);
    } else {
      g' := CutTwo(g, x, t, sy, ctx, sub);
    }
    CutEncodes(t, g, g', next, w, x);
  }
}
