/** The abstract shape of a binary search tree, the three walk orders over it,
    and zipper contexts that locate one node inside it.

    A shape records only the structure and the node handles (arena ids); the
    stored values live beside it, in the tree's value map. */
module TreeShape {

  /** The traversal order a tree is instantiated with (the WalkType template argument). */
  datatype WalkType = PreOrder | InOrder | PostOrder

  /** The sentinel node `end_node_` has handle END; a null link is NIL.
      Every node allocated for a value has a handle of at least 1. */
  const END: int := 0
  const NIL: int := -1

  datatype Shape = Empty | Node(left: Shape, id: int, right: Shape)

  /** The value a child slot holds for the subtree t: its root, or null. */
  function Link(t: Shape): int {
    if t.Empty? then NIL else t.id
  }

  function Ids(t: Shape): set<int> {
    match t
    case Empty => {}
    case Node(l, x, r) => Ids(l) + {x} + Ids(r)
  }

  function Size(t: Shape): nat {
    match t
    case Empty => 0
    case Node(l, _, r) => Size(l) + 1 + Size(r)
  }

  /** Every handle occurs once, and none of them is END or NIL. */
  ghost predicate Distinct(t: Shape) {
    match t
    case Empty => true
    case Node(l, x, r) =>
      x >= 1 && x !in Ids(l) && x !in Ids(r) && Ids(l) !! Ids(r) && Distinct(l) && Distinct(r)
  }

  lemma {:induction false} DistinctPositive(t: Shape)
    requires Distinct(t)
    ensures forall y | y in Ids(t) :: y >= 1
  {
    if t.Node? {
      DistinctPositive(t.left);
      DistinctPositive(t.right);
    }
  }

  function Inorder(t: Shape): seq<int> {
    match t
    case Empty => []
    case Node(l, x, r) => Inorder(l) + [x] + Inorder(r)
  }

  function Preorder(t: Shape): seq<int> {
    match t
    case Empty => []
    case Node(l, x, r) => [x] + Preorder(l) + Preorder(r)
  }

  function Postorder(t: Shape): seq<int> {
    match t
    case Empty => []
    case Node(l, x, r) => Postorder(l) + Postorder(r) + [x]
  }

  function Walk(t: Shape, w: WalkType): seq<int> {
    match w
    case PreOrder => Preorder(t)
    case InOrder => Inorder(t)
    case PostOrder => Postorder(t)
  }

  /** Every position of a walk holds a handle of the tree. */
  lemma {:induction false} WalkIds(t: Shape, w: WalkType)
    ensures forall i :: 0 <= i < |Walk(t, w)| ==> Walk(t, w)[i] in Ids(t)
  {
    WalkElems(t, w);
    forall i | 0 <= i < |Walk(t, w)| ensures Walk(t, w)[i] in Ids(t) {
      var y := Walk(t, w)[i];
      assert y in Walk(t, w);
    }
  }

  ghost predicate NoDup(s: seq<int>) {
    forall i, j :: 0 <= i < j < |s| ==> s[i] != s[j]
  }

  lemma {:induction false} WalkElems(t: Shape, w: WalkType)
    ensures |Walk(t, w)| == Size(t)
    ensures forall x :: x in Walk(t, w) <==> x in Ids(t)
  {
    match t
    case Empty =>
    case Node(l, x, r) =>
      WalkElems(l, w);
      WalkElems(r, w);
  }

  lemma NoDupConcat(a: seq<int>, b: seq<int>)
    requires NoDup(a) && NoDup(b)
    requires forall x :: x in a ==> x !in b
    ensures NoDup(a + b)
  {
    forall i, j | 0 <= i < j < |a + b|
      ensures (a + b)[i] != (a + b)[j]
    {
      if j < |a| {
      } else if i >= |a| {
        assert (a + b)[i] == b[i - |a|] && (a + b)[j] == b[j - |a|];
      } else {
        assert (a + b)[i] in a && (a + b)[j] in b;
      }
    }
  }

  lemma {:induction false} WalkNoDup(t: Shape, w: WalkType)
    requires Distinct(t)
    ensures NoDup(Walk(t, w))
  {
    match t
    case Empty =>
    case Node(l, x, r) =>
      WalkNoDup(l, w);
      WalkNoDup(r, w);
      WalkElems(l, w);
      WalkElems(r, w);
      match w
      case PreOrder =>
        NoDupConcat([x], Preorder(l));
        NoDupConcat([x] + Preorder(l), Preorder(r));
      case InOrder =>
        NoDupConcat(Inorder(l), [x]);
        NoDupConcat(Inorder(l) + [x], Inorder(r));
      case PostOrder =>
        NoDupConcat(Postorder(l), Postorder(r));
        NoDupConcat(Postorder(l) + Postorder(r), [x]);
  }

  /** In a sequence without duplicates, the position of an element is determined. */
  lemma NoDupIndex(s: seq<int>, p: seq<int>, x: int, q: seq<int>, k: nat)
    requires NoDup(s) && s == p + [x] + q && k < |s| && s[k] == x
    ensures k == |p|
  {
    assert s[|p|] == x;
  }

  // ---- the descents that update_left, update_right and the iterators perform ----

  /** Follow left links to the end. */
  function Leftmost(t: Shape): int
    requires t.Node?
  {
    if t.left.Empty? then t.id else Leftmost(t.left)
  }

  /** Follow right links to the end. */
  function Rightmost(t: Shape): int
    requires t.Node?
  {
    if t.right.Empty? then t.id else Rightmost(t.right)
  }

  /** Descend preferring the left child, falling back to the right one, until a leaf. */
  function LeftDeepLeaf(t: Shape): int
    requires t.Node?
  {
    if t.left.Node? then LeftDeepLeaf(t.left)
    else if t.right.Node? then LeftDeepLeaf(t.right)
    else t.id
  }

  /** Descend preferring the right child, falling back to the left one, until a leaf. */
  function RightDeepLeaf(t: Shape): int
    requires t.Node?
  {
    if t.right.Node? then RightDeepLeaf(t.right)
    else if t.left.Node? then RightDeepLeaf(t.left)
    else t.id
  }

  lemma {:induction false} LeftmostIsInorderFirst(t: Shape)
    requires t.Node?
    ensures |Inorder(t)| > 0 && Leftmost(t) == Inorder(t)[0]
  {
    if t.left.Node? {
      LeftmostIsInorderFirst(t.left);
    }
  }

  lemma {:induction false} RightmostIsInorderLast(t: Shape)
    requires t.Node?
    ensures |Inorder(t)| > 0 && Rightmost(t) == Inorder(t)[|Inorder(t)| - 1]
  {
    if t.right.Node? {
      RightmostIsInorderLast(t.right);
    }
  }

  lemma {:induction false} LeftDeepLeafIsPostorderFirst(t: Shape)
    requires t.Node?
    ensures |Postorder(t)| > 0 && LeftDeepLeaf(t) == Postorder(t)[0]
  {
    if t.left.Node? {
      LeftDeepLeafIsPostorderFirst(t.left);
    } else if t.right.Node? {
      LeftDeepLeafIsPostorderFirst(t.right);
    }
  }

  lemma {:induction false} RightDeepLeafIsPreorderLast(t: Shape)
    requires t.Node?
    ensures |Preorder(t)| > 0 && RightDeepLeaf(t) == Preorder(t)[|Preorder(t)| - 1]
  {
    if t.right.Node? {
      RightDeepLeafIsPreorderLast(t.right);
    } else if t.left.Node? {
      RightDeepLeafIsPreorderLast(t.left);
    }
  }

  /** The first element of a walk that begin() returns, and the last one. */
  function First(t: Shape, w: WalkType): int
    requires t.Node?
  {
    match w
    case PreOrder => t.id
    case InOrder => Leftmost(t)
    case PostOrder => LeftDeepLeaf(t)
  }

  function Last(t: Shape, w: WalkType): int
    requires t.Node?
  {
    match w
    case PreOrder => RightDeepLeaf(t)
    case InOrder => Rightmost(t)
    case PostOrder => t.id
  }

  lemma FirstLast(t: Shape, w: WalkType)
    requires t.Node?
    ensures |Walk(t, w)| > 0
    ensures First(t, w) == Walk(t, w)[0]
    ensures Last(t, w) == Walk(t, w)[|Walk(t, w)| - 1]
  {
    match w
    case PreOrder => RightDeepLeafIsPreorderLast(t);
    case InOrder => LeftmostIsInorderFirst(t); RightmostIsInorderLast(t);
    case PostOrder => LeftDeepLeafIsPostorderFirst(t);
  }

  lemma {:induction false} DescentsInIds(t: Shape)
    requires t.Node?
    ensures Leftmost(t) in Ids(t) && Rightmost(t) in Ids(t)
    ensures LeftDeepLeaf(t) in Ids(t) && RightDeepLeaf(t) in Ids(t)
  {
    if t.left.Node? { DescentsInIds(t.left); }
    if t.right.Node? { DescentsInIds(t.right); }
  }

  // ---- zipper contexts ----

  /** One step up from a focused subtree: the parent, and the sibling subtree. */
  datatype Frame = LeftOf(pid: int, sib: Shape) | RightOf(sib: Shape, pid: int)

  /** Frames from the focus upwards: ctx[0] is the focus's parent. */
  type Ctx = seq<Frame>

  function Wrap(f: Frame, s: Shape): Shape {
    match f
    case LeftOf(p, r) => Node(s, p, r)
    case RightOf(l, p) => Node(l, p, s)
  }

  function Plug(ctx: Ctx, s: Shape): Shape
    decreases |ctx|
  {
    if ctx == [] then s else Plug(ctx[1..], Wrap(ctx[0], s))
  }

  /** The handle of the focus's parent, or `top` when the focus is the whole tree. */
  function Up(ctx: Ctx, top: int): int {
    if ctx == [] then top else ctx[0].pid
  }

  function CtxIds(ctx: Ctx): set<int>
    decreases |ctx|
  {
    if ctx == [] then {} else {ctx[0].pid} + Ids(ctx[0].sib) + CtxIds(ctx[1..])
  }

  ghost predicate CtxDistinct(ctx: Ctx)
    decreases |ctx|
  {
    ctx == [] ||
    (ctx[0].pid >= 1 && ctx[0].pid !in Ids(ctx[0].sib) && ctx[0].pid !in CtxIds(ctx[1..]) &&
     Ids(ctx[0].sib) !! CtxIds(ctx[1..]) && Distinct(ctx[0].sib) && CtxDistinct(ctx[1..]))
  }

  /** The part of a walk that one frame puts before its hole. */
  function FramePrefix(f: Frame, w: WalkType): seq<int> {
    match (f, w)
    case (LeftOf(p, _), PreOrder) => [p]
    case (LeftOf(_, _), _) => []
    case (RightOf(l, p), PreOrder) => [p] + Preorder(l)
    case (RightOf(l, p), InOrder) => Inorder(l) + [p]
    case (RightOf(l, _), PostOrder) => Postorder(l)
  }

  /** The part of a walk that one frame puts after its hole. */
  function FrameSuffix(f: Frame, w: WalkType): seq<int> {
    match (f, w)
    case (LeftOf(_, r), PreOrder) => Preorder(r)
    case (LeftOf(p, r), InOrder) => [p] + Inorder(r)
    case (LeftOf(p, r), PostOrder) => Postorder(r) + [p]
    case (RightOf(_, _), PostOrder) => [f.pid]
    case (RightOf(_, _), _) => []
  }

  /** The walk up to the hole of a context, outermost frame first. */
  function CtxPrefix(ctx: Ctx, w: WalkType): seq<int>
    decreases |ctx|
  {
    if ctx == [] then [] else CtxPrefix(ctx[1..], w) + FramePrefix(ctx[0], w)
  }

  /** The walk after the hole of a context. */
  function CtxSuffix(ctx: Ctx, w: WalkType): seq<int>
    decreases |ctx|
  {
    if ctx == [] then [] else FrameSuffix(ctx[0], w) + CtxSuffix(ctx[1..], w)
  }

  lemma WalkWrap(f: Frame, s: Shape, w: WalkType)
    ensures Walk(Wrap(f, s), w) == FramePrefix(f, w) + Walk(s, w) + FrameSuffix(f, w)
  {
    match (f, w)
    case (LeftOf(p, r), PreOrder) => assert [p] + Preorder(s) + Preorder(r) == [p] + (Preorder(s) + Preorder(r));
    case (LeftOf(p, r), _) =>
    case (RightOf(l, p), PreOrder) => assert [p] + Preorder(l) + Preorder(s) == [p] + (Preorder(l) + Preorder(s));
    case (RightOf(l, p), _) =>
  }

  /** A walk of a plugged tree is the context's prefix, the focus's walk, and the context's suffix. */
  lemma {:induction false} WalkPlug(ctx: Ctx, s: Shape, w: WalkType)
    ensures Walk(Plug(ctx, s), w) == CtxPrefix(ctx, w) + Walk(s, w) + CtxSuffix(ctx, w)
    decreases |ctx|
  {
    if ctx != [] {
      var pre, suf := CtxPrefix(ctx[1..], w), CtxSuffix(ctx[1..], w);
      var fp, fs := FramePrefix(ctx[0], w), FrameSuffix(ctx[0], w);
      WalkWrap(ctx[0], s, w);
      WalkPlug(ctx[1..], Wrap(ctx[0], s), w);
      Regroup(pre, fp, Walk(s, w), fs, suf);
    }
  }

  lemma Regroup(a: seq<int>, b: seq<int>, c: seq<int>, d: seq<int>, e: seq<int>)
    ensures a + (b + c + d) + e == (a + b) + c + (d + e)
  {
  }

  lemma {:induction false} IdsPlug(ctx: Ctx, s: Shape)
    ensures Ids(Plug(ctx, s)) == Ids(s) + CtxIds(ctx)
    decreases |ctx|
  {
    if ctx != [] {
      IdsPlug(ctx[1..], Wrap(ctx[0], s));
    }
  }

  lemma {:induction false} SizePlug(ctx: Ctx, s: Shape, s': Shape)
    requires Size(s') == Size(s) + 1
    ensures Size(Plug(ctx, s')) == Size(Plug(ctx, s)) + 1
    decreases |ctx|
  {
    if ctx != [] {
      SizePlug(ctx[1..], Wrap(ctx[0], s), Wrap(ctx[0], s'));
    }
  }

  lemma {:induction false} DistinctPlug(ctx: Ctx, s: Shape)
    ensures Distinct(Plug(ctx, s)) <==> Distinct(s) && CtxDistinct(ctx) && Ids(s) !! CtxIds(ctx)
    decreases |ctx|
  {
    if ctx != [] {
      DistinctPlug(ctx[1..], Wrap(ctx[0], s));
    }
  }

  lemma {:induction false} PlugAppend(ctx: Ctx, f: Frame, s: Shape)
    ensures Plug(ctx + [f], s) == Wrap(f, Plug(ctx, s))
    decreases |ctx|
  {
    if ctx != [] {
      assert (ctx + [f])[1..] == ctx[1..] + [f];
      PlugAppend(ctx[1..], f, Wrap(ctx[0], s));
    }
  }

  /** Plugging into a nonempty context keeps the outermost frame's node as the root. */
  lemma {:induction false} PlugRoot(ctx: Ctx, s: Shape)
    requires ctx != []
    ensures Plug(ctx, s).Node? && Plug(ctx, s).id == ctx[|ctx| - 1].pid
    decreases |ctx|
  {
    if |ctx| > 1 {
      assert ctx[1..][|ctx[1..]| - 1] == ctx[|ctx| - 1];
      PlugRoot(ctx[1..], Wrap(ctx[0], s));
    }
  }

  /** The context of the node with handle x, and the subtree rooted at it. */
  ghost function Focus(t: Shape, x: int): (r: (Ctx, Shape))
    requires x in Ids(t)
    ensures Plug(r.0, r.1) == t && r.1.Node? && r.1.id == x
  {
    match t
    case Node(l, y, rt) =>
      if x == y then ([], t)
      else if x in Ids(l) then
        var (c, s) := Focus(l, x);
        PlugAppend(c, LeftOf(y, rt), s);
        (c + [LeftOf(y, rt)], s)
      else
        var (c, s) := Focus(rt, x);
        PlugAppend(c, RightOf(l, y), s);
        (c + [RightOf(l, y)], s)
  }
}
