/** The iterator steps of tree.h (operator++ and operator-- of the three
    BinaryTreeIterator specialisations), as walks over the node slots. Each step
    is proved against the walk: from the k-th position of `Cursor` it reaches
    position k + 1 (or k - 1). */
module TreeSteps {
  import opened TreeShape
  import opened TreeGraph

  /** The positions an iterator runs through from begin(): the walk, then end(). */
  function Cursor(t: Shape, w: WalkType): seq<int> {
    Walk(t, w) + [END]
  }

  /** end() is the last position of the cursor and no other. */
  lemma CursorEnd(t: Shape, w: WalkType, k: nat)
    requires Distinct(t) && k < |Cursor(t, w)|
    ensures Cursor(t, w)[k] == END <==> k == |Walk(t, w)|
  {
    if k < |Walk(t, w)| {
      WalkIds(t, w);
      DistinctPositive(t);
      assert Cursor(t, w)[k] == Walk(t, w)[k];
    }
  }

  // ---- the zipper of a node ----

  /** The slots around the focus s of an encoded tree t == Plug(c, s). */
  lemma ZipperSlots(t: Shape, g: Graph, sy: int, c: Ctx, s: Shape)
    requires Linked(t, END, g, sy) && Distinct(t) && Plug(c, s) == t && s.Node?
    ensures Linked(s, Up(c, END), g, sy) && Distinct(s) && s.id >= 1
    ensures Slots(g, s.id) && g.parent[s.id] == Up(c, END)
    ensures g.left[s.id] == LeftVal(Link(s.left), s.id, sy) && g.right[s.id] == Link(s.right)
    ensures c == [] ==> s == t
    ensures c != [] ==> c[0].pid >= 1 && Slots(g, c[0].pid) && Link(c[0].sib) != s.id && Linked(c[0].sib, c[0].pid, g, sy) && Distinct(c[0].sib)
    ensures c != [] && c[0].LeftOf? ==> g.left[c[0].pid] == s.id && g.right[c[0].pid] == Link(c[0].sib)
    ensures c != [] && c[0].RightOf? ==> g.right[c[0].pid] == s.id && g.left[c[0].pid] == LeftVal(Link(c[0].sib), c[0].pid, sy)
  {
    LinkedPlug(c, s, END, g, sy);
    DistinctPlug(c, s);
    IdsPlug(c, s);
    DistinctPositive(t);
    if c != [] {
      DistinctPositive(c[0].sib);
      assert c[0].sib.Node? ==> c[0].sib.id in CtxIds(c);
    }
  }

  /** The position after the focus s lies in the innermost frame's suffix, when it has one. */
  lemma NextInFrame(t: Shape, c: Ctx, s: Shape, w: WalkType, k: nat)
    requires Plug(c, s) == t && c != [] && FrameSuffix(c[0], w) != []
    requires k + 1 == |CtxPrefix(c, w)| + |Walk(s, w)|
    ensures k + 1 < |Walk(t, w)| && Walk(t, w)[k + 1] == FrameSuffix(c[0], w)[0]
  {
    WalkPlug(c, s, w);
    assert CtxSuffix(c, w) == FrameSuffix(c[0], w) + CtxSuffix(c[1..], w);
  }

  /** The position before the focus s lies in the innermost frame's prefix, when it has one. */
  lemma PrevInFrame(t: Shape, c: Ctx, s: Shape, w: WalkType, k: nat)
    requires Plug(c, s) == t && c != [] && FramePrefix(c[0], w) != []
    requires k == |CtxPrefix(c, w)|
    ensures 0 < k <= |Walk(t, w)| && Walk(t, w)[k - 1] == FramePrefix(c[0], w)[|FramePrefix(c[0], w)| - 1]
  {
    WalkPlug(c, s, w);
    assert CtxPrefix(c, w) == CtxPrefix(c[1..], w) + FramePrefix(c[0], w);
  }

  /** Where the root of s sits within the walk of s. */
  function Offset(s: Shape, w: WalkType): nat
    requires s.Node?
  {
    match w
    case PreOrder => 0
    case InOrder => |Inorder(s.left)|
    case PostOrder => |Postorder(s.left)| + |Postorder(s.right)|
  }

  /** The position of a node in the walk, read off its zipper. */
  lemma FocusIndex(t: Shape, w: WalkType, k: nat)
    requires Distinct(t) && k < |Walk(t, w)|
    ensures Walk(t, w)[k] in Ids(t)
    ensures k == |CtxPrefix(Focus(t, Walk(t, w)[k]).0, w)| + Offset(Focus(t, Walk(t, w)[k]).1, w)
  {
    WalkIds(t, w);
    var x := Walk(t, w)[k];
    var (c, s) := Focus(t, x);
    WalkPlug(c, s, w);
    WalkNoDup(t, w);
    IndexAt(Walk(t, w), CtxPrefix(c, w), Walk(s, w), CtxSuffix(c, w), s, w, k);
  }

  lemma IndexAt(W: seq<int>, P: seq<int>, V: seq<int>, S: seq<int>, s: Shape, w: WalkType, k: nat)
    requires s.Node? && V == Walk(s, w) && W == P + V + S && NoDup(W) && k < |W| && W[k] == s.id
    ensures k == |P| + Offset(s, w)
  {
    match w
    case PreOrder =>
      NoDupIndex(W, P, s.id, Preorder(s.left) + Preorder(s.right) + S, k);
    case InOrder =>
      NoDupIndex(W, P + Inorder(s.left), s.id, Inorder(s.right) + S, k);
    case PostOrder =>
      NoDupIndex(W, P + Postorder(s.left) + Postorder(s.right), s.id, S, k);
  }

  /** Following left links from the root of sub reaches Leftmost(sub) (the
      descent of tree.h:658-660); without a synthetic leaf no left slot holds END. */
  method DescendLeft(g: Graph, ghost sub: Shape, ghost p: int, x: int) returns (y: int)
    requires sub.Node? && x == sub.id && Linked(sub, p, g, NIL) && Distinct(sub)
    ensures y == Leftmost(sub)
  {
    DistinctPositive(sub);
    y := x;
    ghost var cur, q := sub, p;
    while g.left[y] != NIL
      invariant cur.Node? && y == cur.id && Ids(cur) <= Ids(sub) && Linked(cur, q, g, NIL) && Leftmost(cur) == Leftmost(sub)
      decreases cur
    {
      q, y, cur := y, g.left[y], cur.left;
    }
  }

  /** Following right links from the root of sub reaches Rightmost(sub) (the
      descent of tree.h:679-681). */
  method DescendRight(g: Graph, ghost sub: Shape, ghost p: int, x: int) returns (y: int)
    requires sub.Node? && x == sub.id && Linked(sub, p, g, NIL) && Distinct(sub)
    ensures y == Rightmost(sub)
  {
    DistinctPositive(sub);
    y := x;
    ghost var cur, q := sub, p;
    while g.right[y] != NIL
      invariant cur.Node? && y == cur.id && Ids(cur) <= Ids(sub) && Linked(cur, q, g, NIL) && Rightmost(cur) == Rightmost(sub)
      decreases cur
    {
      q, y, cur := y, g.right[y], cur.right;
    }
  }

  /** Descending from the root of sub, left child first, reaches LeftDeepLeaf(sub)
      (the descent of tree.h:712-719). */
  method DescendLeftDeep(g: Graph, ghost sub: Shape, ghost p: int, x: int) returns (y: int)
    requires sub.Node? && x == sub.id && Linked(sub, p, g, NIL) && Distinct(sub)
    ensures y == LeftDeepLeaf(sub)
  {
    DistinctPositive(sub);
    y := x;
    ghost var cur, q := sub, p;
    while g.left[y] != NIL || g.right[y] != NIL
      invariant cur.Node? && y == cur.id && Ids(cur) <= Ids(sub) && Linked(cur, q, g, NIL) && LeftDeepLeaf(cur) == LeftDeepLeaf(sub)
      decreases cur
    {
      if g.left[y] != NIL {
        q, y, cur := y, g.left[y], cur.left;
      } else {
        q, y, cur := y, g.right[y], cur.right;
      }
    }
  }

  /** Descending from the root of sub, right child first, reaches RightDeepLeaf(sub).
      A left slot holding END (the synthetic link of the last pre-order node) is
      no child. */
  method DescendRightDeep(g: Graph, ghost sub: Shape, ghost p: int, ghost sy: int, x: int) returns (y: int)
    requires sub.Node? && x == sub.id && Linked(sub, p, g, sy) && Distinct(sub)
    ensures y == RightDeepLeaf(sub)
  {
    DistinctPositive(sub);
    y := x;
    ghost var cur, q := sub, p;
    while (g.left[y] != NIL && g.left[y] != END) || g.right[y] != NIL
      invariant cur.Node? && y == cur.id && Ids(cur) <= Ids(sub) && Linked(cur, q, g, sy) && RightDeepLeaf(cur) == RightDeepLeaf(sub)
      decreases cur
    {
      if g.right[y] != NIL {
        q, y, cur := y, g.right[y], cur.right;
      } else {
        q, y, cur := y, g.left[y], cur.left;
      }
    }
  }

  // ---- in-order (tree.h:655-689) ----

  /** operator++ of the in-order iterator (tree.h:655-668). */
  method InNext(g: Graph, ghost t: Shape, x: int, ghost k: nat) returns (y: int)
    requires Encodes(t, g, InOrder) && k < |Walk(t, InOrder)| && Walk(t, InOrder)[k] == x
    ensures y == Cursor(t, InOrder)[k + 1]
  {
    FocusIndex(t, InOrder, k);
    ghost var (c, s) := Focus(t, x);
    ZipperSlots(t, g, NIL, c, s);
    WalkPlug(c, s, InOrder);
    if g.right[x] != NIL {
      y := DescendLeft(g, s.right, x, g.right[x]);
      LeftmostIsInorderFirst(s.right);
      assert Walk(t, InOrder)[k + 1] == Inorder(s.right)[0];
    } else {
      y := x;
      while g.left[g.parent[y]] != y
        invariant Plug(c, s) == t && s.Node? && y == s.id
        invariant Slots(g, y) && g.parent[y] == Up(c, END) && Slots(g, Up(c, END))
        invariant k == |CtxPrefix(c, InOrder)| + |Inorder(s)| - 1
        decreases |c|
      {
        ZipperSlots(t, g, NIL, c, s);
        y, c, s := g.parent[y], c[1..], Wrap(c[0], s);
        ZipperSlots(t, g, NIL, c, s);
      }
      ZipperSlots(t, g, NIL, c, s);
      WalkPlug(c, s, InOrder);
      y := g.parent[y];
    }
  }

  /** operator-- of the in-order iterator (tree.h:676-689); from end() it reaches
      the last node, since the sentinel's left slot holds the root. */
  method InPrev(g: Graph, ghost t: Shape, x: int, ghost k: nat) returns (y: int)
    requires Encodes(t, g, InOrder) && 0 < k < |Cursor(t, InOrder)| && Cursor(t, InOrder)[k] == x
    ensures y == Cursor(t, InOrder)[k - 1]
  {
    DistinctPositive(t);
    CursorEnd(t, InOrder, k);
    ghost var c: Ctx, s: Shape := [], t;
    if x != END {
      FocusIndex(t, InOrder, k);
      c, s := Focus(t, x).0, Focus(t, x).1;
      ZipperSlots(t, g, NIL, c, s);
      WalkPlug(c, s, InOrder);
    }
    if g.left[x] != NIL {
      y := DescendRight(g, if x == END then t else s.left, x, g.left[x]);
      if x == END {
        RightmostIsInorderLast(t);
      } else {
        RightmostIsInorderLast(s.left);
        assert Walk(t, InOrder)[k - 1] == Inorder(s.left)[|Inorder(s.left)| - 1];
      }
    } else {
      y := x;
      while g.right[g.parent[y]] != y
        invariant Plug(c, s) == t && s.Node? && y == s.id
        invariant Slots(g, y) && g.parent[y] == Up(c, END) && Slots(g, Up(c, END))
        invariant k == |CtxPrefix(c, InOrder)|
        decreases |c|
      {
        ZipperSlots(t, g, NIL, c, s);
        y, c, s := g.parent[y], c[1..], Wrap(c[0], s);
        ZipperSlots(t, g, NIL, c, s);
      }
      InPrevExit(t, g, c, s, k);
      y := g.parent[y];
    }
  }

  /** Where the climb of InPrev stops, at a right child, its parent is the predecessor. */
  lemma InPrevExit(t: Shape, g: Graph, c: Ctx, s: Shape, k: nat)
    requires Encodes(t, g, InOrder) && 0 < k < |Cursor(t, InOrder)|
    requires Plug(c, s) == t && s.Node?
    requires Slots(g, s.id) && g.parent[s.id] == Up(c, END) && Slots(g, Up(c, END))
    requires k == |CtxPrefix(c, InOrder)| && g.right[g.parent[s.id]] == s.id
    ensures g.parent[s.id] == Cursor(t, InOrder)[k - 1]
  {
    ZipperSlots(t, g, NIL, c, s);
    WalkPlug(c, s, InOrder);
  }

  // ---- post-order (tree.h:706-737) ----

  /** operator++ of the post-order iterator, as tree.h:706-721 evidently intends: a
      right child, or a left child without a right sibling, steps up to its parent;
      a left child with a right sibling descends into that sibling's first node.
      The root steps to end(), since the sentinel's right slot holds the root. */
  method PostNext(g: Graph, ghost t: Shape, x: int, ghost k: nat) returns (y: int)
    requires Encodes(t, g, PostOrder) && k < |Walk(t, PostOrder)| && Walk(t, PostOrder)[k] == x
    ensures y == Cursor(t, PostOrder)[k + 1]
  {
    FocusIndex(t, PostOrder, k);
    ghost var (c, s) := Focus(t, x);
    ZipperSlots(t, g, NIL, c, s);
    WalkElems(t, PostOrder);
    var p := g.parent[x];
    if g.right[p] == x || g.right[p] == NIL {
      y := p;
      if c != [] {
        NextInFrame(t, c, s, PostOrder, k);
      }
    } else {
      assert c != [] && c[0].LeftOf? && c[0].sib.Node?;
      y := DescendLeftDeep(g, c[0].sib, p, g.right[p]);
      LeftDeepLeafIsPostorderFirst(c[0].sib);
      NextInFrame(t, c, s, PostOrder, k);
    }
  }

  /** operator-- of the post-order iterator, as tree.h:729-737 evidently intends: a
      node steps to its right child, else to its left child; a leaf climbs while it
      is a left child or its parent has no left child, then steps to that parent's
      left child. From end() it reaches the root. */
  method PostPrev(g: Graph, ghost t: Shape, x: int, ghost k: nat) returns (y: int)
    requires Encodes(t, g, PostOrder) && 0 < k < |Cursor(t, PostOrder)| && Cursor(t, PostOrder)[k] == x
    ensures y == Cursor(t, PostOrder)[k - 1]
  {
    DistinctPositive(t);
    CursorEnd(t, PostOrder, k);
    ghost var c: Ctx, s: Shape := [], t;
    if x != END {
      FocusIndex(t, PostOrder, k);
      c, s := Focus(t, x).0, Focus(t, x).1;
      ZipperSlots(t, g, NIL, c, s);
      WalkPlug(c, s, PostOrder);
    }
    if g.right[x] != NIL {
      y := g.right[x];
      if x != END {
        assert Walk(t, PostOrder)[k - 1] == Postorder(s.right)[|Postorder(s.right)| - 1];
      }
    } else if g.left[x] != NIL {
      y := g.left[x];
      assert Walk(t, PostOrder)[k - 1] == Postorder(s.left)[|Postorder(s.left)| - 1];
    } else {
      y := PostClimb(g, t, x, c, s, k);
    }
  }

  /** The leaf case of PostPrev: climb while the node is a left child or its parent
      has no left child; the parent's left child is then the previous node. */
  method PostClimb(g: Graph, ghost t: Shape, x: int, ghost c: Ctx, ghost s: Shape, ghost k: nat) returns (y: int)
    requires Linked(t, END, g, NIL) && Distinct(t) && Plug(c, s) == t && s.Node? && x == s.id
    requires 0 < k == |CtxPrefix(c, PostOrder)| && k < |Walk(t, PostOrder)|
    ensures y == Walk(t, PostOrder)[k - 1]
  {
    ZipperSlots(t, g, NIL, c, s);
    ghost var c', s' := c, s;
    y := x;
    while g.left[g.parent[y]] == y || g.left[g.parent[y]] == NIL
      invariant Plug(c', s') == t && s'.Node? && y == s'.id
      invariant Slots(g, y) && g.parent[y] == Up(c', END) && Slots(g, Up(c', END))
      invariant k == |CtxPrefix(c', PostOrder)|
      decreases |c'|
    {
      ZipperSlots(t, g, NIL, c', s');
      y, c', s' := g.parent[y], c'[1..], Wrap(c'[0], s');
      ZipperSlots(t, g, NIL, c', s');
    }
    ZipperSlots(t, g, NIL, c', s');
    assert c' != [] && c'[0].RightOf?;
    assert g.left[c'[0].pid] == LeftVal(Link(c'[0].sib), c'[0].pid, NIL) == Link(c'[0].sib);
    PrevInFrame(t, c', s', PostOrder, k);
    y := g.left[g.parent[y]];
  }

  // ---- pre-order (tree.h:598-637) ----

  /** operator++ of the pre-order iterator, as tree.h:598-617 evidently intends: a
      node steps to its left child, else to its right child; a leaf climbs while it
      is a right child or its parent has no right child, then steps to that parent's
      right child. The last node steps to end() through its synthetic left link. */
  method PreNext(g: Graph, ghost t: Shape, x: int, ghost k: nat) returns (y: int)
    requires Encodes(t, g, PreOrder) && CachesOf(t, g, PreOrder)
    requires k < |Walk(t, PreOrder)| && Walk(t, PreOrder)[k] == x
    ensures y == Cursor(t, PreOrder)[k + 1]
  {
    ghost var sy := g.parent[END];
    FocusIndex(t, PreOrder, k);
    ghost var (c, s) := Focus(t, x);
    ZipperSlots(t, g, sy, c, s);
    WalkPlug(c, s, PreOrder);
    RightDeepLeafIsPreorderLast(t);
    WalkNoDup(t, PreOrder);
    if g.left[x] != NIL {
      y := g.left[x];
      if s.left.Node? {
        assert Walk(t, PreOrder)[k + 1] == Preorder(s.left)[0];
      } else {
        assert Walk(t, PreOrder)[|Walk(t, PreOrder)| - 1] == x;
      }
    } else if g.right[x] != NIL {
      y := g.right[x];
      assert Walk(t, PreOrder)[k + 1] == Preorder(s.right)[0];
    } else {
      assert Walk(t, PreOrder)[|Walk(t, PreOrder)| - 1] != x;
      y := PreClimb(g, t, sy, x, c, s, k);
    }
  }

  /** The leaf case of PreNext: climb while the node is a right child or its parent
      has no right child; the parent's right child is then the next node. */
  method PreClimb(g: Graph, ghost t: Shape, ghost sy: int, x: int, ghost c: Ctx, ghost s: Shape, ghost k: nat)
    returns (y: int)
    requires Linked(t, END, g, sy) && Distinct(t) && Plug(c, s) == t && s.Node? && x == s.id
    requires k + 1 == |CtxPrefix(c, PreOrder)| + |Preorder(s)| && k + 1 < |Walk(t, PreOrder)|
    ensures y == Walk(t, PreOrder)[k + 1]
  {
    ZipperSlots(t, g, sy, c, s);
    WalkPlug(c, s, PreOrder);
    ghost var c', s' := c, s;
    y := x;
    while g.right[g.parent[y]] == y || g.right[g.parent[y]] == NIL
      invariant Plug(c', s') == t && s'.Node? && y == s'.id && c' != []
      invariant Slots(g, y) && g.parent[y] == Up(c', END) && Slots(g, Up(c', END))
      invariant k + 1 == |CtxPrefix(c', PreOrder)| + |Preorder(s')|
      decreases |c'|
    {
      ZipperSlots(t, g, sy, c', s');
      WalkWrap(c'[0], s', PreOrder);
      y, c', s' := g.parent[y], c'[1..], Wrap(c'[0], s');
      ZipperSlots(t, g, sy, c', s');
      WalkPlug(c', s', PreOrder);
    }
    ZipperSlots(t, g, sy, c', s');
    assert c'[0].LeftOf? && c'[0].sib.Node?;
    NextInFrame(t, c', s', PreOrder, k);
    y := g.right[g.parent[y]];
  }

  /** operator-- of the pre-order iterator, as tree.h:625-637 evidently intends: a
      left child, or a right child without a left sibling, steps up to its parent;
      a right child with a left sibling descends into that sibling's last node.
      From end() it reaches the last node, which the sentinel's parent slot holds. */
  method PrePrev(g: Graph, ghost t: Shape, x: int, ghost k: nat) returns (y: int)
    requires Encodes(t, g, PreOrder) && CachesOf(t, g, PreOrder)
    requires 0 < k < |Cursor(t, PreOrder)| && Cursor(t, PreOrder)[k] == x
    ensures y == Cursor(t, PreOrder)[k - 1]
  {
    DistinctPositive(t);
    CursorEnd(t, PreOrder, k);
    ghost var sy := g.parent[END];
    RightDeepLeafIsPreorderLast(t);
    WalkNoDup(t, PreOrder);
    ghost var c: Ctx, s: Shape := [], t;
    if x != END {
      FocusIndex(t, PreOrder, k);
      c, s := Focus(t, x).0, Focus(t, x).1;
      ZipperSlots(t, g, sy, c, s);
      WalkPlug(c, s, PreOrder);
    }
    var p := g.parent[x];
    if g.left[p] == NIL || g.left[p] == x {
      y := p;
      if x != END {
        PrevInFrame(t, c, s, PreOrder, k);
      }
    } else {
      assert c != [] && c[0].RightOf?;
      PrevInFrame(t, c, s, PreOrder, k);
      y := DescendRightDeep(g, c[0].sib, p, sy, g.left[p]);
      RightDeepLeafIsPreorderLast(c[0].sib);
    }
  }

  /** operator++ of the iterator for walk order w: the next position of the cursor. */
  method Next(g: Graph, w: WalkType, ghost t: Shape, x: int, ghost k: nat) returns (y: int)
    requires Encodes(t, g, w) && CachesOf(t, g, w) && k < |Walk(t, w)| && Walk(t, w)[k] == x
    ensures y == Cursor(t, w)[k + 1]
  {
    match w
    case InOrder => y := InNext(g, t, x, k);
    case PreOrder => y := PreNext(g, t, x, k);
    case PostOrder => y := PostNext(g, t, x, k);
  }

  /** operator-- of the iterator for walk order w: the previous position of the cursor. */
  method Prev(g: Graph, w: WalkType, ghost t: Shape, x: int, ghost k: nat) returns (y: int)
    requires Encodes(t, g, w) && CachesOf(t, g, w) && 0 < k < |Cursor(t, w)| && Cursor(t, w)[k] == x
    ensures y == Cursor(t, w)[k - 1]
  {
    match w
    case InOrder => y := InPrev(g, t, x, k);
    case PreOrder => y := PrePrev(g, t, x, k);
    case PostOrder => y := PostPrev(g, t, x, k);
  }
}
