/** Code paths of tree.h as they are written, where they part from what the rest
    of the tree evidently relies on, each with a small tree that shows the
    difference. The model elsewhere uses the corrected versions. */
module TreeFindings {
  import opened TreeShape
  import opened TreeGraph
  import opened TreeOrder
  import TreeSteps

  /** Where a pointer-chasing step ends: at a node, on a null pointer (which the
      step or the next one dereferences), or still running when the step budget
      is spent. */
  datatype Outcome = At(node: int) | OnNull | Running

  /** A child slot that leads to a real node. */
  predicate Real(v: int) {
    v != NIL && v != END
  }

  function Left(g: Graph, x: int): int {
    if x in g.left then g.left[x] else NIL
  }

  function Right(g: Graph, x: int): int {
    if x in g.right then g.right[x] else NIL
  }

  function Parent(g: Graph, x: int): int {
    if x in g.parent then g.parent[x] else NIL
  }

  // ---- get_next (tree.h:321-328) ----

  /** The loop of get_next as written: the body reloads `node->left`, not `next->left`. */
  function GetNextLoop(g: Graph, node: int, next: int, fuel: nat): (r: Outcome)
    ensures r.At? ==> r.node == next || r.node == Left(g, node)
    decreases fuel
  {
    if next == NIL then OnNull
    else if !Real(Left(g, next)) then At(next)
    else if fuel == 0 then Running
    else GetNextLoop(g, node, Left(g, node), fuel - 1)
  }

  function GetNextAsWritten(g: Graph, node: int, fuel: nat): Outcome {
    GetNextLoop(g, node, Right(g, node), fuel)
  }

  /** The in-order tree 5(3, 8(7, -)). */
  function InShape(): Shape {
    Node(Node(Empty, 3, Empty), 5, Node(Node(Empty, 7, Empty), 8, Empty))
  }

  function InGraph(): Graph {
    Graph(map[END := 5, 5 := 3, 3 := NIL, 8 := 7, 7 := NIL],
          map[END := 3, 5 := 8, 3 := NIL, 8 := NIL, 7 := NIL],
          map[END := 8, 5 := END, 3 := 5, 8 := 5, 7 := 8])
  }

  /** The slots above encode the tree, with its caches in place. */
  lemma GetNextEncoded()
    ensures Encodes(InShape(), InGraph(), InOrder) && CachesOf(InShape(), InGraph(), InOrder)
  {
  }

  /** get_next(5) returns 3, the left child of 5, where the in-order successor is 7. */
  lemma GetNextCounterexample()
    ensures GetNextAsWritten(InGraph(), 5, 4) == At(3)
    ensures Leftmost(InShape().right) == 7
  {
  }

  // ---- the leaf test of cut (tree.h:468-469) ----

  /** The leaf test as written: its second conjunct looks at `node->right` again. */
  function CutLeafAsWritten(g: Graph, x: int): bool {
    !Real(Right(g, x)) && (Left(g, x) == NIL || Right(g, x) == END)
  }

  /** The branch the test then sends a childless node with the synthetic link to:
      "only a left child" (tree.h:474-479), which stores `node->left`, here END, in
      the parent's slot, and makes END's parent slot point at the parent. */
  function CutOnlyLeftAsWritten(g: Graph, x: int): Graph
    requires x in g.left && x in g.parent
  {
    var p := g.parent[x];
    var l := g.left[x];
    var right := if p in g.right && g.right[p] == x then g.right[p := l] else g.right;
    var left := if p in g.left && g.left[p] == x then g.left[p := l] else g.left;
    Graph(left, right, if l in g.parent then g.parent[l := p] else g.parent)
  }

  /** The pre-order tree 10(5(3, 7), -): 7 is the last node and links to END. */
  function PreCutShape(): Shape {
    Node(Node(Node(Empty, 3, Empty), 5, Node(Empty, 7, Empty)), 10, Empty)
  }

  function PreCutGraph(): Graph {
    Graph(map[END := 10, 10 := 5, 5 := 3, 3 := NIL, 7 := END],
          map[END := 3, 10 := NIL, 5 := 7, 3 := NIL, 7 := NIL],
          map[END := 7, 10 := END, 5 := 10, 3 := 5, 7 := 5])
  }

  /** The slots above encode the tree, with its caches in place. */
  lemma CutLeafEncoded()
    ensures Encodes(PreCutShape(), PreCutGraph(), PreOrder) && CachesOf(PreCutShape(), PreCutGraph(), PreOrder)
  {
  }

  /** Node 7 has no children, yet the test does not take it for a leaf, and the cut
      leaves END in the right slot of 5, where an empty subtree is null. */
  lemma CutLeafCounterexample()
    ensures !CutLeafAsWritten(PreCutGraph(), 7)
    ensures CutOnlyLeftAsWritten(PreCutGraph(), 7).right[5] == END
  {
  }

  // ---- pre-order operator++ (tree.h:598-617) ----

  /** `while (current->parent->right == current) current = current->parent;` */
  function ClimbRightChild(g: Graph, cur: int, fuel: nat): Outcome
    decreases fuel
  {
    var p := Parent(g, cur);
    if p == NIL then OnNull
    else if Right(g, p) != cur then At(cur)
    else if fuel == 0 then Running
    else ClimbRightChild(g, p, fuel - 1)
  }

  /** `while (current->right == nullptr) current = current->parent;` */
  function ClimbToRight(g: Graph, cur: int, fuel: nat): Outcome
    decreases fuel
  {
    if cur == NIL then OnNull
    else if Right(g, cur) != NIL then At(cur)
    else if fuel == 0 then Running
    else ClimbToRight(g, Parent(g, cur), fuel - 1)
  }

  /** Pre-order ++ as written: the second climb stops at any ancestor with a right
      child, the one just climbed out of included. */
  function PreNextAsWritten(g: Graph, x: int, fuel: nat): Outcome {
    if Left(g, x) != NIL then At(Left(g, x))
    else if Right(g, x) != NIL then At(Right(g, x))
    else match ClimbRightChild(g, x, fuel)
      case At(c) =>
        (match ClimbToRight(g, Parent(g, c), fuel)
         case At(d) => At(Right(g, d))
         case other => other)
      case other => other
  }

  /** The pre-order tree built by inserting 10, 2, 20, 5, 4. */
  function PreShape(): Shape {
    Node(Node(Empty, 2, Node(Node(Empty, 4, Empty), 5, Empty)), 10, Node(Empty, 20, Empty))
  }

  function PreGraph(): Graph {
    Graph(map[END := 10, 10 := 2, 2 := NIL, 5 := 4, 4 := NIL, 20 := END],
          map[END := 2, 10 := 20, 2 := 5, 5 := NIL, 4 := NIL, 20 := NIL],
          map[END := 20, 10 := END, 2 := 10, 5 := 2, 4 := 5, 20 := 10])
  }

  /** The slots above encode the tree, with its caches in place. */
  lemma PreNextEncoded()
    ensures Encodes(PreShape(), PreGraph(), PreOrder) && CachesOf(PreShape(), PreGraph(), PreOrder)
  {
  }

  /** ++ from 4 goes back to 5, which comes before 4; the walk goes on to 20. */
  lemma PreNextCounterexample()
    ensures TreeSteps.Cursor(PreShape(), PreOrder) == [10, 2, 5, 4, 20, END]
    ensures PreNextAsWritten(PreGraph(), 4, 4) == At(5)
  {
  }

  // ---- post-order operator++ and operator-- (tree.h:706-737) ----

  /** `while (current->left || current->right)`: descend, preferring the left child. */
  function DescendToLeaf(g: Graph, cur: int, fuel: nat): Outcome
    decreases fuel
  {
    if cur == NIL then OnNull
    else if Left(g, cur) == NIL && Right(g, cur) == NIL then At(cur)
    else if fuel == 0 then Running
    else DescendToLeaf(g, if Left(g, cur) != NIL then Left(g, cur) else Right(g, cur), fuel - 1)
  }

  /** Post-order ++ as written: a left child whose parent has no right child moves
      to that null right child. */
  function PostNextAsWritten(g: Graph, x: int, fuel: nat): Outcome {
    var p := Parent(g, x);
    if p == NIL then OnNull
    else if Right(g, p) == x then At(p)
    else DescendToLeaf(g, Right(g, p), fuel)
  }

  /** Post-order -- as written: the right child, or else the left child, null or not. */
  function PostPrevAsWritten(g: Graph, x: int): Outcome {
    if Right(g, x) != NIL then At(Right(g, x))
    else if Left(g, x) != NIL then At(Left(g, x))
    else OnNull
  }

  /** The post-order tree built by inserting 2, 1. */
  function PostShape(): Shape {
    Node(Node(Empty, 1, Empty), 2, Empty)
  }

  function PostGraph(): Graph {
    Graph(map[END := 1, 2 := 1, 1 := NIL],
          map[END := 2, 2 := NIL, 1 := NIL],
          map[END := 2, 2 := END, 1 := 2])
  }

  /** The slots above encode the tree, with its caches in place. */
  lemma PostNextEncoded()
    ensures Encodes(PostShape(), PostGraph(), PostOrder) && CachesOf(PostShape(), PostGraph(), PostOrder)
  {
  }

  /** ++ from 1 steps onto the null right child of 2; the walk goes on to 2. */
  lemma PostNextCounterexample()
    ensures TreeSteps.Cursor(PostShape(), PostOrder) == [1, 2, END]
    ensures PostNextAsWritten(PostGraph(), 1, 4) == OnNull
  {
  }

  /** The post-order tree built by inserting 2, 1, 3. */
  function PostShape3(): Shape {
    Node(Node(Empty, 1, Empty), 2, Node(Empty, 3, Empty))
  }

  function PostGraph3(): Graph {
    Graph(map[END := 1, 2 := 1, 1 := NIL, 3 := NIL],
          map[END := 2, 2 := 3, 1 := NIL, 3 := NIL],
          map[END := 3, 2 := END, 1 := 2, 3 := 2])
  }

  /** The slots above encode the tree, with its caches in place. */
  lemma PostPrevEncoded()
    ensures Encodes(PostShape3(), PostGraph3(), PostOrder) && CachesOf(PostShape3(), PostGraph3(), PostOrder)
  {
  }

  /** -- from the leaf 3 reads its null left child; the walk goes back to 1. */
  lemma PostPrevCounterexample()
    ensures TreeSteps.Cursor(PostShape3(), PostOrder) == [1, 3, 2, END]
    ensures PostPrevAsWritten(PostGraph3(), 3) == OnNull
  {
  }

  // ---- pre-order operator-- (tree.h:625-637) ----

  /** `while (current->right) current = current->right;` */
  function DescendRightOnly(g: Graph, cur: int, fuel: nat): Outcome
    decreases fuel
  {
    if cur == NIL then OnNull
    else if Right(g, cur) == NIL then At(cur)
    else if fuel == 0 then Running
    else DescendRightOnly(g, Right(g, cur), fuel - 1)
  }

  /** Pre-order -- as written: into the left sibling's subtree along right links only. */
  function PrePrevAsWritten(g: Graph, x: int, fuel: nat): Outcome {
    var p := Parent(g, x);
    if p == NIL then OnNull
    else if Left(g, p) == NIL || Left(g, p) == x then At(p)
    else DescendRightOnly(g, Left(g, p), fuel)
  }

  /** The pre-order tree built by inserting 5, 3, 1, 8. */
  function PrePrevShape(): Shape {
    Node(Node(Node(Empty, 1, Empty), 3, Empty), 5, Node(Empty, 8, Empty))
  }

  function PrePrevGraph(): Graph {
    Graph(map[END := 5, 5 := 3, 3 := 1, 1 := NIL, 8 := END],
          map[END := 1, 5 := 8, 3 := NIL, 1 := NIL, 8 := NIL],
          map[END := 8, 5 := END, 3 := 5, 1 := 3, 8 := 5])
  }

  /** The slots above encode the tree, with its caches in place. */
  lemma PrePrevEncoded()
    ensures Encodes(PrePrevShape(), PrePrevGraph(), PreOrder) && CachesOf(PrePrevShape(), PrePrevGraph(), PreOrder)
  {
  }

  /** -- from 8 stops at 3, where the node before 8 is 1. */
  lemma PrePrevCounterexample()
    ensures TreeSteps.Cursor(PrePrevShape(), PreOrder) == [5, 3, 1, 8, END]
    ensures PrePrevAsWritten(PrePrevGraph(), 8, 4) == At(3)
  {
  }

  // ---- merge (tree.h:200-206) ----

  function IndexOf(s: seq<int>, x: int): (k: nat)
    requires x in s
    ensures k < |s| && s[k] == x
  {
    if s[0] == x then 0 else 1 + IndexOf(s[1..], x)
  }

  /** What merge as written leaves in `other`: it continues from the node erase
      returns, the successor in the walk before the cut, until that is end(). */
  ghost function MergeAsWritten(t: Shape, w: WalkType, it: int, fuel: nat): Shape
    decreases fuel
  {
    if fuel == 0 || it !in Walk(t, w) || it !in Ids(t) then t
    else
      var k := IndexOf(Walk(t, w), it);
      MergeAsWritten(CutAt(t, it), w, TreeSteps.Cursor(t, w)[k + 1], fuel - 1)
  }

  /** The pre-order tree 5(3, 8(-, 9)). */
  function MergeShape(): Shape {
    Node(Node(Empty, 3, Empty), 5, Node(Empty, 8, Node(Empty, 9, Empty)))
  }

  function MergeGraph(): Graph {
    Graph(map[END := 5, 5 := 3, 3 := NIL, 8 := NIL, 9 := END],
          map[END := 3, 5 := 8, 3 := NIL, 8 := 9, 9 := NIL],
          map[END := 9, 5 := END, 3 := 5, 8 := 5, 9 := 8])
  }

  /** The slots above encode the tree, with its caches in place, and get_next as
      written already gives the in-order successor of 5 here, so the example does
      not depend on the get_next slip. */
  lemma MergeGetNext()
    ensures Encodes(MergeShape(), MergeGraph(), PreOrder) && CachesOf(MergeShape(), MergeGraph(), PreOrder)
    ensures GetNextAsWritten(MergeGraph(), 5, 4) == At(8) && Leftmost(MergeShape().right) == 8
  {
  }

  function MergeStep1(): Shape { Node(Node(Empty, 3, Empty), 8, Node(Empty, 9, Empty)) }
  function MergeStep2(): Shape { Node(Empty, 8, Node(Empty, 9, Empty)) }

  /** The shapes `other` goes through: 5 goes, then 3, then 9. */
  lemma MergeCut0()
    ensures CutAt(MergeShape(), 5) == MergeStep1()
  {
    assert Focus(MergeShape(), 5) == ([], MergeShape());
  }

  lemma MergeCut1()
    ensures CutAt(MergeStep1(), 3) == MergeStep2()
  {
    var t := MergeStep1();
    assert Focus(t.left, 3) == ([], t.left);
    assert [] + [LeftOf(8, t.right)] == [LeftOf(8, t.right)];
    assert Focus(t, 3) == ([LeftOf(8, t.right)], t.left);
    assert CutShape(t.left) == Empty;
    assert [LeftOf(8, t.right)][1..] == [];
    assert Plug([LeftOf(8, t.right)], Empty) == Node(Empty, 8, t.right);
  }

  lemma MergeCut2()
    ensures CutAt(MergeStep2(), 9) == Node(Empty, 8, Empty)
  {
    var t := MergeStep2();
    assert Focus(t.right, 9) == ([], t.right);
    assert [] + [RightOf(Empty, 8)] == [RightOf(Empty, 8)];
    assert Focus(t, 9) == ([RightOf(Empty, 8)], t.right);
  }

  lemma MergeFrom2()
    ensures MergeAsWritten(MergeStep2(), PreOrder, 9, 8) == Node(Empty, 8, Empty)
  {
    MergeCut2();
    assert Walk(MergeStep2(), PreOrder) == [8, 9];
    assert IndexOf([8, 9], 9) == 1;
    assert MergeAsWritten(Node(Empty, 8, Empty), PreOrder, END, 7) == Node(Empty, 8, Empty);
  }

  lemma MergeFrom1()
    ensures MergeAsWritten(MergeStep1(), PreOrder, 3, 9) == Node(Empty, 8, Empty)
  {
    MergeCut1();
    MergeFrom2();
    MergeWalk1();
    assert IndexOf([8, 3, 9], 3) == 1;
  }

  lemma MergeWalk1()
    ensures Walk(MergeStep1(), PreOrder) == [8, 3, 9]
  {
    assert Preorder(Node(Empty, 9, Empty)) == [9];
    assert Preorder(Node(Empty, 3, Empty)) == [3];
    assert Walk(MergeStep1(), PreOrder) == [8] + [3] + [9];
  }

  /** Erasing the root 5 moves 8 into its place, before 3 in the new walk, and the
      loop, now at 3, never comes back to it: 8 stays in `other`. */
  lemma MergeCounterexample()
    ensures TreeSteps.Cursor(MergeShape(), PreOrder)[0] == 5
    ensures MergeAsWritten(MergeShape(), PreOrder, 5, 10) == Node(Empty, 8, Empty)
  {
    MergeCut0();
    MergeFrom1();
    MergeWalk0();
    assert IndexOf([5, 3, 8, 9], 5) == 0;
  }

  lemma MergeWalk0()
    ensures Walk(MergeShape(), PreOrder) == [5, 3, 8, 9]
  {
    var r := Node(Empty, 8, Node(Empty, 9, Empty));
    assert Preorder(r) == [8, 9] by {
      assert Preorder(r.right) == [9];
    }
    assert Preorder(Node(Empty, 3, Empty)) == [3];
    assert Walk(MergeShape(), PreOrder) == [5] + [3] + [8, 9];
  }
}
