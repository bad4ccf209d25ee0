/** The search-tree discipline over shapes: the comparator laws, the ascending
    value sequence, and pure reference definitions of what insert and cut do to
    a shape. */
module TreeOrder {
  import opened TreeShape

  /** What `Compare` must be for the tree to work: a strict weak order. */
  ghost predicate StrictWeakOrder<T(!new)>(less: (T, T) -> bool) {
    (forall a: T :: !less(a, a)) &&
    (forall a: T, b: T, c: T :: less(a, b) && less(b, c) ==> less(a, c)) &&
    (forall a: T, b: T, c: T :: less(a, c) ==> less(a, b) || less(b, c))
  }

  /** Neither value is less than the other: the tree treats them as the same key. */
  predicate Equiv<T>(less: (T, T) -> bool, a: T, b: T) {
    !less(a, b) && !less(b, a)
  }

  ghost predicate Ascending<T>(s: seq<T>, less: (T, T) -> bool) {
    forall i, j :: 0 <= i < j < |s| ==> less(s[i], s[j])
  }

  /** The values stored at a sequence of handles. */
  function Project<T>(ws: seq<int>, vm: map<int, T>): (r: seq<T>)
    requires forall i :: 0 <= i < |ws| ==> ws[i] in vm
  {
    seq(|ws|, i requires 0 <= i < |ws| => vm[ws[i]])
  }

  lemma ProjectConcat<T>(a: seq<int>, b: seq<int>, vm: map<int, T>)
    requires forall i :: 0 <= i < |a| ==> a[i] in vm
    requires forall i :: 0 <= i < |b| ==> b[i] in vm
    ensures Project(a + b, vm) == Project(a, vm) + Project(b, vm)
  {
    assert forall i :: 0 <= i < |a + b| ==> (a + b)[i] in vm;
  }

  lemma ProjectSame<T>(ws: seq<int>, vm: map<int, T>, vm': map<int, T>)
    requires forall i :: 0 <= i < |ws| ==> ws[i] in vm && ws[i] in vm' && vm'[ws[i]] == vm[ws[i]]
    ensures Project(ws, vm') == Project(ws, vm)
  {
  }

  // ---- the reference meaning of insert on the value sequence ----

  /** Insert v into an ascending sequence, keeping it when an equivalent value is present. */
  function SortedInsert<T>(s: seq<T>, v: T, less: (T, T) -> bool): seq<T> {
    if s == [] then [v]
    else if less(v, s[0]) then [v] + s
    else if less(s[0], v) then [s[0]] + SortedInsert(s[1..], v, less)
    else s
  }

  ghost predicate Holds<T>(s: seq<T>, v: T, less: (T, T) -> bool) {
    exists i :: 0 <= i < |s| && Equiv(less, s[i], v)
  }

  lemma {:induction false} SortedInsertSkip<T>(a: seq<T>, b: seq<T>, v: T, less: (T, T) -> bool)
    requires forall i :: 0 <= i < |a| ==> less(a[i], v)
    requires forall i :: 0 <= i < |a| ==> !less(v, a[i])
    ensures SortedInsert(a + b, v, less) == a + SortedInsert(b, v, less)
  {
    if a == [] {
      assert a + b == b;
    } else {
      assert (a + b)[0] == a[0];
      assert a == [a[0]] + a[1..];
      assert (a + b)[1..] == a[1..] + b;
      SortedInsertSkip(a[1..], b, v, less);
    }
  }

  /** A present key leaves the sequence unchanged. */
  lemma {:induction false} SortedInsertPresent<T(!new)>(s: seq<T>, v: T, less: (T, T) -> bool)
    requires StrictWeakOrder(less) && Ascending(s, less) && Holds(s, v, less)
    ensures SortedInsert(s, v, less) == s
  {
    var i :| 0 <= i < |s| && Equiv(less, s[i], v);
    if i > 0 {
      assert less(s[0], s[i]);
      BelowEquiv(less, s[0], s[i], v);
      assert Equiv(less, s[1..][i - 1], v);
      SortedInsertPresent(s[1..], v, less);
    }
  }

  /** A value below one equivalent to v is below v. */
  lemma BelowEquiv<T(!new)>(less: (T, T) -> bool, a: T, b: T, v: T)
    requires StrictWeakOrder(less) && less(a, b) && Equiv(less, b, v)
    ensures less(a, v) && !less(v, a)
  {
  }

  /** The head of an ascending s is below every element of what inserting v, above the
      head, into the tail gives. */
  lemma HeadBelow<T>(s: seq<T>, t: seq<T>, v: T, less: (T, T) -> bool)
    requires Ascending(s, less) && s != [] && less(s[0], v)
    requires multiset(t) == if Holds(s[1..], v, less) then multiset(s[1..]) else multiset(s[1..]) + multiset{v}
    ensures forall j :: 0 <= j < |t| ==> less(s[0], t[j])
  {
    forall j | 0 <= j < |t| ensures less(s[0], t[j]) {
      assert t[j] in multiset(t);
      if t[j] != v {
        assert t[j] in multiset(s[1..]);
        var m :| 0 <= m < |s[1..]| && s[1..][m] == t[j];
        assert s[1 + m] == t[j];
      }
    }
  }

  lemma ConsAscending<T>(x: T, t: seq<T>, less: (T, T) -> bool)
    requires Ascending(t, less) && forall j :: 0 <= j < |t| ==> less(x, t[j])
    ensures Ascending([x] + t, less)
  {
    var r := [x] + t;
    forall a, b | 0 <= a < b < |r| ensures less(r[a], r[b]) {
      assert r[b] == t[b - 1];
      if a > 0 {
        assert r[a] == t[a - 1];
      }
    }
  }

  /** A head not equivalent to v does not decide whether v is held. */
  lemma HoldsTail<T>(s: seq<T>, v: T, less: (T, T) -> bool)
    requires s != [] && !Equiv(less, s[0], v)
    ensures Holds(s, v, less) <==> Holds(s[1..], v, less)
  {
    if Holds(s, v, less) {
      var i :| 0 <= i < |s| && Equiv(less, s[i], v);
      assert i > 0;
      assert Equiv(less, s[1..][i - 1], v);
    }
    if Holds(s[1..], v, less) {
      var i :| 0 <= i < |s[1..]| && Equiv(less, s[1..][i], v);
      assert Equiv(less, s[i + 1], v);
    }
  }

  /** A value below the head goes in front, and is not held. */
  lemma InsertFront<T(!new)>(s: seq<T>, v: T, less: (T, T) -> bool)
    requires StrictWeakOrder(less) && Ascending(s, less) && s != [] && less(v, s[0])
    ensures forall j :: 0 <= j < |s| ==> less(v, s[j])
    ensures Ascending([v] + s, less) && !Holds(s, v, less)
  {
    forall j | 0 <= j < |s| ensures less(v, s[j]) {
      if j > 0 {
        assert less(s[0], s[j]);
      }
    }
    ConsAscending(v, s, less);
  }

  /** A value above the head goes into the tail; the head stays in front. */
  lemma InsertBehind<T(!new)>(s: seq<T>, v: T, less: (T, T) -> bool)
    requires StrictWeakOrder(less) && Ascending(s, less) && s != [] && less(s[0], v)
    requires Ascending(SortedInsert(s[1..], v, less), less)
    requires multiset(SortedInsert(s[1..], v, less)) ==
             if Holds(s[1..], v, less) then multiset(s[1..]) else multiset(s[1..]) + multiset{v}
    ensures Ascending(SortedInsert(s, v, less), less)
    ensures multiset(SortedInsert(s, v, less)) ==
            if Holds(s, v, less) then multiset(s) else multiset(s) + multiset{v}
  {
    var t := SortedInsert(s[1..], v, less);
    assert SortedInsert(s, v, less) == [s[0]] + t;
    HeadBelow(s, t, v, less);
    ConsAscending(s[0], t, less);
    assert Equiv(less, s[0], v) == false;
    HoldsTail(s, v, less);
    assert s == [s[0]] + s[1..];
  }

  /** A missing key goes in, and the result stays ascending. */
  lemma {:induction false} SortedInsertAscending<T(!new)>(s: seq<T>, v: T, less: (T, T) -> bool)
    requires StrictWeakOrder(less) && Ascending(s, less)
    ensures Ascending(SortedInsert(s, v, less), less)
    ensures multiset(SortedInsert(s, v, less)) ==
            if Holds(s, v, less) then multiset(s) else multiset(s) + multiset{v}
  {
    if s == [] {
    } else if less(v, s[0]) {
      InsertFront(s, v, less);
    } else if less(s[0], v) {
      SortedInsertAscending(s[1..], v, less);
      InsertBehind(s, v, less);
    } else {
      assert Equiv(less, s[0], v);
    }
  }

  // ---- the reference meaning of insert on the shape ----

  /** The shape after `insert(value, root)`: descend by the comparator, hang a
      fresh node n where the search falls off, or stop at an equivalent key. */
  function BstInsert<T>(t: Shape, vm: map<int, T>, v: T, n: int, less: (T, T) -> bool): Shape
    requires Ids(t) <= vm.Keys
  {
    match t
    case Empty => Node(Empty, n, Empty)
    case Node(l, x, r) =>
      if less(v, vm[x]) then Node(BstInsert(l, vm, v, n, less), x, r)
      else if less(vm[x], v) then Node(l, x, BstInsert(r, vm, v, n, less))
      else t
  }

  lemma InorderInVm<T>(t: Shape, vm: map<int, T>)
    requires Ids(t) <= vm.Keys
    ensures forall i :: 0 <= i < |Inorder(t)| ==> Inorder(t)[i] in vm
  {
    WalkIds(t, InOrder);
    assert Walk(t, InOrder) == Inorder(t);
  }

  /** Keys of a subtree, in order. */
  function KeysOf<T>(t: Shape, vm: map<int, T>): seq<T>
    requires Ids(t) <= vm.Keys
  {
    InorderInVm(t, vm);
    Project(Inorder(t), vm)
  }

  /** The key of every node of t is among its keys. */
  lemma KeysOfHas<T>(t: Shape, vm: map<int, T>, x: int)
    requires Ids(t) <= vm.Keys && x in Ids(t)
    ensures vm[x] in KeysOf(t, vm)
  {
    WalkElems(t, InOrder);
    assert x in Walk(t, InOrder);
    var i :| 0 <= i < |Inorder(t)| && Inorder(t)[i] == x;
    InorderInVm(t, vm);
    assert KeysOf(t, vm)[i] == vm[x];
  }

  lemma KeysOfNode<T>(l: Shape, x: int, r: Shape, vm: map<int, T>)
    requires Ids(Node(l, x, r)) <= vm.Keys
    ensures KeysOf(Node(l, x, r), vm) == KeysOf(l, vm) + [vm[x]] + KeysOf(r, vm)
  {
    InorderInVm(l, vm);
    InorderInVm(r, vm);
    ProjectConcat(Inorder(l) + [x], Inorder(r), vm);
    ProjectConcat(Inorder(l), [x], vm);
  }

  lemma KeysOfFrame<T>(t: Shape, vm: map<int, T>, vm': map<int, T>)
    requires Ids(t) <= vm.Keys && Ids(t) <= vm'.Keys
    requires forall x | x in Ids(t) :: vm'[x] == vm[x]
    ensures KeysOf(t, vm') == KeysOf(t, vm)
  {
    InorderInVm(t, vm);
    WalkIds(t, InOrder);
    forall i | 0 <= i < |Inorder(t)|
      ensures Inorder(t)[i] in Ids(t) && vm'[Inorder(t)[i]] == vm[Inorder(t)[i]]
    {
      assert Walk(t, InOrder)[i] == Inorder(t)[i];
    }
    ProjectSame(Inorder(t), vm, vm');
  }

  lemma AscendingParts<T>(a: seq<T>, k: T, b: seq<T>, less: (T, T) -> bool)
    requires Ascending(a + [k] + b, less)
    ensures Ascending(a, less) && Ascending(b, less)
    ensures forall i :: 0 <= i < |a| ==> less(a[i], k)
    ensures forall i :: 0 <= i < |b| ==> less(k, b[i])
  {
    var s := a + [k] + b;
    assert forall i :: 0 <= i < |a| ==> s[i] == a[i];
    assert forall i :: 0 <= i < |b| ==> s[|a| + 1 + i] == b[i];
    assert s[|a|] == k;
    forall i, j | 0 <= i < j < |b| ensures less(b[i], b[j]) {
      assert s[|a| + 1 + i] == b[i] && s[|a| + 1 + j] == b[j];
    }
  }

  /** The key sequence of a node whose left subtree took the insertion. */
  lemma InsertLeftKeys<T>(kl: seq<T>, kx: T, kr: seq<T>, kl': seq<T>, v: T, less: (T, T) -> bool)
    requires less(v, kx) && kl' == SortedInsert(kl, v, less)
    ensures kl' + [kx] + kr == SortedInsert(kl + [kx] + kr, v, less)
  {
    SortedInsertPrefix(kl, [kx] + kr, v, less);
    assert kl + [kx] + kr == kl + ([kx] + kr);
    assert kl' + [kx] + kr == kl' + ([kx] + kr);
  }

  /** The key sequence of a node whose right subtree took the insertion. */
  lemma InsertRightKeys<T(!new)>(kl: seq<T>, kx: T, kr: seq<T>, kr': seq<T>, v: T, less: (T, T) -> bool)
    requires StrictWeakOrder(less) && less(kx, v) && kr' == SortedInsert(kr, v, less)
    requires forall i :: 0 <= i < |kl| ==> less(kl[i], kx)
    ensures kl + [kx] + kr' == SortedInsert(kl + [kx] + kr, v, less)
  {
    forall i | 0 <= i < |kl + [kx]| ensures less((kl + [kx])[i], v) && !less(v, (kl + [kx])[i]) {
      if i < |kl| {
        assert less(kl[i], kx);
      }
    }
    SortedInsertSkip(kl + [kx], kr, v, less);
  }

  /** Insert on the shape agrees with SortedInsert on its key sequence. */
  lemma {:induction false} BstInsertKeys<T(!new)>(t: Shape, vm: map<int, T>, v: T, n: int, less: (T, T) -> bool)
    requires Ids(t) <= vm.Keys && n !in Ids(t)
    requires StrictWeakOrder(less) && Ascending(KeysOf(t, vm), less)
    ensures Ids(BstInsert(t, vm, v, n, less)) <= Ids(t) + {n}
    ensures KeysOf(BstInsert(t, vm, v, n, less), vm[n := v]) == SortedInsert(KeysOf(t, vm), v, less)
  {
    var vm' := vm[n := v];
    match t
    case Empty =>
      KeysOfNode(Empty, n, Empty, vm');
    case Node(l, x, r) =>
      KeysOfNode(l, x, r, vm);
      var kl, kx, kr := KeysOf(l, vm), vm[x], KeysOf(r, vm);
      AscendingParts(kl, kx, kr, less);
      if less(v, kx) {
        BstInsertKeys(l, vm, v, n, less);
        var l' := BstInsert(l, vm, v, n, less);
        assert BstInsert(t, vm, v, n, less) == Node(l', x, r);
        KeysOfNode(l', x, r, vm');
        KeysOfFrame(r, vm, vm');
        InsertLeftKeys(kl, kx, kr, KeysOf(l', vm'), v, less);
      } else if less(kx, v) {
        BstInsertKeys(r, vm, v, n, less);
        var r' := BstInsert(r, vm, v, n, less);
        assert BstInsert(t, vm, v, n, less) == Node(l, x, r');
        KeysOfNode(l, x, r', vm');
        KeysOfFrame(l, vm, vm');
        InsertRightKeys(kl, kx, kr, KeysOf(r', vm'), v, less);
      } else {
        assert KeysOf(t, vm)[|kl|] == kx;
        assert Equiv(less, KeysOf(t, vm)[|kl|], v);
        SortedInsertPresent(KeysOf(t, vm), v, less);
        KeysOfFrame(t, vm, vm');
      }
  }

  /** A BST insertion adds no handle but the fresh one. */
  lemma {:induction false} BstInsertWithin<T>(t: Shape, vm: map<int, T>, v: T, n: int, less: (T, T) -> bool)
    requires Ids(t) <= vm.Keys
    ensures Ids(BstInsert(t, vm, v, n, less)) <= Ids(t) + {n}
  {
    match t
    case Empty =>
    case Node(l, x, r) =>
      BstInsertWithin(l, vm, v, n, less);
      BstInsertWithin(r, vm, v, n, less);
  }

  /** The fresh handle goes in exactly when no equivalent key is stored. */
  lemma {:induction false} BstInsertIds<T(!new)>(t: Shape, vm: map<int, T>, v: T, n: int, less: (T, T) -> bool)
    requires Ids(t) <= vm.Keys && n !in Ids(t)
    requires StrictWeakOrder(less) && Ascending(KeysOf(t, vm), less)
    ensures Holds(KeysOf(t, vm), v, less) ==> BstInsert(t, vm, v, n, less) == t
    ensures !Holds(KeysOf(t, vm), v, less) ==>
              Ids(BstInsert(t, vm, v, n, less)) == Ids(t) + {n} &&
              Size(BstInsert(t, vm, v, n, less)) == Size(t) + 1
  {
    match t
    case Empty =>
    case Node(l, x, r) =>
      KeysOfNode(l, x, r, vm);
      var kl, kx, kr := KeysOf(l, vm), vm[x], KeysOf(r, vm);
      AscendingParts(kl, kx, kr, less);
      if less(v, kx) {
        BstInsertIds(l, vm, v, n, less);
        HoldsLeft(kl, kx, kr, v, less);
      } else if less(kx, v) {
        BstInsertIds(r, vm, v, n, less);
        HoldsRight(kl, kx, kr, v, less);
      } else {
        assert (kl + [kx] + kr)[|kl|] == kx;
      }
  }

  lemma HoldsLeft<T(!new)>(kl: seq<T>, kx: T, kr: seq<T>, v: T, less: (T, T) -> bool)
    requires StrictWeakOrder(less) && less(v, kx)
    requires forall i :: 0 <= i < |kr| ==> less(kx, kr[i])
    ensures Holds(kl + [kx] + kr, v, less) <==> Holds(kl, v, less)
  {
    var k := kl + [kx] + kr;
    if Holds(k, v, less) {
      var i :| 0 <= i < |k| && Equiv(less, k[i], v);
      assert Equiv(less, kl[i], v);
    }
    if Holds(kl, v, less) {
      var i :| 0 <= i < |kl| && Equiv(less, kl[i], v);
      assert Equiv(less, k[i], v);
    }
  }

  lemma HoldsRight<T(!new)>(kl: seq<T>, kx: T, kr: seq<T>, v: T, less: (T, T) -> bool)
    requires StrictWeakOrder(less) && less(kx, v)
    requires forall i :: 0 <= i < |kl| ==> less(kl[i], kx)
    ensures Holds(kl + [kx] + kr, v, less) <==> Holds(kr, v, less)
  {
    var k := kl + [kx] + kr;
    if Holds(k, v, less) {
      var i :| 0 <= i < |k| && Equiv(less, k[i], v);
      assert Equiv(less, kr[i - |kl| - 1], v);
    }
    if Holds(kr, v, less) {
      var i :| 0 <= i < |kr| && Equiv(less, kr[i], v);
      assert Equiv(less, k[|kl| + 1 + i], v);
    }
  }

  /** Inserting below every key of b happens inside a. */
  lemma {:induction false} SortedInsertPrefix<T>(a: seq<T>, b: seq<T>, v: T, less: (T, T) -> bool)
    requires b != [] && less(v, b[0])
    ensures SortedInsert(a + b, v, less) == SortedInsert(a, v, less) + b
  {
    if a == [] {
      assert a + b == b;
    } else {
      assert (a + b)[1..] == a[1..] + b;
      SortedInsertPrefix(a[1..], b, v, less);
    }
  }

  // ---- the reference meaning of cut on the shape ----

  /** The subtree with its leftmost node spliced out. */
  function RemoveLeftmost(t: Shape): Shape
    requires t.Node?
  {
    if t.left.Empty? then t.right else Node(RemoveLeftmost(t.left), t.id, t.right)
  }

  /** The subtree rooted at a node with that node unlinked: a leaf disappears, a
      single child takes its place, and with two children the in-order successor
      (the leftmost node of the right subtree) moves into its place. */
  function CutShape(t: Shape): Shape
    requires t.Node?
  {
    if t.left.Empty? then t.right
    else if t.right.Empty? then t.left
    else Node(t.left, Leftmost(t.right), RemoveLeftmost(t.right))
  }

  /** The whole shape with node x cut out. */
  ghost function CutAt(t: Shape, x: int): Shape
    requires x in Ids(t)
  {
    var (ctx, sub) := Focus(t, x);
    Plug(ctx, CutShape(sub))
  }

  lemma {:induction false} RemoveLeftmostInorder(t: Shape)
    requires t.Node?
    ensures |Inorder(t)| > 0 && Inorder(RemoveLeftmost(t)) == Inorder(t)[1..]
    ensures Leftmost(t) == Inorder(t)[0]
  {
    LeftmostIsInorderFirst(t);
    if t.left.Node? {
      RemoveLeftmostInorder(t.left);
    }
  }

  lemma {:induction false} RemoveLeftmostIds(t: Shape)
    requires t.Node? && Distinct(t)
    ensures Ids(RemoveLeftmost(t)) == Ids(t) - {Leftmost(t)} && Distinct(RemoveLeftmost(t))
    ensures Leftmost(t) in Ids(t) && Size(RemoveLeftmost(t)) + 1 == Size(t)
  {
    DescentsInIds(t);
    if t.left.Node? {
      RemoveLeftmostIds(t.left);
    }
  }

  /** Cutting removes exactly the cut node from the in-order walk. */
  lemma CutShapeInorder(t: Shape)
    requires t.Node?
    ensures Inorder(CutShape(t)) == Inorder(t.left) + Inorder(t.right)
  {
    if t.left.Node? && t.right.Node? {
      RemoveLeftmostInorder(t.right);
      assert Inorder(t.right) == [Leftmost(t.right)] + Inorder(t.right)[1..];
    }
  }

  lemma {:induction false} CutShapeIds(t: Shape)
    requires t.Node? && Distinct(t)
    ensures Ids(CutShape(t)) == Ids(t) - {t.id} && Distinct(CutShape(t))
    ensures Size(CutShape(t)) + 1 == Size(t)
  {
    var l, x, r := t.left, t.id, t.right;
    if l.Node? && r.Node? {
      RemoveLeftmostIds(r);
      DistinctPositive(r);
      var m, r' := Leftmost(r), RemoveLeftmost(r);
      assert CutShape(t) == Node(l, m, r');
      assert Ids(CutShape(t)) == Ids(l) + {m} + Ids(r');
    }
  }

  lemma {:induction false} SizeShrink(ctx: Ctx, s: Shape, s': Shape)
    requires Size(s') + 1 == Size(s)
    ensures Size(Plug(ctx, s')) + 1 == Size(Plug(ctx, s))
    decreases |ctx|
  {
    if ctx != [] {
      SizeShrink(ctx[1..], Wrap(ctx[0], s), Wrap(ctx[0], s'));
    }
  }

  /** CutAt removes x from the handle set and keeps the shape distinct. */
  lemma CutAtIds(t: Shape, x: int)
    requires Distinct(t) && x in Ids(t)
    ensures Ids(CutAt(t, x)) == Ids(t) - {x} && Distinct(CutAt(t, x))
    ensures Size(CutAt(t, x)) + 1 == Size(t)
  {
    var (ctx, sub) := Focus(t, x);
    DistinctPlug(ctx, sub);
    CutShapeIds(sub);
    IdsPlug(ctx, sub);
    IdsPlug(ctx, CutShape(sub));
    DistinctPlug(ctx, CutShape(sub));
    SizeShrink(ctx, sub, CutShape(sub));
  }

  lemma SplitAround(u: seq<int>, x: int, v: seq<int>)
    ensures (u + [x] + v)[|u|] == x
    ensures (u + [x] + v)[..|u|] == u && (u + [x] + v)[|u| + 1..] == v
  {
  }

  /** CutAt removes exactly x from the in-order walk; k is its position. */
  lemma CutAtInorder(t: Shape, x: int) returns (k: nat)
    requires x in Ids(t)
    ensures k < |Inorder(t)| && Inorder(t)[k] == x
    ensures Inorder(CutAt(t, x)) == Inorder(t)[..k] + Inorder(t)[k + 1..]
  {
    var (ctx, sub) := Focus(t, x);
    CutShapeInorder(sub);
    WalkPlug(ctx, sub, InOrder);
    assert Walk(Plug(ctx, sub), InOrder) == Inorder(t);
    WalkPlug(ctx, CutShape(sub), InOrder);
    assert CutAt(t, x) == Plug(ctx, CutShape(sub));
    var p, q := CtxPrefix(ctx, InOrder), CtxSuffix(ctx, InOrder);
    var a, b := Inorder(sub.left), Inorder(sub.right);
    assert Inorder(sub) == a + [x] + b;
    assert Inorder(t) == p + (a + [x] + b) + q;
    Assoc5(p, a, [x], b, q);
    assert Inorder(CutAt(t, x)) == p + (a + b) + q;
    Assoc4(p, a, b, q);
    SplitAround(p + a, x, b + q);
    k := |p + a|;
  }

  lemma Assoc5(p: seq<int>, a: seq<int>, m: seq<int>, b: seq<int>, q: seq<int>)
    ensures p + (a + m + b) + q == (p + a) + m + (b + q)
  {
  }

  lemma Assoc4(p: seq<int>, a: seq<int>, b: seq<int>, q: seq<int>)
    ensures p + (a + b) + q == (p + a) + (b + q)
  {
  }

  // ---- the reference meaning of erase on the value sequence ----

  /** Remove the value equivalent to v, if there is one. */
  function SortedRemove<T>(s: seq<T>, v: T, less: (T, T) -> bool): seq<T> {
    if s == [] then []
    else if Equiv(less, s[0], v) then s[1..]
    else [s[0]] + SortedRemove(s[1..], v, less)
  }

  /** Equivalence under a strict weak order is transitive. */
  lemma EquivTrans<T(!new)>(less: (T, T) -> bool, a: T, b: T, c: T)
    requires StrictWeakOrder(less) && Equiv(less, a, b) && Equiv(less, b, c)
    ensures Equiv(less, a, c)
  {
    assert less(a, c) ==> less(a, b) || less(b, c);
    assert less(c, a) ==> less(c, b) || less(b, a);
  }

  /** In an ascending sequence at most one position holds a value equivalent to v. */
  lemma EquivUnique<T(!new)>(s: seq<T>, v: T, less: (T, T) -> bool, i: nat, j: nat)
    requires StrictWeakOrder(less) && Ascending(s, less) && i < |s| && j < |s|
    requires Equiv(less, s[i], v) && Equiv(less, s[j], v)
    ensures i == j
  {
    EquivTrans(less, s[i], v, s[j]);
  }

  /** SortedRemove drops exactly the position j holding a value equivalent to v. */
  lemma {:induction false} SortedRemoveAt<T(!new)>(s: seq<T>, v: T, less: (T, T) -> bool, j: nat)
    requires StrictWeakOrder(less) && Ascending(s, less) && j < |s| && Equiv(less, s[j], v)
    ensures SortedRemove(s, v, less) == s[..j] + s[j + 1..]
  {
    if Equiv(less, s[0], v) {
      EquivUnique(s, v, less, 0, j);
    } else {
      assert j > 0;
      assert Ascending(s[1..], less);
      assert Equiv(less, s[1..][j - 1], v);
      SortedRemoveAt(s[1..], v, less, j - 1);
      assert s[..j] == [s[0]] + s[1..][..j - 1];
      assert s[j + 1..] == s[1..][j..];
    }
  }

  /** Without an equivalent value, SortedRemove changes nothing. */
  lemma {:induction false} SortedRemoveMissing<T>(s: seq<T>, v: T, less: (T, T) -> bool)
    requires !Holds(s, v, less)
    ensures SortedRemove(s, v, less) == s
  {
    if s != [] {
      assert !Equiv(less, s[0], v);
      forall i | 0 <= i < |s[1..]| ensures !Equiv(less, s[1..][i], v) {
        assert s[1..][i] == s[i + 1];
      }
      SortedRemoveMissing(s[1..], v, less);
    }
  }

  /** Dropping one position keeps a sequence ascending. */
  lemma AscendingDrop<T>(s: seq<T>, j: nat, less: (T, T) -> bool)
    requires Ascending(s, less) && j < |s|
    ensures Ascending(s[..j] + s[j + 1..], less)
  {
    var r := s[..j] + s[j + 1..];
    forall a, b | 0 <= a < b < |r| ensures less(r[a], r[b]) {
      var a', b' := if a < j then a else a + 1, if b < j then b else b + 1;
      assert r[a] == s[a'] && r[b] == s[b'];
    }
  }

  /** Values equivalent to each other are equivalent to the same values. */
  lemma EquivShift<T(!new)>(less: (T, T) -> bool, x: T, u: T, v: T)
    requires StrictWeakOrder(less) && Equiv(less, x, u)
    ensures Equiv(less, x, v) <==> Equiv(less, u, v)
  {
    if Equiv(less, x, v) {
      EquivTrans(less, u, x, v);
    }
    if Equiv(less, u, v) {
      EquivTrans(less, x, u, v);
    }
  }

  /** A value above one equivalent to v is above v. */
  lemma AboveEquiv<T(!new)>(less: (T, T) -> bool, b: T, a: T, v: T)
    requires StrictWeakOrder(less) && less(b, a) && Equiv(less, b, v)
    ensures less(v, a) && !less(a, v)
  {
  }

  /** In an ascending sequence at most one position holds a value equivalent to v. */
  lemma EquivDistinct<T(!new)>(s: seq<T>, v: T, less: (T, T) -> bool, i: nat, j: nat)
    requires StrictWeakOrder(less) && Ascending(s, less) && i < |s| && j < |s| && i != j
    requires Equiv(less, s[j], v)
    ensures !Equiv(less, s[i], v)
  {
    if i < j {
      assert less(s[i], s[j]);
      BelowEquiv(less, s[i], s[j], v);
    } else {
      assert less(s[j], s[i]);
      AboveEquiv(less, s[j], s[i], v);
    }
  }

  /** What is still held after a removal: every value not equivalent to v. */
  lemma HoldsAfterRemove<T(!new)>(s: seq<T>, v: T, less: (T, T) -> bool, j: nat, u: T)
    requires StrictWeakOrder(less) && Ascending(s, less) && j < |s| && Equiv(less, s[j], v)
    ensures Holds(s[..j] + s[j + 1..], u, less) <==> Holds(s, u, less) && !Equiv(less, u, v)
  {
    var r := s[..j] + s[j + 1..];
    if Holds(r, u, less) {
      var a :| 0 <= a < |r| && Equiv(less, r[a], u);
      var a' := if a < j then a else a + 1;
      assert r[a] == s[a'] && a' != j;
      EquivDistinct(s, v, less, a', j);
      EquivShift(less, s[a'], u, v);
    }
    if Holds(s, u, less) && !Equiv(less, u, v) {
      var a :| 0 <= a < |s| && Equiv(less, s[a], u);
      EquivShift(less, s[a], u, v);
      assert a != j;
      var a' := if a < j then a else a - 1;
      assert r[a'] == s[a];
    }
  }

  /** Removing a freshly inserted value undoes the insertion. */
  lemma {:induction false} SortedRemoveInsert<T(!new)>(s: seq<T>, v: T, less: (T, T) -> bool)
    requires StrictWeakOrder(less) && !Holds(s, v, less)
    ensures SortedRemove(SortedInsert(s, v, less), v, less) == s
  {
    if s != [] {
      assert !Equiv(less, s[0], v);
      if less(v, s[0]) {
        assert Equiv(less, v, v);
      } else {
        forall i | 0 <= i < |s[1..]| ensures !Equiv(less, s[1..][i], v) {
          assert s[1..][i] == s[i + 1];
        }
        SortedRemoveInsert(s[1..], v, less);
        assert ([s[0]] + SortedInsert(s[1..], v, less))[1..] == SortedInsert(s[1..], v, less);
      }
    }
  }

  /** After an insertion exactly the old values and v are held. */
  lemma HoldsAfterInsert<T(!new)>(s: seq<T>, v: T, less: (T, T) -> bool, u: T)
    requires StrictWeakOrder(less) && Ascending(s, less)
    ensures Holds(SortedInsert(s, v, less), u, less) <==> Holds(s, u, less) || Equiv(less, u, v)
  {
    SortedInsertAscending(s, v, less);
    var r := SortedInsert(s, v, less);
    if Holds(s, v, less) {
      SortedInsertPresent(s, v, less);
      if Equiv(less, u, v) {
        var i :| 0 <= i < |s| && Equiv(less, s[i], v);
        EquivTrans(less, s[i], v, u);
      }
    } else {
      if Holds(r, u, less) {
        var i :| 0 <= i < |r| && Equiv(less, r[i], u);
        assert r[i] in multiset(r);
        if r[i] != v {
          assert r[i] in multiset(s);
          var m :| 0 <= m < |s| && s[m] == r[i];
        }
      }
      if Holds(s, u, less) {
        var m :| 0 <= m < |s| && Equiv(less, s[m], u);
        assert s[m] in multiset(r);
        var i :| 0 <= i < |r| && r[i] == s[m];
      }
      if Equiv(less, u, v) {
        assert v in multiset(r);
        var i :| 0 <= i < |r| && r[i] == v;
      }
    }
  }

  /** One step of merge: moving the value at j of o into e keeps the union held. */
  lemma MergeStep<T(!new)>(e: seq<T>, o: seq<T>, j: nat, less: (T, T) -> bool, u: T)
    requires StrictWeakOrder(less) && Ascending(e, less) && Ascending(o, less) && j < |o|
    ensures Holds(SortedInsert(e, o[j], less), u, less) || Holds(SortedRemove(o, o[j], less), u, less) <==>
            Holds(e, u, less) || Holds(o, u, less)
  {
    assert Equiv(less, o[j], o[j]);
    SortedRemoveAt(o, o[j], less, j);
    HoldsAfterRemove(o, o[j], less, j, u);
    HoldsAfterInsert(e, o[j], less, u);
    if Equiv(less, u, o[j]) {
      assert Holds(o, u, less) by { EquivTrans(less, o[j], o[j], u); }
    }
  }
}
