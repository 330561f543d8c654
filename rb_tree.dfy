/** Value model of the scheduler's red-black tree of process records (src/lib.rs).

    A process record linked into the tree is a `Node`: its colour (`node_color`), its
    subtrees (`left_node`, `right_node`), the arena slot `id` that names the record, and
    its sort key `key` (`v_runtime`).  A `Path` is the zipper context of a subtree: the
    frames from its parent up to the root, which is what the source's `parent_node`
    back-links let the fix-up walk.  This module holds the tree views, the binary-search
    descent of `treenode_insertion`, and the leftmost descent of
    `get_minimum_vruntime_proc`, with their lemmas. */
module RbTree {

  /** `ProcColor` */
  datatype Color = Red | Black

  datatype Tree = Leaf | Node(color: Color, left: Tree, id: nat, key: int, right: Tree)

  /** One step from a focused subtree to its parent.  `InLeft` says the focus is the
      parent's left child and `sibling` is the parent's right subtree; `InRight` is the
      mirror image. */
  datatype Frame =
    | InLeft(color: Color, id: nat, key: int, sibling: Tree)
    | InRight(color: Color, id: nat, key: int, sibling: Tree)

  /** Frames innermost first: `ctx[0]` is the parent, the last frame is the root. */
  type Path = seq<Frame>

  function Attach(f: Frame, t: Tree): Tree {
    match f
    case InLeft(c, i, k, s) => Node(c, t, i, k, s)
    case InRight(c, i, k, s) => Node(c, s, i, k, t)
  }

  /** The whole tree obtained by putting `t` back into its context. */
  function Plug(t: Tree, ctx: Path): Tree
    decreases |ctx|
  {
    if ctx == [] then t else Plug(Attach(ctx[0], t), ctx[1..])
  }

  lemma {:induction false} PlugSnoc(t: Tree, ctx: Path, f: Frame)
    ensures Plug(t, ctx + [f]) == Attach(f, Plug(t, ctx))
    decreases |ctx|
  {
    if ctx == [] {
      assert Plug(t, [f]) == Plug(Attach(f, t), []);
    } else {
      assert (ctx + [f])[1..] == ctx[1..] + [f];
      PlugSnoc(Attach(ctx[0], t), ctx[1..], f);
    }
  }

  // ----- views of a tree -----

  /** Slots in in-order (left, node, right). */
  function InOrder(t: Tree): seq<nat> {
    match t
    case Leaf => []
    case Node(_, l, i, _, r) => InOrder(l) + [i] + InOrder(r)
  }

  /** Keys in in-order. */
  function Keys(t: Tree): seq<int> {
    match t
    case Leaf => []
    case Node(_, l, _, k, r) => Keys(l) + [k] + Keys(r)
  }

  function IdSet(t: Tree): set<nat> {
    match t
    case Leaf => {}
    case Node(_, l, i, _, r) => IdSet(l) + {i} + IdSet(r)
  }

  function Size(t: Tree): nat {
    match t
    case Leaf => 0
    case Node(_, l, _, _, r) => Size(l) + 1 + Size(r)
  }

  function Height(t: Tree): nat {
    match t
    case Leaf => 0
    case Node(_, l, _, _, r) => 1 + if Height(l) < Height(r) then Height(r) else Height(l)
  }

  /** No process record is linked twice. */
  predicate UniqueIds(t: Tree) {
    match t
    case Leaf => true
    case Node(_, l, i, _, r) =>
      UniqueIds(l) && UniqueIds(r) && i !in IdSet(l) && i !in IdSet(r) && IdSet(l) !! IdSet(r)
  }

  predicate Sorted(s: seq<int>) {
    forall i, j :: 0 <= i < j < |s| ==> s[i] <= s[j]
  }

  predicate NoDup(s: seq<nat>) {
    forall i, j :: 0 <= i < j < |s| ==> s[i] != s[j]
  }

  /** Binary-search-tree order: every key is at least every key on its left and at most
      every key on its right (equal keys may sit on either side once rotated). */
  predicate IsBst(t: Tree) {
    match t
    case Leaf => true
    case Node(_, l, _, k, r) =>
      IsBst(l) && IsBst(r) &&
      (forall x :: x in Keys(l) ==> x <= k) && (forall x :: x in Keys(r) ==> k <= x)
  }

  // ----- red-black invariants -----

  predicate IsRed(t: Tree) {
    t.Node? && t.color == Red
  }

  /** Number of BLACK nodes on the leftmost path (absent children count 0). */
  function BlackHeight(t: Tree): nat {
    match t
    case Leaf => 0
    case Node(c, l, _, _, _) => BlackHeight(l) + if c == Black then 1 else 0
  }

  /** No RED node has a RED child. */
  predicate NoRedRed(t: Tree) {
    match t
    case Leaf => true
    case Node(c, l, _, _, r) =>
      NoRedRed(l) && NoRedRed(r) && (c == Red ==> !IsRed(l) && !IsRed(r))
  }

  /** Both subtrees of every node have the same black height. */
  predicate Balanced(t: Tree) {
    match t
    case Leaf => true
    case Node(_, l, _, _, r) => Balanced(l) && Balanced(r) && BlackHeight(l) == BlackHeight(r)
  }

  /** The red-black invariants 1-3: BLACK root, no red-red, equal black height. */
  predicate IsRedBlack(t: Tree) {
    !IsRed(t) && NoRedRed(t) && Balanced(t)
  }

  // ----- lemmas about the views -----

  lemma {:induction false} IdSetIsInOrder(t: Tree)
    ensures forall x :: x in IdSet(t) <==> x in InOrder(t)
  {
    match t
    case Leaf =>
    case Node(_, l, _, _, r) => IdSetIsInOrder(l); IdSetIsInOrder(r);
  }

  lemma {:induction false} InOrderSize(t: Tree)
    ensures |InOrder(t)| == Size(t)
  {
    match t
    case Leaf =>
    case Node(_, l, _, _, r) => InOrderSize(l); InOrderSize(r);
  }

  lemma NoDupConcat(a: seq<nat>, x: nat, b: seq<nat>)
    ensures NoDup(a + [x] + b) <==>
      NoDup(a) && NoDup(b) && x !in a && x !in b && (forall y :: y in a ==> y !in b)
  {
    var s := a + [x] + b;
    if NoDup(s) {
      NoDupSplit(a, x, b);
    }
    if NoDup(a) && NoDup(b) && x !in a && x !in b && (forall y :: y in a ==> y !in b) {
      forall i, j | 0 <= i < j < |s| ensures s[i] != s[j] {
        if j < |a| {
          assert s[i] == a[i] && s[j] == a[j];
        } else if i < |a| {
          assert s[i] == a[i] && s[i] in a;
          if j == |a| { assert s[j] == x; } else { assert s[j] == b[j - |a| - 1]; assert s[j] in b; }
        } else if i == |a| {
          assert s[j] == b[j - |a| - 1]; assert s[j] in b;
        } else {
          assert s[i] == b[i - |a| - 1] && s[j] == b[j - |a| - 1];
        }
      }
    }
  }

  lemma NoDupSplit(a: seq<nat>, x: nat, b: seq<nat>)
    requires NoDup(a + [x] + b)
    ensures NoDup(a) && NoDup(b) && x !in a && x !in b && (forall y :: y in a ==> y !in b)
  {
    var s := a + [x] + b;
    forall i, j | 0 <= i < j < |a| ensures a[i] != a[j] {
      assert a[i] == s[i] && a[j] == s[j];
    }
    forall i, j | 0 <= i < j < |b| ensures b[i] != b[j] {
      assert b[i] == s[|a| + 1 + i] && b[j] == s[|a| + 1 + j];
    }
    forall i, j | 0 <= i < |a| && 0 <= j < |b| ensures a[i] != b[j] {
      assert a[i] == s[i] && b[j] == s[|a| + 1 + j];
    }
    forall i | 0 <= i < |a| ensures a[i] != x {
      assert a[i] == s[i] && x == s[|a|];
    }
    forall j | 0 <= j < |b| ensures b[j] != x {
      assert b[j] == s[|a| + 1 + j] && x == s[|a|];
    }
  }

  /** UniqueIds is the same as: the in-order slot sequence has no repetition. */
  lemma {:induction false} UniqueIdsIsNoDup(t: Tree)
    ensures UniqueIds(t) <==> NoDup(InOrder(t))
  {
    match t
    case Leaf =>
    case Node(_, l, i, _, r) =>
      UniqueIdsIsNoDup(l);
      UniqueIdsIsNoDup(r);
      IdSetIsInOrder(l);
      IdSetIsInOrder(r);
      NoDupConcat(InOrder(l), i, InOrder(r));
  }

  lemma {:induction false} UniqueIdsSize(t: Tree)
    requires UniqueIds(t)
    ensures |IdSet(t)| == Size(t)
  {
    match t
    case Leaf =>
    case Node(_, l, i, _, r) =>
      UniqueIdsSize(l);
      UniqueIdsSize(r);
      assert IdSet(l) * IdSet(r) == {};
      assert |IdSet(l) + IdSet(r)| == |IdSet(l)| + |IdSet(r)|;
      assert IdSet(t) == (IdSet(l) + IdSet(r)) + {i};
  }

  lemma SortedConcat(a: seq<int>, x: int, b: seq<int>)
    ensures Sorted(a + [x] + b) <==>
      Sorted(a) && Sorted(b) && (forall y :: y in a ==> y <= x) && (forall y :: y in b ==> x <= y)
  {
    if Sorted(a + [x] + b) {
      SortedSplit(a, x, b);
    }
    if Sorted(a) && Sorted(b) && (forall y :: y in a ==> y <= x) && (forall y :: y in b ==> x <= y) {
      SortedJoin(a, x, b);
    }
  }

  lemma SortedSplit(a: seq<int>, x: int, b: seq<int>)
    requires Sorted(a + [x] + b)
    ensures Sorted(a) && Sorted(b) && (forall y :: y in a ==> y <= x) && (forall y :: y in b ==> x <= y)
  {
    var s := a + [x] + b;
    forall i, j | 0 <= i < j < |a| ensures a[i] <= a[j] {
      assert a[i] == s[i] && a[j] == s[j];
    }
    forall i, j | 0 <= i < j < |b| ensures b[i] <= b[j] {
      assert b[i] == s[|a| + 1 + i] && b[j] == s[|a| + 1 + j];
    }
    forall y | y in a ensures y <= x {
      var i :| 0 <= i < |a| && a[i] == y;
      assert s[i] <= s[|a|];
    }
    forall y | y in b ensures x <= y {
      var j :| 0 <= j < |b| && b[j] == y;
      assert s[|a|] <= s[|a| + 1 + j];
    }
  }

  lemma SortedJoin(a: seq<int>, x: int, b: seq<int>)
    requires Sorted(a) && Sorted(b) && (forall y :: y in a ==> y <= x) && (forall y :: y in b ==> x <= y)
    ensures Sorted(a + [x] + b)
  {
    var s := a + [x] + b;
    forall i, j | 0 <= i < j < |s| ensures s[i] <= s[j] {
      if j < |a| {
        assert s[i] == a[i] && s[j] == a[j];
      } else if i < |a| {
        assert s[i] == a[i] && s[i] in a;
        if j > |a| { assert s[j] == b[j - |a| - 1]; assert s[j] in b; }
      } else if i == |a| {
        assert s[j] == b[j - |a| - 1]; assert s[j] in b;
      } else {
        assert s[i] == b[i - |a| - 1] && s[j] == b[j - |a| - 1];
      }
    }
  }

  /** Invariant 4 (BST order) holds exactly when the in-order traversal is non-decreasing. */
  lemma {:induction false} BstIffSortedKeys(t: Tree)
    ensures IsBst(t) <==> Sorted(Keys(t))
  {
    match t
    case Leaf =>
    case Node(_, l, _, k, r) =>
      BstIffSortedKeys(l);
      BstIffSortedKeys(r);
      SortedConcat(Keys(l), k, Keys(r));
  }

  // ----- treenode_insertion: binary-search descent -----

  /** The record being linked: coloured RED, no children. */
  function NewLeaf(id: nat, key: int): Tree {
    Node(Red, Leaf, id, key, Leaf)
  }

  /** `treenode_insertion`: keys greater than or equal to the current key go right,
      strictly smaller keys go left; an empty subtree becomes the new RED node. */
  function BstInsert(t: Tree, id: nat, key: int): Tree {
    match t
    case Leaf => NewLeaf(id, key)
    case Node(c, l, i, k, r) =>
      if k <= key then Node(c, l, i, k, BstInsert(r, id, key))
      else Node(c, BstInsert(l, id, key), i, k, r)
  }

  /** The context of the empty subtree where `treenode_insertion` attaches a record with
      key `key`; its first frame is the attachment point. */
  function InsertPath(t: Tree, key: int): Path {
    match t
    case Leaf => []
    case Node(c, l, i, k, r) =>
      if k <= key then InsertPath(r, key) + [InRight(c, i, k, l)]
      else InsertPath(l, key) + [InLeft(c, i, k, r)]
  }

  /** Plugging the new node into the insertion context gives the descent's result, and
      plugging the empty subtree back gives the tree unchanged. */
  lemma {:induction false} InsertPathPlug(t: Tree, id: nat, key: int)
    ensures Plug(NewLeaf(id, key), InsertPath(t, key)) == BstInsert(t, id, key)
    ensures Plug(Leaf, InsertPath(t, key)) == t
  {
    match t
    case Leaf =>
    case Node(c, l, i, k, r) =>
      if k <= key {
        InsertPathPlug(r, id, key);
        PlugSnoc(NewLeaf(id, key), InsertPath(r, key), InRight(c, i, k, l));
        PlugSnoc(Leaf, InsertPath(r, key), InRight(c, i, k, l));
      } else {
        InsertPathPlug(l, id, key);
        PlugSnoc(NewLeaf(id, key), InsertPath(l, key), InLeft(c, i, k, r));
        PlugSnoc(Leaf, InsertPath(l, key), InLeft(c, i, k, r));
      }
  }

  /** At every ancestor of the attachment point the new record went right exactly when
      the ancestor's key is less than or equal to the new key: ties always go right. */
  lemma {:induction false} InsertPathRoutes(t: Tree, key: int)
    ensures forall f :: f in InsertPath(t, key) ==> (f.InRight? <==> f.key <= key)
  {
    match t
    case Leaf =>
    case Node(c, l, i, k, r) =>
      if k <= key { InsertPathRoutes(r, key); } else { InsertPathRoutes(l, key); }
  }

  /** The descent adds exactly one key: the multiset of keys grows by the new key. */
  lemma {:induction false} BstInsertKeys(t: Tree, id: nat, key: int)
    ensures multiset(Keys(BstInsert(t, id, key))) == multiset(Keys(t)) + multiset{key}
  {
    match t
    case Leaf =>
    case Node(c, l, i, k, r) =>
      if k <= key { BstInsertKeys(r, id, key); } else { BstInsertKeys(l, id, key); }
  }

  /** The descent links exactly one more record, the one in slot `id`. */
  lemma {:induction false} BstInsertIds(t: Tree, id: nat, key: int)
    ensures IdSet(BstInsert(t, id, key)) == IdSet(t) + {id}
    ensures Size(BstInsert(t, id, key)) == Size(t) + 1
  {
    match t
    case Leaf =>
    case Node(c, l, i, k, r) =>
      if k <= key { BstInsertIds(r, id, key); } else { BstInsertIds(l, id, key); }
  }

  lemma {:induction false} BstInsertUnique(t: Tree, id: nat, key: int)
    requires UniqueIds(t) && id !in IdSet(t)
    ensures UniqueIds(BstInsert(t, id, key))
  {
    match t
    case Leaf =>
    case Node(c, l, i, k, r) =>
      if k <= key {
        BstInsertUnique(r, id, key);
        BstInsertIds(r, id, key);
      } else {
        BstInsertUnique(l, id, key);
        BstInsertIds(l, id, key);
      }
  }

  /** The keys after the descent are the old keys and the new one. */
  lemma BstInsertMembers(t: Tree, id: nat, key: int)
    ensures forall x :: x in Keys(BstInsert(t, id, key)) <==> x in Keys(t) || x == key
  {
    BstInsertKeys(t, id, key);
    forall x
      ensures x in Keys(BstInsert(t, id, key)) <==> x in Keys(t) || x == key
    {
      assert x in Keys(BstInsert(t, id, key)) <==> x in multiset(Keys(BstInsert(t, id, key)));
      assert x in Keys(t) <==> x in multiset(Keys(t));
    }
  }

  /** The descent keeps the BST order. */
  lemma {:induction false} BstInsertOrdered(t: Tree, id: nat, key: int)
    requires IsBst(t)
    ensures IsBst(BstInsert(t, id, key))
  {
    match t
    case Leaf =>
    case Node(c, l, i, k, r) =>
      if k <= key {
        BstInsertOrdered(r, id, key);
        BstInsertMembers(r, id, key);
        assert BstInsert(t, id, key) == Node(c, l, i, k, BstInsert(r, id, key));
      } else {
        BstInsertOrdered(l, id, key);
        BstInsertMembers(l, id, key);
        assert BstInsert(t, id, key) == Node(c, BstInsert(l, id, key), i, k, r);
      }
  }

  // ----- get_minimum_vruntime_proc: leftmost descent -----

  /** The node reached by following left links from the root of `t`. */
  function Leftmost(t: Tree): (m: Tree)
    requires t.Node?
    ensures m.Node? && m.left.Leaf?
    ensures m.id == InOrder(t)[0] && m.key == Keys(t)[0]
  {
    if t.left.Leaf? then t else Leftmost(t.left)
  }

  /** In a BST the leftmost node holds a key no larger than any key of the tree. */
  lemma LeftmostIsMinimum(t: Tree)
    requires t.Node?
    ensures IsBst(t) ==> forall x :: x in Keys(t) ==> Leftmost(t).key <= x
  {
    if !IsBst(t) {
      return;
    }
    BstIffSortedKeys(t);
    forall x | x in Keys(t) ensures Keys(t)[0] <= x {
      var j :| 0 <= j < |Keys(t)| && Keys(t)[j] == x;
      if j > 0 {
        assert Keys(t)[0] <= Keys(t)[j];
      }
    }
  }
}
