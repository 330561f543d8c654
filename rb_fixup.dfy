/** The insert fix-up of src/lib.rs (`recolor_and_rotate` and the helpers it calls:
    `update_tree`, `get_uncle`, `l_and_lr_situations`, `r_and_rl_situations`), on values.

    The helpers have no bodies in the source; they are written here in the textbook form:
    recolour when the uncle is RED, otherwise rotate the triangle shape into a line and
    rotate the grandparent.  Two places where the source's own tests differ from that
    form are kept as notes:
      - src/lib.rs:166 runs the fix-up only when an uncle exists; the textbook form treats
        an absent uncle as BLACK (`FixUpAsWritten` below models the source's test);
      - src/lib.rs:169 picks the left-hand case when the parent HAS a left child; the
        textbook form picks it when the parent IS the grandparent's left child.
    The red-black invariants 2 and 3 are proved for the textbook form only: they are the
    intended behaviour, not what the literal source does. */
module RbFixUp {
  import opened RbTree

  function Painted(t: Tree, c: Color): Tree {
    if t.Leaf? then Leaf else t.(color := c)
  }

  /** The final step of `recolor_and_rotate`: the root is coloured BLACK. */
  function Blacken(t: Tree): Tree {
    Painted(t, Black)
  }

  /** Left rotation around the root of `t`: its right child takes its place. */
  function RotateLeft(t: Tree): Tree
    requires t.Node? && t.right.Node?
  {
    var y := t.right;
    Node(y.color, Node(t.color, t.left, t.id, t.key, y.left), y.id, y.key, y.right)
  }

  /** Right rotation around the root of `t`: its left child takes its place. */
  function RotateRight(t: Tree): Tree
    requires t.Node? && t.left.Node?
  {
    var y := t.left;
    Node(y.color, y.left, y.id, y.key, Node(t.color, y.right, t.id, t.key, t.right))
  }

  /** `update_tree`: the grandparent's subtree after colouring the parent and the uncle
      BLACK and the grandparent RED (`z` is the child, `pf` its parent's frame, `gf` the
      grandparent's frame). */
  function Recolor(z: Tree, pf: Frame, gf: Frame): Tree {
    Attach(gf.(color := Red, sibling := Painted(gf.sibling, Black)), Attach(pf.(color := Black), z))
  }

  /** `l_and_lr_situations` (parent is the grandparent's left child): rotate the parent
      left when `z` is its right child, then colour the new parent BLACK and the
      grandparent RED and rotate the grandparent right. */
  function LeftCases(z: Tree, pf: Frame, gf: Frame): Tree
    requires z.Node?
  {
    var p := Attach(pf, z);
    var p1 := if pf.InRight? then RotateLeft(p) else p;
    RotateRight(Node(Red, Painted(p1, Black), gf.id, gf.key, gf.sibling))
  }

  /** `r_and_rl_situations`: the mirror image of `LeftCases`. */
  function RightCases(z: Tree, pf: Frame, gf: Frame): Tree
    requires z.Node?
  {
    var p := Attach(pf, z);
    var p1 := if pf.InLeft? then RotateRight(p) else p;
    RotateLeft(Node(Red, gf.sibling, gf.id, gf.key, Painted(p1, Black)))
  }

  /** `recolor_and_rotate` without its final root colouring: acts only when `z`'s parent
      is RED and a grandparent exists; a RED uncle is recoloured and the walk continues
      from the grandparent, otherwise the rotation cases finish the walk. */
  function FixUp(z: Tree, ctx: Path): Tree
    requires z.Node?
    decreases |ctx|
  {
    if |ctx| < 2 || ctx[0].color == Black then Plug(z, ctx)
    else if IsRed(ctx[1].sibling) then FixUp(Recolor(z, ctx[0], ctx[1]), ctx[2..])
    else if ctx[1].InLeft? then Plug(LeftCases(z, ctx[0], ctx[1]), ctx[2..])
    else Plug(RightCases(z, ctx[0], ctx[1]), ctx[2..])
  }

  /** `insert_process` on values: descent, fix-up from the new node, BLACK root. */
  function Insert(t: Tree, id: nat, key: int): Tree {
    Blacken(FixUp(NewLeaf(id, key), InsertPath(t, key)))
  }

  // ----- the fix-up keeps the records and their order -----

  predicate SameContents(a: Tree, b: Tree) {
    InOrder(a) == InOrder(b) && Keys(a) == Keys(b)
  }

  lemma {:induction false} PlugSameContents(a: Tree, b: Tree, ctx: Path)
    requires SameContents(a, b)
    ensures SameContents(Plug(a, ctx), Plug(b, ctx))
    decreases |ctx|
  {
    if ctx != [] {
      PlugSameContents(Attach(ctx[0], a), Attach(ctx[0], b), ctx[1..]);
    }
  }

  lemma {:induction false} PlugIsNode(t: Tree, ctx: Path)
    requires t.Node?
    ensures Plug(t, ctx).Node?
    decreases |ctx|
  {
    if ctx != [] {
      PlugIsNode(Attach(ctx[0], t), ctx[1..]);
    }
  }

  /** The rotation cases in closed form, for `z` below a parent that is a left child. */
  lemma LeftCasesShape(z: Tree, pf: Frame, gf: Frame)
    requires z.Node?
    ensures pf.InRight? ==>
      LeftCases(z, pf, gf) ==
        Node(Black, Node(pf.color, pf.sibling, pf.id, pf.key, z.left), z.id, z.key,
                    Node(Red, z.right, gf.id, gf.key, gf.sibling))
    ensures pf.InLeft? ==>
      LeftCases(z, pf, gf) ==
        Node(Black, z, pf.id, pf.key, Node(Red, pf.sibling, gf.id, gf.key, gf.sibling))
  {
  }

  /** The mirror image of `LeftCasesShape`. */
  lemma RightCasesShape(z: Tree, pf: Frame, gf: Frame)
    requires z.Node?
    ensures pf.InLeft? ==>
      RightCases(z, pf, gf) ==
        Node(Black, Node(Red, gf.sibling, gf.id, gf.key, z.left), z.id, z.key,
                    Node(pf.color, z.right, pf.id, pf.key, pf.sibling))
    ensures pf.InRight? ==>
      RightCases(z, pf, gf) ==
        Node(Black, Node(Red, gf.sibling, gf.id, gf.key, pf.sibling), pf.id, pf.key, z)
  {
  }

  lemma RotateLeftContents(t: Tree)
    requires t.Node? && t.right.Node?
    ensures SameContents(RotateLeft(t), t)
  {
    var y := t.right;
    assert InOrder(RotateLeft(t)) == (InOrder(t.left) + [t.id] + InOrder(y.left)) + [y.id] + InOrder(y.right);
    assert Keys(RotateLeft(t)) == (Keys(t.left) + [t.key] + Keys(y.left)) + [y.key] + Keys(y.right);
  }

  lemma RotateRightContents(t: Tree)
    requires t.Node? && t.left.Node?
    ensures SameContents(RotateRight(t), t)
  {
    var y := t.left;
    assert InOrder(RotateRight(t)) == InOrder(y.left) + [y.id] + (InOrder(y.right) + [t.id] + InOrder(t.right));
    assert Keys(RotateRight(t)) == Keys(y.left) + [y.key] + (Keys(y.right) + [t.key] + Keys(t.right));
  }

  /** A node's contents depend only on its children's contents, not on its colour. */
  lemma NodeSameContents(c: Color, c': Color, l: Tree, l': Tree, id: nat, key: int, r: Tree)
    requires SameContents(l, l')
    ensures SameContents(Node(c, l, id, key, r), Node(c', l', id, key, r))
  {
  }

  lemma LeftCasesContents(z: Tree, pf: Frame, gf: Frame)
    requires z.Node? && gf.InLeft?
    ensures SameContents(LeftCases(z, pf, gf), Attach(gf, Attach(pf, z)))
  {
    var p := Attach(pf, z);
    var p1 := if pf.InRight? then RotateLeft(p) else p;
    if pf.InRight? {
      RotateLeftContents(p);
    }
    assert SameContents(Painted(p1, Black), p);
    var n := Node(Red, Painted(p1, Black), gf.id, gf.key, gf.sibling);
    NodeSameContents(Red, gf.color, Painted(p1, Black), p, gf.id, gf.key, gf.sibling);
    RotateRightContents(n);
  }

  /** The mirror image of `LeftCasesContents`. */
  lemma RightCasesContents(z: Tree, pf: Frame, gf: Frame)
    requires z.Node? && gf.InRight?
    ensures SameContents(RightCases(z, pf, gf), Attach(gf, Attach(pf, z)))
  {
    var p := Attach(pf, z);
    var p1 := if pf.InLeft? then RotateRight(p) else p;
    if pf.InLeft? {
      RotateRightContents(p);
    }
    assert SameContents(Painted(p1, Black), p);
    var n := Node(Red, gf.sibling, gf.id, gf.key, Painted(p1, Black));
    assert SameContents(n, Attach(gf, p));
    RotateLeftContents(n);
  }

  /** Recolouring and rotating never reorder records: the in-order slots and keys after
      the fix-up are those of the tree it started from. */
  lemma {:induction false} FixUpContents(z: Tree, ctx: Path)
    requires z.Node?
    ensures SameContents(FixUp(z, ctx), Plug(z, ctx))
    ensures FixUp(z, ctx).Node?
    decreases |ctx|
  {
    PlugIsNode(z, ctx);
    if |ctx| < 2 || ctx[0].color == Black {
    } else {
      var up := Attach(ctx[1], Attach(ctx[0], z));
      assert ctx[1..][1..] == ctx[2..];
      assert Plug(z, ctx) == Plug(up, ctx[2..]);
      if IsRed(ctx[1].sibling) {
        var z' := Recolor(z, ctx[0], ctx[1]);
        FixUpContents(z', ctx[2..]);
        assert SameContents(z', up);
        PlugSameContents(z', up, ctx[2..]);
      } else if ctx[1].InLeft? {
        LeftCasesContents(z, ctx[0], ctx[1]);
        PlugSameContents(LeftCases(z, ctx[0], ctx[1]), up, ctx[2..]);
        PlugIsNode(LeftCases(z, ctx[0], ctx[1]), ctx[2..]);
      } else {
        RightCasesContents(z, ctx[0], ctx[1]);
        PlugSameContents(RightCases(z, ctx[0], ctx[1]), up, ctx[2..]);
        PlugIsNode(RightCases(z, ctx[0], ctx[1]), ctx[2..]);
      }
    }
  }

  /** Insertion links the records in the same in-order sequence as the plain descent. */
  lemma InsertContents(t: Tree, id: nat, key: int)
    ensures SameContents(Insert(t, id, key), BstInsert(t, id, key))
    ensures Insert(t, id, key).Node? && Insert(t, id, key).color == Black
  {
    InsertPathPlug(t, id, key);
    FixUpContents(NewLeaf(id, key), InsertPath(t, key));
  }

  /** Insertion adds exactly the new key and keeps the BST order: the in-order sequence
      of keys stays non-decreasing. */
  lemma InsertKeys(t: Tree, id: nat, key: int)
    ensures multiset(Keys(Insert(t, id, key))) == multiset(Keys(t)) + multiset{key}
    ensures IsBst(t) ==> IsBst(Insert(t, id, key)) && Sorted(Keys(Insert(t, id, key)))
  {
    InsertContents(t, id, key);
    BstInsertKeys(t, id, key);
    if IsBst(t) {
      BstInsertOrdered(t, id, key);
      BstIffSortedKeys(BstInsert(t, id, key));
      BstIffSortedKeys(Insert(t, id, key));
    }
  }

  /** Insertion links exactly one more record, the one in slot `id`, and no record twice. */
  lemma InsertIds(t: Tree, id: nat, key: int)
    ensures IdSet(Insert(t, id, key)) == IdSet(t) + {id}
    ensures Size(Insert(t, id, key)) == Size(t) + 1
    ensures UniqueIds(t) && id !in IdSet(t) ==> UniqueIds(Insert(t, id, key))
  {
    var r := Insert(t, id, key);
    var b := BstInsert(t, id, key);
    InsertContents(t, id, key);
    BstInsertIds(t, id, key);
    IdSetIsInOrder(r);
    IdSetIsInOrder(b);
    InOrderSize(r);
    InOrderSize(b);
    if UniqueIds(t) && id !in IdSet(t) {
      BstInsertUnique(t, id, key);
      UniqueIdsIsNoDup(b);
      UniqueIdsIsNoDup(r);
    }
  }

  /** When the new record's parent is BLACK the fix-up changes nothing but the root
      colour, and a tree whose root was already BLACK comes out exactly as the plain
      descent left it. */
  lemma InsertUnderBlackParent(t: Tree, id: nat, key: int)
    requires InsertPath(t, key) != [] && InsertPath(t, key)[0].color == Black
    ensures Insert(t, id, key) == Blacken(BstInsert(t, id, key))
    ensures !IsRed(t) ==> Insert(t, id, key) == BstInsert(t, id, key)
  {
    InsertPathPlug(t, id, key);
  }

  // ----- the textbook fix-up restores the red-black invariants -----

  /** No red-red link inside the context, nor between the focus (RED when `focusRed`)
      and its parent. */
  predicate NoRedRedCtx(ctx: Path, focusRed: bool)
    decreases |ctx|
  {
    ctx == [] ||
    (NoRedRed(ctx[0].sibling) &&
     (ctx[0].color == Red ==> !IsRed(ctx[0].sibling) && !focusRed) &&
     NoRedRedCtx(ctx[1..], ctx[0].color == Red))
  }

  /** Every sibling in the context is balanced with the black height that a focus of
      black height `h` needs at its level. */
  predicate BalancedCtx(ctx: Path, h: nat)
    decreases |ctx|
  {
    ctx == [] ||
    (Balanced(ctx[0].sibling) && BlackHeight(ctx[0].sibling) == h &&
     BalancedCtx(ctx[1..], h + if ctx[0].color == Black then 1 else 0))
  }

  lemma {:induction false} PlugNoRedRed(t: Tree, ctx: Path)
    ensures NoRedRed(Plug(t, ctx)) <==> NoRedRed(t) && NoRedRedCtx(ctx, IsRed(t))
    decreases |ctx|
  {
    if ctx != [] {
      PlugNoRedRed(Attach(ctx[0], t), ctx[1..]);
    }
  }

  lemma {:induction false} PlugBalanced(t: Tree, ctx: Path)
    ensures Balanced(Plug(t, ctx)) <==> Balanced(t) && BalancedCtx(ctx, BlackHeight(t))
    decreases |ctx|
  {
    if ctx != [] {
      PlugBalanced(Attach(ctx[0], t), ctx[1..]);
    }
  }

  /** The loop invariant of the textbook fix-up: `z` is a RED, otherwise valid subtree,
      the only possible violation is a RED parent of `z`, black heights agree
      everywhere, and the root is BLACK unless `z` is the root. */
  predicate FixUpInvariant(z: Tree, ctx: Path) {
    IsRed(z) && NoRedRed(z) && Balanced(z) &&
    NoRedRedCtx(ctx, false) && BalancedCtx(ctx, BlackHeight(z)) &&
    (ctx != [] ==> ctx[|ctx| - 1].color == Black)
  }

  /** What the invariant says about the two levels above `z` when its parent is RED:
      the grandparent is BLACK, the parent's other child and the uncle are valid
      subtrees of `z`'s black height, and the rest of the path is as it should be. */
  lemma InvariantAtRedParent(z: Tree, ctx: Path)
    requires FixUpInvariant(z, ctx)
    requires |ctx| >= 2 && ctx[0].color == Red
    ensures ctx[1].color == Black
    ensures NoRedRed(ctx[0].sibling) && !IsRed(ctx[0].sibling)
    ensures Balanced(ctx[0].sibling) && BlackHeight(ctx[0].sibling) == BlackHeight(z)
    ensures NoRedRed(ctx[1].sibling) && Balanced(ctx[1].sibling)
    ensures BlackHeight(ctx[1].sibling) == BlackHeight(z)
    ensures NoRedRedCtx(ctx[2..], false) && BalancedCtx(ctx[2..], BlackHeight(z) + 1)
    ensures ctx[2..] != [] ==> ctx[2..][|ctx[2..]| - 1].color == Black
  {
    var rest := ctx[1..];
    assert rest[0] == ctx[1] && rest[1..] == ctx[2..];
    assert NoRedRedCtx(rest, true);
    assert BalancedCtx(rest, BlackHeight(z));
    assert NoRedRedCtx(rest[1..], rest[0].color == Red);
  }

  lemma RecolorKeepsInvariant(z: Tree, ctx: Path)
    requires FixUpInvariant(z, ctx)
    requires |ctx| >= 2 && ctx[0].color == Red && IsRed(ctx[1].sibling)
    ensures FixUpInvariant(Recolor(z, ctx[0], ctx[1]), ctx[2..])
    ensures BlackHeight(Recolor(z, ctx[0], ctx[1])) == BlackHeight(z) + 1
  {
    InvariantAtRedParent(z, ctx);
    var h := BlackHeight(z);
    var p' := Attach(ctx[0].(color := Black), z);
    assert NoRedRed(p') && Balanced(p') && BlackHeight(p') == h + 1;
    var u := ctx[1].sibling;
    var u' := Painted(u, Black);
    assert u' == Node(Black, u.left, u.id, u.key, u.right);
    assert NoRedRed(u') && Balanced(u') && BlackHeight(u') == h + 1;
    var z' := Recolor(z, ctx[0], ctx[1]);
    assert z' == Attach(ctx[1].(color := Red, sibling := u'), p');
    assert IsRed(z') && NoRedRed(z') && Balanced(z') && BlackHeight(z') == h + 1;
  }

  lemma LeftCasesValid(z: Tree, ctx: Path)
    requires FixUpInvariant(z, ctx)
    requires |ctx| >= 2 && ctx[0].color == Red && !IsRed(ctx[1].sibling) && ctx[1].InLeft?
    ensures var r := LeftCases(z, ctx[0], ctx[1]);
      !IsRed(r) && NoRedRed(r) && Balanced(r) && BlackHeight(r) == BlackHeight(z) + 1
  {
    InvariantAtRedParent(z, ctx);
    LeftCasesShape(z, ctx[0], ctx[1]);
  }

  lemma RightCasesValid(z: Tree, ctx: Path)
    requires FixUpInvariant(z, ctx)
    requires |ctx| >= 2 && ctx[0].color == Red && !IsRed(ctx[1].sibling) && ctx[1].InRight?
    ensures var r := RightCases(z, ctx[0], ctx[1]);
      !IsRed(r) && NoRedRed(r) && Balanced(r) && BlackHeight(r) == BlackHeight(z) + 1
  {
    InvariantAtRedParent(z, ctx);
    RightCasesShape(z, ctx[0], ctx[1]);
  }

  /** From the loop invariant, the fix-up ends with no red-red link and equal black
      heights everywhere (the root may still be RED). */
  lemma {:induction false} FixUpRestores(z: Tree, ctx: Path)
    requires FixUpInvariant(z, ctx)
    ensures NoRedRed(FixUp(z, ctx)) && Balanced(FixUp(z, ctx))
    decreases |ctx|
  {
    if |ctx| < 2 || ctx[0].color == Black {
      PlugNoRedRed(z, ctx);
      PlugBalanced(z, ctx);
    } else if IsRed(ctx[1].sibling) {
      RecolorKeepsInvariant(z, ctx);
      FixUpRestores(Recolor(z, ctx[0], ctx[1]), ctx[2..]);
    } else if ctx[1].InLeft? {
      InvariantAtRedParent(z, ctx);
      LeftCasesValid(z, ctx);
      PlugNoRedRed(LeftCases(z, ctx[0], ctx[1]), ctx[2..]);
      PlugBalanced(LeftCases(z, ctx[0], ctx[1]), ctx[2..]);
    } else {
      InvariantAtRedParent(z, ctx);
      RightCasesValid(z, ctx);
      PlugNoRedRed(RightCases(z, ctx[0], ctx[1]), ctx[2..]);
      PlugBalanced(RightCases(z, ctx[0], ctx[1]), ctx[2..]);
    }
  }

  /** Intended behaviour: inserting into a red-black tree gives a red-black tree (BLACK
      root, no RED node with a RED child, equal black height on every path). */
  lemma InsertKeepsRedBlack(t: Tree, id: nat, key: int)
    requires IsRedBlack(t)
    ensures IsRedBlack(Insert(t, id, key))
  {
    var ctx := InsertPath(t, key);
    InsertPathPlug(t, id, key);
    PlugNoRedRed(Leaf, ctx);
    PlugBalanced(Leaf, ctx);
    if ctx != [] {
      var n := |ctx| - 1;
      assert ctx == ctx[..n] + [ctx[n]];
      PlugSnoc(Leaf, ctx[..n], ctx[n]);
      assert t.color == ctx[n].color;
    }
    assert FixUpInvariant(NewLeaf(id, key), ctx);
    FixUpRestores(NewLeaf(id, key), ctx);
  }

  // ----- the fix-up with the uncle test of src/lib.rs:166 as written -----

  /** The fix-up with the uncle test of `recolor_and_rotate` as written: besides a RED
      parent and a grandparent, it also needs an uncle to exist, and does nothing when
      the uncle's slot is empty.  Everything else is as in `FixUp`. */
  function FixUpAsWritten(z: Tree, ctx: Path): Tree
    requires z.Node?
    decreases |ctx|
  {
    if |ctx| < 2 || ctx[0].color == Black then Plug(z, ctx)
    else if ctx[1].sibling.Leaf? then Plug(z, ctx)
    else if IsRed(ctx[1].sibling) then FixUpAsWritten(Recolor(z, ctx[0], ctx[1]), ctx[2..])
    else if ctx[1].InLeft? then Plug(LeftCases(z, ctx[0], ctx[1]), ctx[2..])
    else Plug(RightCases(z, ctx[0], ctx[1]), ctx[2..])
  }

  /** `insert_process` on values, with the uncle test as written. */
  function InsertAsWritten(t: Tree, id: nat, key: int): Tree {
    Blacken(FixUpAsWritten(NewLeaf(id, key), InsertPath(t, key)))
  }

  /** The two fix-ups differ only where the grandparent has no other child: while the
      node next to the parent is present at every step, they give the same tree. */
  lemma {:induction false} FixUpAsWrittenWithUncle(z: Tree, ctx: Path)
    requires z.Node?
    requires forall j :: 0 <= j < |ctx| / 2 ==> ctx[2 * j + 1].sibling.Node?
    ensures FixUpAsWritten(z, ctx) == FixUp(z, ctx)
    decreases |ctx|
  {
    if |ctx| >= 2 && ctx[0].color == Red {
      assert ctx[2 * 0 + 1].sibling.Node?;
      if IsRed(ctx[1].sibling) {
        var rest := ctx[2..];
        forall j | 0 <= j < |rest| / 2
          ensures rest[2 * j + 1].sibling.Node?
        {
          assert rest[2 * j + 1] == ctx[2 * (j + 1) + 1];
        }
        FixUpAsWrittenWithUncle(Recolor(z, ctx[0], ctx[1]), rest);
      }
    }
  }

  /** The as-written fix-up still keeps the records and their order. */
  lemma {:induction false} FixUpAsWrittenContents(z: Tree, ctx: Path)
    requires z.Node?
    ensures SameContents(FixUpAsWritten(z, ctx), Plug(z, ctx))
    decreases |ctx|
  {
    if |ctx| < 2 || ctx[0].color == Black || ctx[1].sibling.Leaf? {
    } else {
      var up := Attach(ctx[1], Attach(ctx[0], z));
      assert ctx[1..][1..] == ctx[2..];
      assert Plug(z, ctx) == Plug(up, ctx[2..]);
      if IsRed(ctx[1].sibling) {
        var z' := Recolor(z, ctx[0], ctx[1]);
        FixUpAsWrittenContents(z', ctx[2..]);
        assert SameContents(z', up);
        PlugSameContents(z', up, ctx[2..]);
      } else if ctx[1].InLeft? {
        LeftCasesContents(z, ctx[0], ctx[1]);
        PlugSameContents(LeftCases(z, ctx[0], ctx[1]), up, ctx[2..]);
      } else {
        RightCasesContents(z, ctx[0], ctx[1]);
        PlugSameContents(RightCases(z, ctx[0], ctx[1]), up, ctx[2..]);
      }
    }
  }

  /** Keys 1, 2, 3 inserted in that order into an empty tree: with the uncle test as
      written, the third record finds a RED parent, a grandparent and no uncle, so nothing
      is rotated and two RED records end up linked in a chain of height 3; the textbook
      fix-up rotates, keeps the invariants and gives height 2. */
  lemma AbsentUncleLeavesRedRed()
    ensures var t := InsertAsWritten(InsertAsWritten(InsertAsWritten(Leaf, 0, 1), 1, 2), 2, 3);
      t == Node(Black, Leaf, 0, 1, Node(Red, Leaf, 1, 2, Node(Red, Leaf, 2, 3, Leaf))) &&
      IsBst(t) && !NoRedRed(t) && Height(t) == 3
    ensures var t := Insert(Insert(Insert(Leaf, 0, 1), 1, 2), 2, 3);
      t == Node(Black, Node(Red, Leaf, 0, 1, Leaf), 1, 2, Node(Red, Leaf, 2, 3, Leaf)) &&
      IsBst(t) && IsRedBlack(t) && Height(t) == 2
  {
    var t1 := Node(Black, Leaf, 0, 1, Leaf);
    var t2 := Node(Black, Leaf, 0, 1, NewLeaf(1, 2));
    assert InsertPath(Leaf, 1) == [];
    assert InsertAsWritten(Leaf, 0, 1) == t1 && Insert(Leaf, 0, 1) == t1;
    var c2 := InsertPath(t1, 2);
    assert c2 == [InRight(Black, 0, 1, Leaf)];
    assert Plug(NewLeaf(1, 2), c2) == t2;
    assert InsertAsWritten(t1, 1, 2) == t2 && Insert(t1, 1, 2) == t2;
    var c3 := InsertPath(t2, 3);
    assert c3 == [InRight(Red, 1, 2, Leaf), InRight(Black, 0, 1, Leaf)];
    assert c3[2..] == [];
    assert Plug(NewLeaf(2, 3), c3) == Node(Black, Leaf, 0, 1, Node(Red, Leaf, 1, 2, NewLeaf(2, 3)));
    assert RightCases(NewLeaf(2, 3), c3[0], c3[1]) ==
      Node(Black, Node(Red, Leaf, 0, 1, Leaf), 1, 2, Node(Red, Leaf, 2, 3, Leaf));
  }
}
