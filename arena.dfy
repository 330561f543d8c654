/** The process records of src/lib.rs laid out in an arena: each record lives in a slot,
    and its intrusive links (`left_node`, `right_node`, `parent_node`) are optional slot
    indices instead of owning boxes.  `Realizes` says that the links, colours and keys
    stored in the arena spell out a given value tree, with every parent link agreeing
    with the child link above it; `RealizesCtx` says the same of a zipper context. */
module Arena {
  import opened RbTree
  import opened RbFixUp

  datatype Option<T> = None | Some(value: T)

  /** An optional slot index: `Option<Box<Proc>>` in the source. */
  type Link = Option<nat>

  /** The scheduling fields of a process record (`struct Proc`) that the tree reads or
      writes. */
  datatype Proc = Proc(
    pid: int,
    weight: int,
    vRuntime: int,
    nodeColor: Color,
    leftNode: Link,
    rightNode: Link,
    parentNode: Link)

  /** `nodes` and `nodes'` hold the same records in the slots `ids`. */
  ghost predicate Agree(ids: set<nat>, nodes: seq<Proc>, nodes': seq<Proc>) {
    forall i :: i in ids ==> i < |nodes| && i < |nodes'| && nodes'[i] == nodes[i]
  }

  /** The links reachable from `n` spell out `t`, and the record at the root of `t` has
      parent link `par`. */
  ghost predicate Realizes(t: Tree, n: Link, par: Link, nodes: seq<Proc>) {
    match t
    case Leaf => n == None
    case Node(c, l, i, k, r) =>
      n == Some(i) && i < |nodes| &&
      nodes[i].nodeColor == c && nodes[i].vRuntime == k && nodes[i].parentNode == par &&
      Realizes(l, nodes[i].leftNode, Some(i), nodes) &&
      Realizes(r, nodes[i].rightNode, Some(i), nodes)
  }

  function ParentLink(ctx: Path): Link {
    if ctx == [] then None else Some(ctx[0].id)
  }

  /** The frames of `ctx` are stored in the arena, the first one links down to slot
      `child`, and each frame's record links up to the next frame. */
  ghost predicate RealizesCtx(ctx: Path, child: nat, nodes: seq<Proc>)
    decreases |ctx|
  {
    ctx == [] ||
    (var f := ctx[0];
     f.id < |nodes| &&
     nodes[f.id].nodeColor == f.color && nodes[f.id].vRuntime == f.key &&
     nodes[f.id].parentNode == ParentLink(ctx[1..]) &&
     (if f.InLeft? then
        nodes[f.id].leftNode == Some(child) &&
        Realizes(f.sibling, nodes[f.id].rightNode, Some(f.id), nodes)
      else
        nodes[f.id].rightNode == Some(child) &&
        Realizes(f.sibling, nodes[f.id].leftNode, Some(f.id), nodes)) &&
     RealizesCtx(ctx[1..], f.id, nodes))
  }

  /** Slots used by the frames of a context and by their siblings. */
  function CtxIds(ctx: Path): set<nat>
    decreases |ctx|
  {
    if ctx == [] then {} else {ctx[0].id} + IdSet(ctx[0].sibling) + CtxIds(ctx[1..])
  }

  predicate UniqueCtx(ctx: Path)
    decreases |ctx|
  {
    ctx == [] ||
    (UniqueIds(ctx[0].sibling) && ctx[0].id !in IdSet(ctx[0].sibling) &&
     ctx[0].id !in CtxIds(ctx[1..]) && IdSet(ctx[0].sibling) !! CtxIds(ctx[1..]) &&
     UniqueCtx(ctx[1..]))
  }

  /** The slot at the root of the whole tree. */
  lemma {:induction false} PlugTop(t: Tree, ctx: Path)
    requires t.Node?
    ensures Plug(t, ctx).Node?
    ensures Plug(t, ctx).id == if ctx == [] then t.id else ctx[|ctx| - 1].id
    decreases |ctx|
  {
    if ctx != [] {
      PlugTop(Attach(ctx[0], t), ctx[1..]);
    }
  }

  lemma {:induction false} PlugIds(t: Tree, ctx: Path)
    ensures IdSet(Plug(t, ctx)) == IdSet(t) + CtxIds(ctx)
    ensures UniqueIds(Plug(t, ctx)) <==> UniqueIds(t) && UniqueCtx(ctx) && IdSet(t) !! CtxIds(ctx)
    decreases |ctx|
  {
    if ctx != [] {
      PlugIds(Attach(ctx[0], t), ctx[1..]);
    }
  }

  lemma {:induction false} PlugRealizes(t: Tree, ctx: Path, root: Link, nodes: seq<Proc>)
    requires t.Node?
    ensures Plug(t, ctx).Node?
    ensures Realizes(Plug(t, ctx), root, None, nodes) <==>
      root == Some(Plug(t, ctx).id) &&
      Realizes(t, Some(t.id), ParentLink(ctx), nodes) && RealizesCtx(ctx, t.id, nodes)
    decreases |ctx|
  {
    PlugTop(t, ctx);
    if ctx != [] {
      PlugRealizes(Attach(ctx[0], t), ctx[1..], root, nodes);
    }
  }

  /** Everything the arena says about a focused subtree `t` inside the whole tree. */
  lemma Decompose(t: Tree, ctx: Path, root: Link, nodes: seq<Proc>)
    requires t.Node? && Realizes(Plug(t, ctx), root, None, nodes) && UniqueIds(Plug(t, ctx))
    ensures Plug(t, ctx).Node?
    ensures root == Some(Plug(t, ctx).id)
    ensures Realizes(t, Some(t.id), ParentLink(ctx), nodes) && RealizesCtx(ctx, t.id, nodes)
    ensures UniqueIds(t) && UniqueCtx(ctx) && IdSet(t) !! CtxIds(ctx)
  {
    PlugRealizes(t, ctx, root, nodes);
    PlugIds(t, ctx);
  }

  lemma {:induction false} RealizesFrame(t: Tree, n: Link, par: Link, nodes: seq<Proc>, nodes': seq<Proc>)
    requires Realizes(t, n, par, nodes)
    requires Agree(IdSet(t), nodes, nodes')
    ensures Realizes(t, n, par, nodes')
  {
    match t
    case Leaf =>
    case Node(_, l, i, _, r) =>
      RealizesFrame(l, nodes[i].leftNode, Some(i), nodes, nodes');
      RealizesFrame(r, nodes[i].rightNode, Some(i), nodes, nodes');
  }

  /** A subtree whose root record is given a new parent link and whose other records are
      untouched is still spelled out, under the new parent. */
  lemma RealizesReparent(t: Tree, par: Link, par': Link, nodes: seq<Proc>, nodes': seq<Proc>)
    requires t.Node? && UniqueIds(t) && Realizes(t, Some(t.id), par, nodes)
    requires t.id < |nodes'| && nodes'[t.id] == nodes[t.id].(parentNode := par')
    requires Agree(IdSet(t) - {t.id}, nodes, nodes')
    ensures Realizes(t, Some(t.id), par', nodes')
  {
    RealizesFrame(t.left, nodes[t.id].leftNode, Some(t.id), nodes, nodes');
    RealizesFrame(t.right, nodes[t.id].rightNode, Some(t.id), nodes, nodes');
  }

  lemma {:induction false} RealizesCtxFrame(ctx: Path, child: nat, nodes: seq<Proc>, nodes': seq<Proc>)
    requires RealizesCtx(ctx, child, nodes)
    requires Agree(CtxIds(ctx), nodes, nodes')
    ensures RealizesCtx(ctx, child, nodes')
    decreases |ctx|
  {
    if ctx != [] {
      var f := ctx[0];
      if f.InLeft? {
        RealizesFrame(f.sibling, nodes[f.id].rightNode, Some(f.id), nodes, nodes');
      } else {
        RealizesFrame(f.sibling, nodes[f.id].leftNode, Some(f.id), nodes, nodes');
      }
      RealizesCtxFrame(ctx[1..], f.id, nodes, nodes');
    }
  }

  /** The record of the first frame after its child link on the focus side is redirected
      to `child`. */
  function Relinked(f: Frame, p: Proc, child: nat): Proc {
    if f.InLeft? then p.(leftNode := Some(child)) else p.(rightNode := Some(child))
  }

  /** The context is still spelled out when the first frame's child link on the focus
      side is redirected to a new focus record and nothing else in it changes. */
  lemma RealizesCtxRelink(ctx: Path, child: nat, child': nat, nodes: seq<Proc>, nodes': seq<Proc>)
    requires ctx != [] && UniqueCtx(ctx) && RealizesCtx(ctx, child, nodes)
    requires ctx[0].id < |nodes'| && nodes'[ctx[0].id] == Relinked(ctx[0], nodes[ctx[0].id], child')
    requires Agree(CtxIds(ctx) - {ctx[0].id}, nodes, nodes')
    ensures RealizesCtx(ctx, child', nodes')
  {
    var f := ctx[0];
    assert CtxIds(ctx) == {f.id} + IdSet(f.sibling) + CtxIds(ctx[1..]);
    assert Agree(IdSet(f.sibling), nodes, nodes') && Agree(CtxIds(ctx[1..]), nodes, nodes') by {
      assert f.id !in IdSet(f.sibling) && f.id !in CtxIds(ctx[1..]);
      assert IdSet(f.sibling) <= CtxIds(ctx) - {f.id};
      assert CtxIds(ctx[1..]) <= CtxIds(ctx) - {f.id};
    }
    if f.InLeft? {
      RealizesFrame(f.sibling, nodes[f.id].rightNode, Some(f.id), nodes, nodes');
    } else {
      RealizesFrame(f.sibling, nodes[f.id].leftNode, Some(f.id), nodes, nodes');
    }
    RealizesCtxFrame(ctx[1..], f.id, nodes, nodes');
  }

  /** The first frame's child link on the other side is not the focus record. */
  lemma OtherLinkIsNotFocus(ctx: Path, t: Tree, nodes: seq<Proc>)
    requires ctx != [] && t.Node? && RealizesCtx(ctx, t.id, nodes) && IdSet(t) !! CtxIds(ctx)
    ensures ctx[0].InLeft? ==> nodes[ctx[0].id].rightNode != Some(t.id)
    ensures ctx[0].InRight? ==> nodes[ctx[0].id].leftNode != Some(t.id)
  {
    assert t.id in IdSet(t);
  }

  /** The frame that sees `t`'s sibling as the focus. */
  function Flip(f: Frame, t: Tree): Frame {
    if f.InLeft? then InRight(f.color, f.id, f.key, t) else InLeft(f.color, f.id, f.key, t)
  }

  lemma FlipPlug(t: Tree, f: Frame, rest: Path)
    ensures Plug(t, [f] + rest) == Plug(f.sibling, [Flip(f, t)] + rest)
  {
    assert ([f] + rest)[1..] == rest;
    assert ([Flip(f, t)] + rest)[1..] == rest;
    assert Attach(f, t) == Attach(Flip(f, t), f.sibling);
  }

  lemma {:induction false} RealizesBounded(t: Tree, n: Link, par: Link, nodes: seq<Proc>)
    requires Realizes(t, n, par, nodes)
    ensures forall i :: i in IdSet(t) ==> i < |nodes|
  {
    match t
    case Leaf =>
    case Node(_, l, i, _, r) =>
      RealizesBounded(l, nodes[i].leftNode, Some(i), nodes);
      RealizesBounded(r, nodes[i].rightNode, Some(i), nodes);
  }

  lemma {:induction false} RealizesCtxBounded(ctx: Path, child: nat, nodes: seq<Proc>)
    requires RealizesCtx(ctx, child, nodes)
    ensures forall i :: i in CtxIds(ctx) ==> i < |nodes|
    decreases |ctx|
  {
    if ctx != [] {
      var f := ctx[0];
      if f.InLeft? {
        RealizesBounded(f.sibling, nodes[f.id].rightNode, Some(f.id), nodes);
      } else {
        RealizesBounded(f.sibling, nodes[f.id].leftNode, Some(f.id), nodes);
      }
      RealizesCtxBounded(ctx[1..], f.id, nodes);
    }
  }

  lemma RotateLeftUnique(t: Tree)
    requires t.Node? && t.right.Node? && UniqueIds(t)
    ensures IdSet(RotateLeft(t)) == IdSet(t) && UniqueIds(RotateLeft(t))
  {
    var x, y, a, b, c := t.id, t.right.id, t.left, t.right.left, t.right.right;
    assert IdSet(t.right) == IdSet(b) + {y} + IdSet(c);
    assert UniqueIds(Node(t.color, a, x, t.key, b));
  }

  lemma RotateRightUnique(t: Tree)
    requires t.Node? && t.left.Node? && UniqueIds(t)
    ensures IdSet(RotateRight(t)) == IdSet(t) && UniqueIds(RotateRight(t))
  {
    var x, y, a, b, c := t.id, t.left.id, t.left.left, t.left.right, t.right;
    assert IdSet(t.left) == IdSet(a) + {y} + IdSet(b);
    assert UniqueIds(Node(t.color, b, x, t.key, c));
  }

  /** The link rewiring of a left rotation around the record `x` at the focus of the
      zipper: `x` takes its right child's left subtree, that child `y` takes `x`'s place
      under `x`'s parent (or as root), and `x` becomes `y`'s left child.  The arena after
      the rewiring spells out the rotated tree in the same context. */
  lemma LeftRotateLinks(t: Tree, ctx: Path, root: Link, root': Link, nodes: seq<Proc>, nodes': seq<Proc>)
    requires t.Node? && t.right.Node? && UniqueIds(Plug(t, ctx)) && Realizes(Plug(t, ctx), root, None, nodes)
    requires t.id < |nodes| && t.right.id < |nodes| && |nodes'| == |nodes|
    requires nodes'[t.id] ==
      nodes[t.id].(rightNode := nodes[t.right.id].leftNode, parentNode := Some(t.right.id))
    requires nodes'[t.right.id] ==
      nodes[t.right.id].(parentNode := ParentLink(ctx), leftNode := Some(t.id))
    requires t.right.left.Node? ==>
      t.right.left.id < |nodes| &&
      nodes'[t.right.left.id] == nodes[t.right.left.id].(parentNode := Some(t.id))
    requires ctx != [] ==>
      ctx[0].id < |nodes| && nodes'[ctx[0].id] == Relinked(ctx[0], nodes[ctx[0].id], t.right.id)
    requires forall i ::
      (0 <= i < |nodes| && i != t.id && i != t.right.id &&
       (t.right.left.Node? ==> i != t.right.left.id) && (ctx != [] ==> i != ctx[0].id)) ==>
        nodes'[i] == nodes[i]
    requires root' == if ctx == [] then Some(t.right.id) else root
    ensures Realizes(Plug(RotateLeft(t), ctx), root', None, nodes')
    ensures UniqueIds(Plug(RotateLeft(t), ctx))
  {
    Decompose(t, ctx, root, nodes);
    RealizesBounded(t, Some(t.id), ParentLink(ctx), nodes);
    RealizesCtxBounded(ctx, t.id, nodes);
    var x, y, a, bt, ct := t.id, t.right.id, t.left, t.right.left, t.right.right;
    assert nodes[x].rightNode == Some(y);
    assert Realizes(t.right, Some(y), Some(x), nodes);
    assert Realizes(bt, nodes[y].leftNode, Some(y), nodes);
    assert IdSet(t.right) == IdSet(bt) + {y} + IdSet(ct);
    RealizesFrame(a, nodes[x].leftNode, Some(x), nodes, nodes');
    RealizesFrame(ct, nodes[y].rightNode, Some(y), nodes, nodes');
    if bt.Node? {
      RealizesReparent(bt, Some(y), Some(x), nodes, nodes');
    }
    var r := RotateLeft(t);
    assert Realizes(bt, nodes'[x].rightNode, Some(x), nodes');
    assert Realizes(r.left, Some(x), Some(y), nodes');
    assert Realizes(r, Some(y), ParentLink(ctx), nodes');
    if ctx != [] {
      assert ctx[0].id in CtxIds(ctx);
      RealizesCtxRelink(ctx, x, y, nodes, nodes');
    }
    RotateLeftUnique(t);
    PlugTop(t, ctx);
    PlugTop(r, ctx);
    PlugRealizes(r, ctx, root', nodes');
    PlugIds(t, ctx);
    PlugIds(r, ctx);
  }

  /** The slot at the root of a subtree, if any. */
  function RootLink(t: Tree): Link {
    if t.Leaf? then None else Some(t.id)
  }

  /** What the record at the root of a spelled-out subtree links to. */
  lemma RealizesLinks(t: Tree, n: Link, par: Link, nodes: seq<Proc>)
    requires t.Node? && Realizes(t, n, par, nodes)
    ensures n == Some(t.id) && t.id < |nodes| && nodes[t.id].parentNode == par
    ensures nodes[t.id].leftNode == RootLink(t.left) && nodes[t.id].rightNode == RootLink(t.right)
    ensures Realizes(t.left, nodes[t.id].leftNode, Some(t.id), nodes)
    ensures Realizes(t.right, nodes[t.id].rightNode, Some(t.id), nodes)
  {
  }

  /** A child link of a linked record is answered by that child's parent link. */
  ghost predicate LinksBack(nodes: seq<Proc>, i: nat)
    requires i < |nodes|
  {
    (nodes[i].leftNode.Some? ==>
       nodes[i].leftNode.value < |nodes| && nodes[nodes[i].leftNode.value].parentNode == Some(i)) &&
    (nodes[i].rightNode.Some? ==>
       nodes[i].rightNode.value < |nodes| && nodes[nodes[i].rightNode.value].parentNode == Some(i))
  }

  /** In a spelled-out subtree every record's child links and its children's parent links
      agree. */
  lemma {:induction false} RealizesLinksBack(t: Tree, n: Link, par: Link, nodes: seq<Proc>)
    requires Realizes(t, n, par, nodes)
    ensures forall i :: i in IdSet(t) ==> i < |nodes| && LinksBack(nodes, i)
  {
    match t
    case Leaf =>
    case Node(_, l, i, _, r) =>
      RealizesLinksBack(l, nodes[i].leftNode, Some(i), nodes);
      RealizesLinksBack(r, nodes[i].rightNode, Some(i), nodes);
  }

  /** The links a rotation around the focus `t` reads, and the slots it touches being
      pairwise distinct. */
  lemma RotationSetup(t: Tree, ctx: Path, root: Link, nodes: seq<Proc>)
    requires t.Node? && UniqueIds(Plug(t, ctx)) && Realizes(Plug(t, ctx), root, None, nodes)
    ensures t.id < |nodes| && nodes[t.id].parentNode == ParentLink(ctx)
    ensures nodes[t.id].leftNode == RootLink(t.left) && nodes[t.id].rightNode == RootLink(t.right)
    ensures t.left.Node? ==>
      t.left.id < |nodes| && t.left.id != t.id && nodes[t.left.id].parentNode == Some(t.id) &&
      nodes[t.left.id].leftNode == RootLink(t.left.left) &&
      nodes[t.left.id].rightNode == RootLink(t.left.right) &&
      (t.left.right.Node? ==> t.left.right.id < |nodes| && t.left.right.id !in {t.id, t.left.id})
    ensures t.right.Node? ==>
      t.right.id < |nodes| && t.right.id != t.id && nodes[t.right.id].parentNode == Some(t.id) &&
      nodes[t.right.id].leftNode == RootLink(t.right.left) &&
      nodes[t.right.id].rightNode == RootLink(t.right.right) &&
      (t.right.left.Node? ==> t.right.left.id < |nodes| && t.right.left.id !in {t.id, t.right.id})
    ensures ctx != [] ==>
      ctx[0].id < |nodes| && ctx[0].id != t.id &&
      (t.left.Node? ==>
        ctx[0].id != t.left.id && (t.left.right.Node? ==> ctx[0].id != t.left.right.id)) &&
      (t.right.Node? ==>
        ctx[0].id != t.right.id && (t.right.left.Node? ==> ctx[0].id != t.right.left.id)) &&
      (nodes[ctx[0].id].leftNode == Some(t.id) <==> ctx[0].InLeft?)
  {
    Decompose(t, ctx, root, nodes);
    RealizesBounded(t, Some(t.id), ParentLink(ctx), nodes);
    RealizesLinks(t, Some(t.id), ParentLink(ctx), nodes);
    if ctx != [] {
      assert ctx[0].id in CtxIds(ctx);
      RealizesCtxBounded(ctx, t.id, nodes);
      OtherLinkIsNotFocus(ctx, t, nodes);
    }
    if t.left.Node? {
      RealizesLinks(t.left, nodes[t.id].leftNode, Some(t.id), nodes);
      assert IdSet(t.left) == IdSet(t.left.left) + {t.left.id} + IdSet(t.left.right);
    }
    if t.right.Node? {
      RealizesLinks(t.right, nodes[t.id].rightNode, Some(t.id), nodes);
      assert IdSet(t.right) == IdSet(t.right.left) + {t.right.id} + IdSet(t.right.right);
    }
  }

  /** `LeftRotateLinks` for the rewiring done in three steps: the middle subtree's
      root is moved under `x`, `x`'s parent is pointed at `y`, and `x` and `y` swap
      places. */
  lemma LeftRotateSteps(t: Tree, ctx: Path, root: Link, root': Link,
                        nodes: seq<Proc>, n1: seq<Proc>, n2: seq<Proc>, nodes': seq<Proc>)
    requires t.Node? && t.right.Node? && UniqueIds(Plug(t, ctx)) && Realizes(Plug(t, ctx), root, None, nodes)
    requires t.right.left.Node? ==>
      t.right.left.id < |nodes| &&
      n1 == nodes[t.right.left.id := nodes[t.right.left.id].(parentNode := Some(t.id))]
    requires t.right.left.Leaf? ==> n1 == nodes
    requires ctx != [] ==>
      ctx[0].id < |n1| && n2 == n1[ctx[0].id := Relinked(ctx[0], n1[ctx[0].id], t.right.id)]
    requires ctx == [] ==> n2 == n1
    requires t.id < |n2| && t.right.id < |n2|
    requires nodes' ==
      n2[t.id := n2[t.id].(rightNode := RootLink(t.right.left), parentNode := Some(t.right.id))]
        [t.right.id := n2[t.right.id].(leftNode := Some(t.id), parentNode := ParentLink(ctx))]
    requires root' == if ctx == [] then Some(t.right.id) else root
    ensures Realizes(Plug(RotateLeft(t), ctx), root', None, nodes')
    ensures UniqueIds(Plug(RotateLeft(t), ctx))
    ensures SameRecords(nodes, nodes')
  {
    RotationSetup(t, ctx, root, nodes);
    LeftRotateLinks(t, ctx, root, root', nodes, nodes');
    if t.right.left.Node? {
      SameRecordsUpdate(nodes, t.right.left.id, n1[t.right.left.id]);
    }
    if ctx != [] {
      SameRecordsUpdate(n1, ctx[0].id, n2[ctx[0].id]);
    }
    var n3 := n2[t.id := nodes'[t.id]];
    SameRecordsUpdate(n2, t.id, nodes'[t.id]);
    SameRecordsUpdate(n3, t.right.id, nodes'[t.right.id]);
    SameRecordsSteps(nodes, n1, n2, n3);
    SameRecordsSteps(nodes, n3, nodes', nodes');
  }

  /** The mirror image of `LeftRotateSteps`. */
  lemma RightRotateSteps(t: Tree, ctx: Path, root: Link, root': Link,
                        nodes: seq<Proc>, n1: seq<Proc>, n2: seq<Proc>, nodes': seq<Proc>)
    requires t.Node? && t.left.Node? && UniqueIds(Plug(t, ctx)) && Realizes(Plug(t, ctx), root, None, nodes)
    requires t.left.right.Node? ==>
      t.left.right.id < |nodes| &&
      n1 == nodes[t.left.right.id := nodes[t.left.right.id].(parentNode := Some(t.id))]
    requires t.left.right.Leaf? ==> n1 == nodes
    requires ctx != [] ==>
      ctx[0].id < |n1| && n2 == n1[ctx[0].id := Relinked(ctx[0], n1[ctx[0].id], t.left.id)]
    requires ctx == [] ==> n2 == n1
    requires t.id < |n2| && t.left.id < |n2|
    requires nodes' ==
      n2[t.id := n2[t.id].(leftNode := RootLink(t.left.right), parentNode := Some(t.left.id))]
        [t.left.id := n2[t.left.id].(rightNode := Some(t.id), parentNode := ParentLink(ctx))]
    requires root' == if ctx == [] then Some(t.left.id) else root
    ensures Realizes(Plug(RotateRight(t), ctx), root', None, nodes')
    ensures UniqueIds(Plug(RotateRight(t), ctx))
    ensures SameRecords(nodes, nodes')
  {
    RotationSetup(t, ctx, root, nodes);
    RightRotateLinks(t, ctx, root, root', nodes, nodes');
    if t.left.right.Node? {
      SameRecordsUpdate(nodes, t.left.right.id, n1[t.left.right.id]);
    }
    if ctx != [] {
      SameRecordsUpdate(n1, ctx[0].id, n2[ctx[0].id]);
    }
    var n3 := n2[t.id := nodes'[t.id]];
    SameRecordsUpdate(n2, t.id, nodes'[t.id]);
    SameRecordsUpdate(n3, t.left.id, nodes'[t.left.id]);
    SameRecordsSteps(nodes, n1, n2, n3);
    SameRecordsSteps(nodes, n3, nodes', nodes');
  }

  /** The mirror image of `LeftRotateLinks`. */
  lemma RightRotateLinks(t: Tree, ctx: Path, root: Link, root': Link, nodes: seq<Proc>, nodes': seq<Proc>)
    requires t.Node? && t.left.Node? && UniqueIds(Plug(t, ctx)) && Realizes(Plug(t, ctx), root, None, nodes)
    requires t.id < |nodes| && t.left.id < |nodes| && |nodes'| == |nodes|
    requires nodes'[t.id] ==
      nodes[t.id].(leftNode := nodes[t.left.id].rightNode, parentNode := Some(t.left.id))
    requires nodes'[t.left.id] ==
      nodes[t.left.id].(parentNode := ParentLink(ctx), rightNode := Some(t.id))
    requires t.left.right.Node? ==>
      t.left.right.id < |nodes| &&
      nodes'[t.left.right.id] == nodes[t.left.right.id].(parentNode := Some(t.id))
    requires ctx != [] ==>
      ctx[0].id < |nodes| && nodes'[ctx[0].id] == Relinked(ctx[0], nodes[ctx[0].id], t.left.id)
    requires forall i ::
      (0 <= i < |nodes| && i != t.id && i != t.left.id &&
       (t.left.right.Node? ==> i != t.left.right.id) && (ctx != [] ==> i != ctx[0].id)) ==>
        nodes'[i] == nodes[i]
    requires root' == if ctx == [] then Some(t.left.id) else root
    ensures Realizes(Plug(RotateRight(t), ctx), root', None, nodes')
    ensures UniqueIds(Plug(RotateRight(t), ctx))
  {
    Decompose(t, ctx, root, nodes);
    RealizesBounded(t, Some(t.id), ParentLink(ctx), nodes);
    RealizesCtxBounded(ctx, t.id, nodes);
    var x, y, a, bt, ct := t.id, t.left.id, t.right, t.left.right, t.left.left;
    assert nodes[x].leftNode == Some(y);
    assert Realizes(t.left, Some(y), Some(x), nodes);
    assert Realizes(bt, nodes[y].rightNode, Some(y), nodes);
    assert IdSet(t.left) == IdSet(ct) + {y} + IdSet(bt);
    RealizesFrame(a, nodes[x].rightNode, Some(x), nodes, nodes');
    RealizesFrame(ct, nodes[y].leftNode, Some(y), nodes, nodes');
    if bt.Node? {
      RealizesReparent(bt, Some(y), Some(x), nodes, nodes');
    }
    var r := RotateRight(t);
    assert Realizes(bt, nodes'[x].leftNode, Some(x), nodes');
    assert Realizes(r.right, Some(x), Some(y), nodes');
    assert Realizes(r, Some(y), ParentLink(ctx), nodes');
    if ctx != [] {
      assert ctx[0].id in CtxIds(ctx);
      RealizesCtxRelink(ctx, x, y, nodes, nodes');
    }
    RotateRightUnique(t);
    PlugTop(t, ctx);
    PlugTop(r, ctx);
    PlugRealizes(r, ctx, root', nodes');
    PlugIds(t, ctx);
    PlugIds(r, ctx);
  }

  /** Writing a new colour into the focus record spells out the repainted tree. */
  lemma PaintLinks(t: Tree, ctx: Path, c: Color, root: Link, nodes: seq<Proc>)
    requires t.Node? && UniqueIds(Plug(t, ctx)) && Realizes(Plug(t, ctx), root, None, nodes)
    ensures t.id < |nodes|
    ensures var nodes' := nodes[t.id := nodes[t.id].(nodeColor := c)];
      Realizes(Plug(t.(color := c), ctx), root, None, nodes') && UniqueIds(Plug(t.(color := c), ctx))
  {
    Decompose(t, ctx, root, nodes);
    RealizesBounded(t, Some(t.id), ParentLink(ctx), nodes);
    RealizesCtxBounded(ctx, t.id, nodes);
    var nodes' := nodes[t.id := nodes[t.id].(nodeColor := c)];
    var t' := t.(color := c);
    RealizesFrame(t.left, nodes[t.id].leftNode, Some(t.id), nodes, nodes');
    RealizesFrame(t.right, nodes[t.id].rightNode, Some(t.id), nodes, nodes');
    assert Realizes(t', Some(t.id), ParentLink(ctx), nodes');
    RealizesCtxFrame(ctx, t.id, nodes, nodes');
    PlugTop(t, ctx);
    PlugTop(t', ctx);
    PlugRealizes(t', ctx, root, nodes');
    PlugIds(t, ctx);
    PlugIds(t', ctx);
  }

  /** What the record of the first frame of a spelled-out context links to. */
  lemma FrameLinks(ctx: Path, child: nat, nodes: seq<Proc>)
    requires ctx != [] && RealizesCtx(ctx, child, nodes) && child !in IdSet(ctx[0].sibling)
    ensures var f := ctx[0];
      f.id < |nodes| && nodes[f.id].nodeColor == f.color &&
      nodes[f.id].parentNode == ParentLink(ctx[1..]) &&
      (nodes[f.id].leftNode == Some(child) <==> f.InLeft?) &&
      (nodes[f.id].rightNode == Some(child) <==> f.InRight?) &&
      (f.InLeft? ==> nodes[f.id].rightNode == RootLink(f.sibling)) &&
      (f.InRight? ==> nodes[f.id].leftNode == RootLink(f.sibling)) &&
      (f.sibling.Node? ==> f.sibling.id < |nodes| && nodes[f.sibling.id].nodeColor == f.sibling.color)
    ensures RealizesCtx(ctx[1..], ctx[0].id, nodes)
  {
    var f := ctx[0];
    if f.sibling.Node? {
      assert f.sibling.id in IdSet(f.sibling);
    }
  }

  /** The links around the focus `t` and its parent frame, from the whole tree being
      spelled out. */
  lemma FocusLinks(t: Tree, ctx: Path, root: Link, nodes: seq<Proc>)
    requires t.Node? && UniqueIds(Plug(t, ctx)) && Realizes(Plug(t, ctx), root, None, nodes)
    ensures t.id < |nodes| && nodes[t.id].parentNode == ParentLink(ctx)
    ensures ctx != [] ==>
      var f := ctx[0];
      f.id < |nodes| && nodes[f.id].nodeColor == f.color &&
      nodes[f.id].parentNode == ParentLink(ctx[1..]) &&
      (nodes[f.id].leftNode == Some(t.id) <==> f.InLeft?) &&
      (nodes[f.id].rightNode == Some(t.id) <==> f.InRight?)
    ensures |ctx| >= 2 ==>
      var f := ctx[1];
      f.id < |nodes| && nodes[f.id].nodeColor == f.color &&
      nodes[f.id].parentNode == ParentLink(ctx[2..]) &&
      (nodes[f.id].leftNode == Some(ctx[0].id) <==> f.InLeft?) &&
      (nodes[f.id].rightNode == Some(ctx[0].id) <==> f.InRight?) &&
      (f.InLeft? ==> nodes[f.id].rightNode == RootLink(f.sibling)) &&
      (f.InRight? ==> nodes[f.id].leftNode == RootLink(f.sibling)) &&
      (f.sibling.Node? ==> f.sibling.id < |nodes| && nodes[f.sibling.id].nodeColor == f.sibling.color)
  {
    Decompose(t, ctx, root, nodes);
    if ctx != [] {
      assert t.id in IdSet(t);
      FrameLinks(ctx, t.id, nodes);
      if |ctx| >= 2 {
        assert ctx[1..][1..] == ctx[2..];
        assert CtxIds(ctx[1..]) == {ctx[1].id} + IdSet(ctx[1].sibling) + CtxIds(ctx[2..]);
        FrameLinks(ctx[1..], ctx[0].id, nodes);
      }
    }
  }

  /** Record `n` hangs below the record its parent link names, on the side the
      binary-search descent picks for its key. */
  ghost predicate AttachedBelow(nodes: seq<Proc>, n: nat) {
    n < |nodes| && nodes[n].parentNode.Some? && nodes[n].parentNode.value < |nodes| &&
    var a := nodes[nodes[n].parentNode.value];
    if a.vRuntime <= nodes[n].vRuntime then a.rightNode == Some(n) else a.leftNode == Some(n)
  }

  /** What one call of the insertion descent promises about the arena `b` it leaves,
      starting from arena `a`, for subtree `t` with root link `cur` below parent `par`
      and the returned link `r`. */
  ghost predicate DescentPost(a: seq<Proc>, b: seq<Proc>, t: Tree, cur: Link, par: Link, n: nat, r: Link)
    requires n < |a|
  {
    SameRecords(a, b) &&
    (forall i :: 0 <= i < |b| && i != n && i !in IdSet(t) ==> b[i] == a[i]) &&
    b[n].nodeColor == Red && b[n].leftNode == None && b[n].rightNode == None &&
    (cur.None? ==> r == Some(n) && b[n].parentNode == a[n].parentNode) &&
    (cur.Some? ==> r == cur) &&
    (t.Node? || a[n].parentNode == par ==> Realizes(BstInsert(t, n, a[n].vRuntime), r, par, b)) &&
    (t.Node? ==> AttachedBelow(b, n) && b[n].parentNode.value in IdSet(t))
  }

  /** One level of the insertion descent, going right: record `n`, coloured RED and
      given parent `t.id` (arena `mid`), is linked into the right subtree of `t`'s root
      (arena `m`), and the root's right link is pointed at the grown subtree (arena
      `f`). */
  lemma DescentRight(t: Tree, par: Link, n: nat, sub: Link,
                     a: seq<Proc>, mid: seq<Proc>, m: seq<Proc>, f: seq<Proc>)
    requires t.Node? && UniqueIds(t) && n !in IdSet(t) && Realizes(t, Some(t.id), par, a)
    requires n < |a| && t.key <= a[n].vRuntime && a[n].leftNode == None && a[n].rightNode == None
    requires mid == a[n := a[n].(nodeColor := Red)][n := a[n].(nodeColor := Red, parentNode := Some(t.id))]
    requires DescentPost(mid, m, t.right, mid[t.id].rightNode, Some(t.id), n, sub)
    requires f == m[t.id := m[t.id].(rightNode := sub)]
    ensures DescentPost(a, f, t, Some(t.id), par, n, Some(t.id))
  {
    var key := a[n].vRuntime;
    RealizesBounded(t, Some(t.id), par, a);
    BstInsertIds(t.right, n, key);
    assert IdSet(t) == IdSet(t.left) + {t.id} + IdSet(t.right);
    assert Realizes(t.right, mid[t.id].rightNode, Some(t.id), a);
    assert mid[t.id].rightNode == RootLink(t.right);
    assert Realizes(BstInsert(t.right, n, key), sub, Some(t.id), m);
    RealizesBounded(BstInsert(t.right, n, key), sub, Some(t.id), m);
    RealizesFrame(t.left, a[t.id].leftNode, Some(t.id), a, f);
    RealizesFrame(BstInsert(t.right, n, key), sub, Some(t.id), m, f);
    assert BstInsert(t, n, key) == Node(t.color, t.left, t.id, t.key, BstInsert(t.right, n, key));
    assert SameRecords(a, mid);
    SameRecordsUpdate(m, t.id, f[t.id]);
  }

  /** The mirror image of `DescentRight`. */
  lemma DescentLeft(t: Tree, par: Link, n: nat, sub: Link,
                    a: seq<Proc>, mid: seq<Proc>, m: seq<Proc>, f: seq<Proc>)
    requires t.Node? && UniqueIds(t) && n !in IdSet(t) && Realizes(t, Some(t.id), par, a)
    requires n < |a| && a[n].vRuntime < t.key && a[n].leftNode == None && a[n].rightNode == None
    requires mid == a[n := a[n].(nodeColor := Red)][n := a[n].(nodeColor := Red, parentNode := Some(t.id))]
    requires DescentPost(mid, m, t.left, mid[t.id].leftNode, Some(t.id), n, sub)
    requires f == m[t.id := m[t.id].(leftNode := sub)]
    ensures DescentPost(a, f, t, Some(t.id), par, n, Some(t.id))
  {
    var key := a[n].vRuntime;
    RealizesBounded(t, Some(t.id), par, a);
    BstInsertIds(t.left, n, key);
    assert IdSet(t) == IdSet(t.left) + {t.id} + IdSet(t.right);
    assert Realizes(t.left, mid[t.id].leftNode, Some(t.id), a);
    assert mid[t.id].leftNode == RootLink(t.left);
    assert Realizes(BstInsert(t.left, n, key), sub, Some(t.id), m);
    RealizesBounded(BstInsert(t.left, n, key), sub, Some(t.id), m);
    RealizesFrame(t.right, a[t.id].rightNode, Some(t.id), a, f);
    RealizesFrame(BstInsert(t.left, n, key), sub, Some(t.id), m, f);
    assert BstInsert(t, n, key) == Node(t.color, BstInsert(t.left, n, key), t.id, t.key, t.right);
    assert SameRecords(a, mid);
    SameRecordsUpdate(m, t.id, f[t.id]);
  }

  // ----- the records themselves -----

  /** Two arenas hold the same processes with the same keys and weights, whatever their
      links and colours. */
  predicate SameRecords(a: seq<Proc>, b: seq<Proc>) {
    |a| == |b| &&
    forall i :: 0 <= i < |a| ==>
      a[i].pid == b[i].pid && a[i].weight == b[i].weight && a[i].vRuntime == b[i].vRuntime
  }

  /** `total_weight`: the sum of the weights of the linked records. */
  function TotalWeight(nodes: seq<Proc>): int {
    if nodes == [] then 0 else TotalWeight(nodes[..|nodes| - 1]) + nodes[|nodes| - 1].weight
  }

  lemma SameRecordsSteps(a: seq<Proc>, b: seq<Proc>, c: seq<Proc>, d: seq<Proc>)
    requires SameRecords(a, b) && SameRecords(b, c) && SameRecords(c, d)
    ensures SameRecords(a, d)
  {
  }

  lemma SameRecordsTrans(a: seq<Proc>, b: seq<Proc>, c: seq<Proc>)
    requires SameRecords(a, b) && SameRecords(b, c)
    ensures SameRecords(a, c)
  {
  }

  /** Rewriting the links or the colour of one record keeps the records. */
  lemma SameRecordsUpdate(a: seq<Proc>, i: nat, p: Proc)
    requires i < |a| && p.pid == a[i].pid && p.weight == a[i].weight && p.vRuntime == a[i].vRuntime
    ensures SameRecords(a, a[i := p])
  {
  }

  lemma {:induction false} SameRecordsWeight(a: seq<Proc>, b: seq<Proc>)
    requires SameRecords(a, b)
    ensures TotalWeight(a) == TotalWeight(b)
    decreases |a|
  {
    if a != [] {
      SameRecordsWeight(a[..|a| - 1], b[..|b| - 1]);
    }
  }

  /** The slots `0 .. n-1`. */
  function Slots(n: nat): set<nat> {
    if n == 0 then {} else Slots(n - 1) + {n - 1}
  }

  lemma {:induction false} SlotsSize(n: nat)
    ensures |Slots(n)| == n
  {
    if n > 0 {
      SlotsSize(n - 1);
      SlotsBound(n - 1);
    }
  }

  lemma {:induction false} SlotsBound(n: nat)
    ensures forall i: nat :: i in Slots(n) <==> i < n
  {
    if n > 0 {
      SlotsBound(n - 1);
      assert Slots(n) == Slots(n - 1) + {n - 1};
    }
  }

  /** A tree using each of the slots `0 .. n-1` exactly once holds `n` records. */
  lemma SizeOfSlotTree(t: Tree, n: nat)
    requires UniqueIds(t) && IdSet(t) == Slots(n)
    ensures Size(t) == n
  {
    UniqueIdsSize(t);
    SlotsSize(n);
  }

  /** The minimum-key record of a tree: none when empty, else the leftmost one. */
  function MinimumOf(t: Tree): Link {
    if t.Leaf? then None else Some(Leftmost(t).id)
  }
}
