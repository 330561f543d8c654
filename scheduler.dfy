/** The run-queue of src/lib.rs: a red-black tree of process records keyed by virtual
    runtime, with the record count, the total weight and a cached minimum-runtime
    record.  The records live in the arena `nodes`; `shape` is the value tree their
    links spell out, which the operations keep in step with the arena. */
module Scheduler {
  import opened RbTree
  import opened RbFixUp
  import opened Arena

  /** The tree refuses new processes once it holds this many (src/lib.rs:85). */
  const Capacity := 64

  /** Inserting into a valid tree links exactly the slots `0 .. n`, keeps the invariants,
      and has the same leftmost record as the plain descent. */
  lemma InsertBookkeeping(t0: Tree, n: nat, key: int)
    requires UniqueIds(t0) && IdSet(t0) == Slots(n) && IsRedBlack(t0) && IsBst(t0)
    ensures var t := Insert(t0, n, key);
      UniqueIds(t) && IdSet(t) == Slots(n + 1) && IsRedBlack(t) && IsBst(t) &&
      MinimumOf(t) == MinimumOf(BstInsert(t0, n, key))
  {
    SlotsBound(n);
    InsertPathPlug(t0, n, key);
    BstInsertUnique(t0, n, key);
    InsertIds(t0, n, key);
    InsertKeys(t0, n, key);
    InsertKeepsRedBlack(t0, n, key);
    InsertContents(t0, n, key);
    BstInsertIds(t0, n, key);
    assert BstInsert(t0, n, key).Node?;
  }

  /** After the fix-up the arena spells out the whole tree, and the records are still the
      appended ones, with the same total weight. */
  lemma ArenaSettled(t: Tree, root: Link, a: seq<Proc>, f: seq<Proc>, nodes: seq<Proc>)
    requires Realizes(Plug(t, []), root, None, nodes)
    requires SameRecords(a, f) && SameRecords(f, nodes)
    ensures Realizes(t, root, None, nodes) && |nodes| == |a|
    ensures SameRecords(a, nodes) && TotalWeight(nodes) == TotalWeight(f)
  {
    assert Plug(t, []) == t;
    SameRecordsTrans(a, f, nodes);
    SameRecordsWeight(f, nodes);
  }

  /** The arena that spells out the grown tree has the new leaf at the focus of its
      insertion path. */
  lemma FocusNewLeaf(t: Tree, n: nat, key: int, root: Link, nodes: seq<Proc>)
    requires UniqueIds(t) && n !in IdSet(t) && Realizes(BstInsert(t, n, key), root, None, nodes)
    ensures var z, ctx := NewLeaf(n, key), InsertPath(t, key);
      z.Node? && Realizes(Plug(z, ctx), root, None, nodes) && UniqueIds(Plug(z, ctx))
  {
    InsertPathPlug(t, n, key);
    BstInsertUnique(t, n, key);
  }

  /** Appending a record to the arena keeps the tree spelled out and adds its weight. */
  lemma AppendRecord(t: Tree, root: Link, nodes: seq<Proc>, p: Proc)
    requires Realizes(t, root, None, nodes) && IdSet(t) == Slots(|nodes|)
    ensures Realizes(t, root, None, nodes + [p]) && |nodes| !in IdSet(t)
    ensures TotalWeight(nodes + [p]) == TotalWeight(nodes) + p.weight
  {
    RealizesBounded(t, root, None, nodes);
    RealizesFrame(t, root, None, nodes, nodes + [p]);
    SlotsBound(|nodes|);
    assert (nodes + [p])[..|nodes|] == nodes;
  }

  /** After the descent and, for an empty tree, the clearing of the new root's parent
      link, the arena spells out the grown tree. */
  lemma LinkedRecord(t: Tree, root: Link, r: Link, n: nat, a: seq<Proc>, m: seq<Proc>, f: seq<Proc>)
    requires n < |a| && Realizes(t, root, None, a) && DescentPost(a, m, t, root, None, n, r)
    requires t.Leaf? ==> r.Some? && r.value < |m| && f == m[r.value := m[r.value].(parentNode := None)]
    requires t.Node? ==> f == m
    ensures Realizes(BstInsert(t, n, a[n].vRuntime), r, None, f) && SameRecords(a, f)
  {
    if t.Leaf? {
      SameRecordsUpdate(m, n, f[n]);
    }
  }

  class RedBlackTree {
    var nodes: seq<Proc>
    var root: Link
    var numOfNodes: int
    var totalWeight: int
    var minVruntime: Link
    ghost var shape: Tree

    /** The arena holds exactly the records linked into `shape`, in slots
        `0 .. numOfNodes-1`, and the bookkeeping fields agree with them. */
    ghost predicate Valid()
      reads this
    {
      numOfNodes == |nodes| <= Capacity &&
      Realizes(shape, root, None, nodes) && UniqueIds(shape) && IdSet(shape) == Slots(|nodes|) &&
      totalWeight == TotalWeight(nodes) &&
      minVruntime == MinimumOf(shape)
    }

    /** Binary-search order on `v_runtime` and the red-black invariants. */
    ghost predicate RedBlack()
      reads this
    {
      IsRedBlack(shape) && IsBst(shape)
    }

    /** The arena spells out the tree with `t` at the focus of context `ctx`. */
    ghost predicate Located(t: Tree, ctx: Path)
      reads this
    {
      t.Node? && Realizes(Plug(t, ctx), root, None, nodes) && UniqueIds(Plug(t, ctx))
    }

    /** An empty tree. */
    constructor ()
      ensures Valid() && RedBlack()
      ensures nodes == [] && root == None && shape == Leaf
    {
      nodes := [];
      root := None;
      numOfNodes := 0;
      totalWeight := 0;
      minVruntime := None;
      shape := Leaf;
    }

    /** `num_of_nodes` counts the records linked into the tree. */
    lemma CountIsSize()
      requires Valid()
      ensures numOfNodes == Size(shape)
    {
      SizeOfSlotTree(shape, |nodes|);
    }

    /** The parent and child links agree throughout the arena, and the root record has
        no parent. */
    lemma LinksAgree()
      requires Valid()
      ensures forall i :: 0 <= i < |nodes| ==> LinksBack(nodes, i)
      ensures root.Some? ==> root.value < |nodes| && nodes[root.value].parentNode == None
    {
      RealizesLinksBack(shape, root, None, nodes);
      SlotsBound(|nodes|);
    }

    /** `insert_process`: a process is linked in only while the tree holds fewer than
        `Capacity` records; otherwise nothing changes.  The new record goes to the next
        free slot, is linked by the binary-search descent, and the fix-up restores the
        red-black invariants. */
    method InsertProcess(p: Proc)
      requires Valid() && RedBlack()
      requires p.leftNode == None && p.rightNode == None
      modifies this
      ensures Valid() && RedBlack()
      ensures old(numOfNodes) == Capacity ==>
        nodes == old(nodes) && root == old(root) && shape == old(shape) &&
        numOfNodes == old(numOfNodes) && totalWeight == old(totalWeight) &&
        minVruntime == old(minVruntime)
      ensures old(numOfNodes) != Capacity ==>
        shape == Insert(old(shape), old(numOfNodes), p.vRuntime) &&
        SameRecords(old(nodes) + [p], nodes) &&
        numOfNodes == old(numOfNodes) + 1 && totalWeight == old(totalWeight) + p.weight
    {
      if numOfNodes != Capacity {
        ghost var t0, key := shape, p.vRuntime;
        var n := LinkProcess(p);
        ghost var f := nodes;
        RecolorAndRotate(n, NewLeaf(n, key), InsertPath(t0, key));
        shape := Insert(t0, n, key);
        ArenaSettled(shape, root, old(nodes) + [p], f, nodes);
        InsertBookkeeping(t0, n, key);
      }
    }

    /** The part of `insert_process` before the fix-up: appends `p` as record `n`,
        links it in by `treenode_insertion`, clears the parent link of a new root of an
        empty tree, and updates the count, the weight and the cached minimum. The ghost
        shape is not yet updated: the arena spells out the binary-search insertion, with
        the new leaf at the focus of its insertion path. */
    method LinkProcess(p: Proc) returns (n: nat)
      requires Valid() && numOfNodes != Capacity
      requires p.leftNode == None && p.rightNode == None
      modifies this`nodes, this`root, this`numOfNodes, this`totalWeight, this`minVruntime
      ensures n == old(|nodes|) && n == old(numOfNodes)
      ensures Located(NewLeaf(n, p.vRuntime), InsertPath(shape, p.vRuntime))
      ensures SameRecords(old(nodes) + [p], nodes)
      ensures numOfNodes == old(numOfNodes) + 1 && numOfNodes <= Capacity
      ensures totalWeight == old(totalWeight) + p.weight && totalWeight == TotalWeight(nodes)
      ensures minVruntime == MinimumOf(BstInsert(shape, n, p.vRuntime))
    {
      ghost var t0, nodes0, root0 := shape, nodes, root;
      ghost var key := p.vRuntime;
      n := |nodes|;
      nodes := nodes + [p];
      AppendRecord(t0, root, nodes0, p);
      root := TreenodeInsertion(root, n, t0, None);
      ghost var m := nodes;
      if numOfNodes == 0 {
        if root.Some? {
          nodes := nodes[root.value := nodes[root.value].(parentNode := None)];
        }
      }
      LinkedRecord(t0, root0, root, n, nodes0 + [p], m, nodes);
      UpdateInsertedProcessAndTreeProperties(n, BstInsert(t0, n, key));
      SlotsBound(n);
      FocusNewLeaf(t0, n, key, root, nodes);
      SameRecordsWeight(nodes0 + [p], nodes);
    }

    /** `treenode_insertion`: colours record `n` RED and links it below the subtree
        rooted at `cur`, going right at records whose key is at most the new key and left
        otherwise; returns the root of the grown subtree. */
    method TreenodeInsertion(cur: Link, n: nat, ghost t: Tree, ghost par: Link) returns (r: Link)
      requires n < |nodes| && n !in IdSet(t) && Realizes(t, cur, par, nodes) && UniqueIds(t)
      requires nodes[n].leftNode == None && nodes[n].rightNode == None
      modifies this`nodes
      ensures n < |old(nodes)| && DescentPost(old(nodes), nodes, t, cur, par, n, r)
      decreases t
    {
      ghost var a := nodes;
      nodes := nodes[n := nodes[n].(nodeColor := Red)];
      if cur.None? {
        return Some(n);
      }
      var c := cur.value;
      RealizesBounded(t, cur, par, a);
      assert IdSet(t) == IdSet(t.left) + {c} + IdSet(t.right);
      if nodes[c].vRuntime <= nodes[n].vRuntime {
        nodes := nodes[n := nodes[n].(parentNode := Some(c))];
        ghost var mid := nodes;
        RealizesFrame(t.right, nodes[c].rightNode, Some(c), a, nodes);
        var sub := TreenodeInsertion(nodes[c].rightNode, n, t.right, Some(c));
        ghost var m := nodes;
        nodes := nodes[c := nodes[c].(rightNode := sub)];
        DescentRight(t, par, n, sub, a, mid, m, nodes);
      } else {
        nodes := nodes[n := nodes[n].(parentNode := Some(c))];
        ghost var mid := nodes;
        RealizesFrame(t.left, nodes[c].leftNode, Some(c), a, nodes);
        var sub := TreenodeInsertion(nodes[c].leftNode, n, t.left, Some(c));
        ghost var m := nodes;
        nodes := nodes[c := nodes[c].(leftNode := sub)];
        DescentLeft(t, par, n, sub, a, mid, m, nodes);
      }
      return cur;
    }

    /** `updateInsertedProcessandTreeProperties`: one more record, its weight added to
        the total, and the cached minimum refreshed by a leftmost descent. */
    method UpdateInsertedProcessAndTreeProperties(n: nat, ghost t: Tree)
      requires n < |nodes| && Realizes(t, root, None, nodes)
      modifies this`numOfNodes, this`totalWeight, this`minVruntime
      ensures numOfNodes == old(numOfNodes) + 1
      ensures totalWeight == old(totalWeight) + nodes[n].weight
      ensures minVruntime == MinimumOf(t)
    {
      numOfNodes := numOfNodes + 1;
      totalWeight := totalWeight + nodes[n].weight;
      minVruntime := GetMinimumVruntimeProc(root, t, None);
    }

    /** `get_minimum_vruntime_proc`: follows left links from `traversing` to the record
        with no left child, which holds the smallest key of the subtree. */
    function GetMinimumVruntimeProc(traversing: Link, ghost t: Tree, ghost par: Link): (r: Link)
      reads this
      requires Realizes(t, traversing, par, nodes)
      ensures r == MinimumOf(t)
      ensures r.Some? ==>
        r.value < |nodes| && nodes[r.value].leftNode == None &&
        nodes[r.value].vRuntime == Keys(t)[0]
      ensures r.Some? && IsBst(t) ==> forall x :: x in Keys(t) ==> nodes[r.value].vRuntime <= x
      decreases t
    {
      if traversing.None? then None
      else
        var p := traversing.value;
        RealizesLinks(t, traversing, par, nodes);
        LeftmostIsMinimum(t);
        if nodes[p].leftNode.Some? then GetMinimumVruntimeProc(nodes[p].leftNode, t.left, traversing)
        else traversing
    }

    /** Colours record `i`, the focus of the zipper. */
    method SetColor(i: nat, c: Color, ghost t: Tree, ghost ctx: Path)
      requires Located(t, ctx) && t.id == i
      modifies this`nodes
      ensures i < |old(nodes)| && nodes == old(nodes)[i := old(nodes)[i].(nodeColor := c)]
      ensures Located(t.(color := c), ctx)
      ensures SameRecords(old(nodes), nodes)
    {
      PaintLinks(t, ctx, c, root, nodes);
      nodes := nodes[i := nodes[i].(nodeColor := c)];
    }

    /** Left rotation around record `x`, rewiring the parent links as well as the child
        links. */
    method LeftRotate(x: nat, ghost t: Tree, ghost ctx: Path)
      requires Located(t, ctx) && t.id == x && t.right.Node?
      modifies this`nodes, this`root
      ensures Located(RotateLeft(t), ctx)
      ensures SameRecords(old(nodes), nodes)
    {
      RotationSetup(t, ctx, root, nodes);
      var ns, r := nodes, root;
      var y := ns[x].rightNode.value;
      var b := ns[y].leftNode;
      var px := ns[x].parentNode;
      if b.Some? {
        ns := ns[b.value := ns[b.value].(parentNode := Some(x))];
      }
      ghost var n1 := ns;
      if px.None? {
        r := Some(y);
      } else if ns[px.value].leftNode == Some(x) {
        ns := ns[px.value := ns[px.value].(leftNode := Some(y))];
      } else {
        ns := ns[px.value := ns[px.value].(rightNode := Some(y))];
      }
      ghost var n2 := ns;
      ns := ns[x := ns[x].(rightNode := b, parentNode := Some(y))];
      ns := ns[y := ns[y].(leftNode := Some(x), parentNode := px)];
      LeftRotateSteps(t, ctx, root, r, nodes, n1, n2, ns);
      nodes, root := ns, r;
    }

    /** The mirror image of `LeftRotate`. */
    method RightRotate(x: nat, ghost t: Tree, ghost ctx: Path)
      requires Located(t, ctx) && t.id == x && t.left.Node?
      modifies this`nodes, this`root
      ensures Located(RotateRight(t), ctx)
      ensures SameRecords(old(nodes), nodes)
    {
      RotationSetup(t, ctx, root, nodes);
      var ns, r := nodes, root;
      var y := ns[x].leftNode.value;
      var b := ns[y].rightNode;
      var px := ns[x].parentNode;
      if b.Some? {
        ns := ns[b.value := ns[b.value].(parentNode := Some(x))];
      }
      ghost var n1 := ns;
      if px.None? {
        r := Some(y);
      } else if ns[px.value].leftNode == Some(x) {
        ns := ns[px.value := ns[px.value].(leftNode := Some(y))];
      } else {
        ns := ns[px.value := ns[px.value].(rightNode := Some(y))];
      }
      ghost var n2 := ns;
      ns := ns[x := ns[x].(leftNode := b, parentNode := Some(y))];
      ns := ns[y := ns[y].(rightNode := Some(x), parentNode := px)];
      RightRotateSteps(t, ctx, root, r, nodes, n1, n2, ns);
      nodes, root := ns, r;
    }

    /** `get_uncle`: the link to the other child of the grandparent of record `z`. */
    function GetUncle(z: nat, ghost zt: Tree, ghost ctx: Path): (u: Link)
      reads this
      requires Located(zt, ctx) && zt.id == z && |ctx| >= 2
      ensures u == RootLink(ctx[1].sibling)
    {
      FocusLinks(zt, ctx, root, nodes);
      var p := nodes[z].parentNode.value;
      var g := nodes[p].parentNode.value;
      if nodes[g].leftNode == Some(p) then nodes[g].rightNode else nodes[g].leftNode
    }

    /** `update_tree`: the uncle is RED, so the parent `p` and the uncle `u` are coloured
        BLACK and the grandparent `g` RED, and the walk goes on from the grandparent. */
    method UpdateTree(p: nat, u: nat, g: nat, ghost zt: Tree, ghost ctx: Path)
      requires Located(zt, ctx) && |ctx| >= 2
      requires p == ctx[0].id && g == ctx[1].id && ctx[1].sibling.Node? && u == ctx[1].sibling.id
      modifies this`nodes, this`root
      ensures Located(Blacken(FixUp(Recolor(zt, ctx[0], ctx[1]), ctx[2..])), [])
      ensures SameRecords(old(nodes), nodes)
      decreases |ctx|, 0
    {
      assert ctx[1..][1..] == ctx[2..];
      assert ctx[1..] == [ctx[1]] + ctx[2..];
      ghost var pt := Attach(ctx[0], zt);
      SetColor(p, Black, pt, ctx[1..]);
      pt := pt.(color := Black);
      FlipPlug(pt, ctx[1], ctx[2..]);
      SetColor(u, Black, ctx[1].sibling, [Flip(ctx[1], pt)] + ctx[2..]);
      ghost var ut := ctx[1].sibling.(color := Black);
      assert ([Flip(ctx[1], pt)] + ctx[2..])[1..] == ctx[2..];
      ghost var gt := Attach(Flip(ctx[1], pt), ut);
      assert Plug(ut, [Flip(ctx[1], pt)] + ctx[2..]) == Plug(gt, ctx[2..]);
      SetColor(g, Red, gt, ctx[2..]);
      assert gt.(color := Red) == Recolor(zt, ctx[0], ctx[1]);
      RecolorAndRotate(g, Recolor(zt, ctx[0], ctx[1]), ctx[2..]);
    }

    /** `l_and_lr_situations`: the parent `p` is the grandparent's left child and the
        uncle is BLACK or absent.  A right child `z` is first rotated into its parent's
        place; then the upper of the two RED records is coloured BLACK, the grandparent
        RED, and the grandparent rotated right. */
    method LAndLrSituations(z: nat, p: nat, g: nat, ghost zt: Tree, ghost ctx: Path)
      requires Located(zt, ctx) && zt.id == z && |ctx| >= 2
      requires p == ctx[0].id && g == ctx[1].id && ctx[1].InLeft?
      modifies this`nodes, this`root
      ensures Located(LeftCases(zt, ctx[0], ctx[1]), ctx[2..])
      ensures SameRecords(old(nodes), nodes)
    {
      FocusLinks(zt, ctx, root, nodes);
      assert ctx[1..][1..] == ctx[2..];
      ghost var pt := Attach(ctx[0], zt);
      var x := z;
      if nodes[p].rightNode == Some(z) {
        x := p;
        LeftRotate(p, pt, ctx[1..]);
        pt := RotateLeft(pt);
      }
      ghost var p1 := pt;
      RotationSetup(pt, ctx[1..], root, nodes);
      var xp := nodes[x].parentNode.value;
      var xg := nodes[xp].parentNode.value;
      SetColor(xp, Black, pt, ctx[1..]);
      pt := pt.(color := Black);
      ghost var gt := Attach(ctx[1], pt);
      SetColor(xg, Red, gt, ctx[2..]);
      gt := gt.(color := Red);
      assert gt == Node(Red, Painted(p1, Black), ctx[1].id, ctx[1].key, ctx[1].sibling);
      RightRotate(xg, gt, ctx[2..]);
    }

    /** `r_and_rl_situations`: the mirror image of `LAndLrSituations`. */
    method RAndRlSituations(z: nat, p: nat, g: nat, ghost zt: Tree, ghost ctx: Path)
      requires Located(zt, ctx) && zt.id == z && |ctx| >= 2
      requires p == ctx[0].id && g == ctx[1].id && ctx[1].InRight?
      modifies this`nodes, this`root
      ensures Located(RightCases(zt, ctx[0], ctx[1]), ctx[2..])
      ensures SameRecords(old(nodes), nodes)
    {
      FocusLinks(zt, ctx, root, nodes);
      assert ctx[1..][1..] == ctx[2..];
      ghost var pt := Attach(ctx[0], zt);
      var x := z;
      if nodes[p].leftNode == Some(z) {
        x := p;
        RightRotate(p, pt, ctx[1..]);
        pt := RotateRight(pt);
      }
      ghost var p1 := pt;
      RotationSetup(pt, ctx[1..], root, nodes);
      var xp := nodes[x].parentNode.value;
      var xg := nodes[xp].parentNode.value;
      SetColor(xp, Black, pt, ctx[1..]);
      pt := pt.(color := Black);
      ghost var gt := Attach(ctx[1], pt);
      SetColor(xg, Red, gt, ctx[2..]);
      gt := gt.(color := Red);
      assert gt == Node(Red, ctx[1].sibling, ctx[1].id, ctx[1].key, Painted(p1, Black));
      LeftRotate(xg, gt, ctx[2..]);
    }

    /** `recolor_and_rotate`: the fix-up after linking record `z`, finishing with a BLACK
        root.  The arena ends up spelling out `Blacken(FixUp(zt, ctx))`. */
    method RecolorAndRotate(z: nat, ghost zt: Tree, ghost ctx: Path)
      requires Located(zt, ctx) && zt.id == z
      modifies this`nodes, this`root
      ensures Located(Blacken(FixUp(zt, ctx)), [])
      ensures SameRecords(old(nodes), nodes)
      decreases |ctx|, 1
    {
      FocusLinks(zt, ctx, root, nodes);
      PlugIsNode(zt, ctx);
      ghost var cur := Plug(zt, ctx);
      var parent := nodes[z].parentNode;
      if parent.Some? {
        var p := parent.value;
        if nodes[p].nodeColor == Red {
          var grandparent := nodes[p].parentNode;
          if grandparent.Some? {
            var g := grandparent.value;
            // src/lib.rs:166 acts only when an uncle exists; an absent uncle is treated
            // as BLACK here, as in the textbook fix-up.
            var uncle := GetUncle(z, zt, ctx);
            if uncle.Some? && nodes[uncle.value].nodeColor == Red {
              UpdateTree(p, uncle.value, g, zt, ctx);
              cur := Blacken(FixUp(zt, ctx));
            } else if nodes[g].leftNode == parent {
              // src/lib.rs:169 tests whether the parent has a left child; the textbook
              // test is whether the parent is the grandparent's left child.
              LAndLrSituations(z, p, g, zt, ctx);
              cur := Plug(LeftCases(zt, ctx[0], ctx[1]), ctx[2..]);
              PlugIsNode(LeftCases(zt, ctx[0], ctx[1]), ctx[2..]);
            } else {
              RAndRlSituations(z, p, g, zt, ctx);
              cur := Plug(RightCases(zt, ctx[0], ctx[1]), ctx[2..]);
              PlugIsNode(RightCases(zt, ctx[0], ctx[1]), ctx[2..]);
            }
          }
        }
      }
      if root.Some? {
        SetColor(root.value, Black, cur, []);
      }
    }
  }
}
