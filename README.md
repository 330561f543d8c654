# CFS run queue of the xv6 Rust scheduler library, in Dafny

The scheduler keeps its runnable processes in a red-black tree ordered by virtual
runtime (`v_runtime`). The tree is intrusive: every process record carries its own
colour and its left, right and parent links. The tree header holds the root, the
number of linked records, their total weight and a cached reference to the record with
the smallest virtual runtime. `insert_process` links a record by a plain binary-search
descent in which ties go right. It clears the parent link of a new root, updates the
bookkeeping fields and then runs the red-black fix-up `recolor_and_rotate`.
`get_minimum_vruntime_proc` follows left links down to the leftmost record.

The model has four modules:

- `RbTree` (`rb_tree.dfy`) holds the value-level tree. It has a zipper (a path of
  frames from a focus up to the root), the in-order sequences of ids and keys, the BST
  order, the red-black invariants, and the descent `BstInsert` with its insertion path.
  It also holds the leftmost descent.
- `RbFixUp` (`rb_fixup.dfy`) holds the fix-up on values: the rotations, the recolouring
  case, the two rotation cases, `FixUp` and `Insert`. It proves that the fix-up keeps
  the records and their order, and that it restores the red-black invariants. It also
  has the fix-up exactly as `src/lib.rs:166` writes its uncle test (`FixUpAsWritten`),
  with a three-key input on which the two fix-ups disagree.
- `Arena` (`arena.dfy`) holds the records. Each `Box<Proc>` link becomes an index into
  a sequence of records, so a record is identified by its slot. `Realizes(t, n, par,
  nodes)` says that value tree `t` is spelled out by the links in `nodes` from slot
  link `n` under parent link `par`. The lemmas here cover rewriting links one record at
  a time.
- `Scheduler` (`scheduler.dfy`) holds the `RedBlackTree` header as a class. Its fields
  are the record arena, the root link, the count, the total weight and the cached
  minimum, plus a ghost value tree. Its methods are `insert_process`,
  `treenode_insertion`, the fix-up and the rotation helpers, written imperatively. Each
  one is proved against the value-level functions above. `Valid()` ties the fields to
  the ghost tree: the count and weight are exact, the minimum cache is correct, and the
  ids are unique and fill slots `0 .. count-1`.

The fix-up helpers `get_uncle`, `update_tree`, `l_and_lr_situations`,
`r_and_rl_situations` and `updateInsertedProcessandTreeProperties` are called by
`src/lib.rs` but have no bodies there; the rotations are never named in the file and are
only implied inside `l_and_lr_situations` and `r_and_rl_situations` (lines 170 and 172).
All of them are written here in the textbook red-black form:

- a RED uncle is recoloured, and the walk continues two levels up;
- otherwise a triangle shape is rotated into a line and the grandparent is rotated;
- an absent uncle counts as BLACK.

## Model

| member | source | states |
|---|---|---|
| Scheduler.RedBlackTree.InsertProcess | src/lib.rs:76-108 | At the capacity of 64 nothing changes. Otherwise the ghost tree becomes `Insert(old tree, old count, p.v_runtime)`, the records are the old ones plus `p` (same pid, weight, key), the count grows by one and the total weight by `p.weight`; the header invariant and the red-black invariants are kept |
| Scheduler.RedBlackTree.LinkProcess | src/lib.rs:82-99 | The new record takes the next slot; afterwards the arena spells out the binary-search insertion with the new leaf at the focus of its insertion path, including an empty tree, where the new root's parent link is cleared; the count is one more, the total weight is the sum over the records, and the minimum cache is the leftmost record of the grown tree |
| Scheduler.RedBlackTree.TreenodeInsertion | src/lib.rs:113-137 | The new record is coloured RED with no children. The subtree rooted at `cur` becomes `BstInsert(t, n, key)`, hanging from the same parent whenever `cur` is a record or the new record's parent link already is that parent; on an empty tree the new record keeps its earlier parent link, which `insert_process` clears at lines 91-97. An empty `cur` returns the new record; otherwise `cur` is returned, and the new record's parent is a record of the old subtree. Only the new record and records of the subtree change, and no pid, weight or key changes |
| Scheduler.RedBlackTree.UpdateInsertedProcessAndTreeProperties | src/lib.rs:99 | The count grows by one, the total weight by the new record's weight, and the minimum cache becomes the leftmost record of the tree |
| Scheduler.RedBlackTree.GetMinimumVruntimeProc | src/lib.rs:140-159 | None exactly for an empty subtree; otherwise a record with no left child whose key is the first in-order key, and in a BST no larger than any key of the subtree |
| Scheduler.RedBlackTree.RecolorAndRotate | src/lib.rs:162-182 | Starting from the record at the focus, the arena ends up spelling out `Blacken(FixUp(focus, context))`, and no record changes pid, weight or key |
| Scheduler.RedBlackTree.GetUncle | src/lib.rs:166 | The link to the grandparent's other child (None when that slot is empty) |
| Scheduler.RedBlackTree.UpdateTree | src/lib.rs:167-168 | After recolouring parent and uncle BLACK and the grandparent RED, and continuing the walk from the grandparent, the arena spells out the whole fixed-up tree with a BLACK root |
| Scheduler.RedBlackTree.LAndLrSituations | src/lib.rs:169-170 | With the parent a left child, rotating the triangle into a line and the grandparent right leaves the rotated subtree `LeftCases` in the same place of the tree |
| Scheduler.RedBlackTree.RAndRlSituations | src/lib.rs:171-172 | The mirror image: `RightCases` in the place of the grandparent |
| Scheduler.RedBlackTree.LeftRotate | src/lib.rs:169-172 | The focus subtree is replaced by its left rotation in the same context, with the child, parent and root links rewritten; no record changes pid, weight or key |
| Scheduler.RedBlackTree.RightRotate | src/lib.rs:169-172 | The focus subtree is replaced by its right rotation in the same context |
| Scheduler.RedBlackTree.SetColor | src/lib.rs:179-181 | Exactly the colour of one record changes, and the arena spells out the tree with that node repainted |
| Scheduler.RedBlackTree.LinksAgree | src/lib.rs:63-66 | In a valid header every child link is answered by the child's parent link, and the root record has no parent |
| Scheduler.RedBlackTree.CountIsSize | src/lib.rs:60-68 | `num_of_nodes` is the number of records reachable from the root |
| Scheduler.RedBlackTree.constructor | src/lib.rs:60-68 | An empty header satisfies the header and red-black invariants |
| Scheduler.InsertBookkeeping | src/lib.rs:82-105 | Inserting into a valid tree keeps the ids unique and filling the slots, keeps the BST order and the red-black invariants, and the leftmost record of the plain descent is the leftmost record after the fix-up |
| RbTree.InsertPathRoutes | src/lib.rs:125-134 | At every ancestor of the new record, it went right exactly when the ancestor's key is at most the new key: ties go right |
| RbTree.InsertPathPlug | src/lib.rs:113-137 | Putting the new leaf into the insertion path gives the descent's result; putting back an empty slot gives the old tree |
| RbTree.BstInsertKeys | src/lib.rs:113-137 | The descent adds exactly the new key to the multiset of keys |
| RbTree.BstInsertMembers | src/lib.rs:113-137 | A key is in the grown tree exactly when it was in the old tree or is the new key |
| RbTree.BstInsertIds | src/lib.rs:113-137 | The descent adds exactly the new record to the linked set |
| RbTree.BstInsertUnique | src/lib.rs:113-137 | A record not yet linked is linked once |
| RbTree.BstInsertOrdered | src/lib.rs:125-134 | The descent keeps the BST order |
| RbTree.BstIffSortedKeys | src/lib.rs:125-134 | BST order holds exactly when the in-order key sequence is non-decreasing |
| RbTree.Leftmost | src/lib.rs:140-159 | The leftmost node has no left child and holds the first in-order record and key |
| RbTree.LeftmostIsMinimum | src/lib.rs:140-159 | In a BST the leftmost key is no larger than any key |
| RbFixUp.FixUpContents | src/lib.rs:162-177 | The fix-up keeps the in-order sequences of records and keys, and the tree stays non-empty |
| RbFixUp.InsertContents | src/lib.rs:82-105 | Insertion with fix-up has the same in-order records and keys as the plain descent, and a BLACK root |
| RbFixUp.InsertKeys | src/lib.rs:82-105 | Insertion adds exactly the new key; from a BST it yields a BST whose in-order keys are sorted |
| RbFixUp.InsertIds | src/lib.rs:82-105 | Insertion links exactly one more record, the size grows by one, and unique ids stay unique |
| RbFixUp.InsertUnderBlackParent | src/lib.rs:163-164 | Under a BLACK parent the fix-up leaves the descent's tree alone apart from the root colour |
| RbFixUp.LeftCasesContents | src/lib.rs:169-170 | The left-hand rotation cases keep the records and their order |
| RbFixUp.RightCasesContents | src/lib.rs:171-172 | The right-hand rotation cases keep the records and their order |
| RbFixUp.RecolorKeepsInvariant | src/lib.rs:167-168 | Recolouring under a RED uncle moves the only possible red-red violation two levels up and keeps the black heights |
| RbFixUp.LeftCasesValid | src/lib.rs:169-170 | When the uncle is not RED, the left-hand rotation cases give a subtree with a BLACK root, no red-red link and equal black heights, one level higher than the focus |
| RbFixUp.RightCasesValid | src/lib.rs:171-172 | The mirror image for the right-hand rotation cases |
| RbFixUp.FixUpRestores | src/lib.rs:162-177 | From a tree whose only violation is the RED focus under a RED parent, the fix-up leaves no red-red link and equal black heights everywhere (the root may still be RED) |
| RbFixUp.InsertKeepsRedBlack | src/lib.rs:76-108 | Inserting into a red-black tree gives a red-black tree: BLACK root, no RED record with a RED child, equal black heights |
| RbFixUp.FixUpAsWrittenWithUncle | src/lib.rs:166 | While the grandparent's other child is present at every step, the fix-up with the uncle test of line 166 and the textbook fix-up agree |
| RbFixUp.FixUpAsWrittenContents | src/lib.rs:162-177 | The fix-up with the uncle test of line 166 keeps the records and their order |
| RbFixUp.AbsentUncleLeavesRedRed | src/lib.rs:166 | Keys 1, 2, 3 into an empty tree: with the uncle test of line 166 the result is a chain of height 3 with a RED record under a RED parent; the textbook fix-up gives a red-black tree of height 2 |

## Left out

- Locking (`Spinlock`, `CPU`), the C calling convention and raw pointers are not modelled. A call is one atomic step on the header.
- Ownership and `Box` semantics are not modelled. Every `Option<Box<Proc>>` link is an index into the arena of records, and a record's slot is the order in which it was inserted. The copies that `Box::new(*newProc)` and `Box::new(curProc.unwrap())` make in `treenode_insertion` are read as links to the existing records, so that each parent link names the record that holds the matching child link.
- The `Proc` fields the tree does not use (state, channel, page table, trap frame, open files, niceness, run times and the rest) and `ProcState` are left out. So are the header's `period` and `lock`.
- Removal of a process and the time-slice computation are not part of this source core.
- Scheduler.RedBlackTree.InsertProcess: `num_of_nodes`, `total_weight` and `v_runtime` are `i32` in the source but unbounded integers here. The count never exceeds 64, but a large weight sum could wrap in the source, and the model does not show that.
- Scheduler.RedBlackTree.InsertProcess: with the count at most 64, the capacity test `!= 64` behaves as `< 64`.
- Scheduler.RedBlackTree.InsertProcess: the record passed in must have no children. The source neither states nor checks this; a record not yet linked has no children.
- Scheduler.RedBlackTree.RecolorAndRotate: the parent-side test at src/lib.rs:169 asks whether the parent has a left child; the model asks whether the parent is the grandparent's left child. The helpers it chooses between have no bodies in the source, so there is no as-written behaviour to compare against.
- Scheduler.RedBlackTree.RecolorAndRotate: an absent uncle is treated as BLACK, as in the textbook fix-up; the as-written test at src/lib.rs:166 is kept separately as `RbFixUp.FixUpAsWritten` (see Findings).
- Scheduler.RedBlackTree.UpdateTree: `recolor_and_rotate` does not continue the walk after calling `update_tree`, and the helper's body is not in the source; here `UpdateTree` continues the walk from the grandparent, as the textbook recolouring case does.
- RbFixUp.FixUpAsWritten: only the uncle test of src/lib.rs:166 is as written. It keeps the textbook side test instead of the parent-has-a-left-child test of line 169, and it continues the walk from the grandparent after recolouring, which line 168 does not show.
- Scheduler.RedBlackTree.LinkProcess: this is a method of the model only. It holds the part of `insert_process` before the fix-up call.

## Findings

| source | as written | input that shows it | evidently intended | confidence | as-written member | corrected member |
|---|---|---|---|---|---|---|
| src/lib.rs:166 | the fix-up rotates or recolours only when the grandparent has a second child; with no uncle it does nothing | keys 1, 2, 3 inserted in order into an empty tree: record 3 is RED under the RED record 2, whose parent 1 has no left child, so two RED records stay linked | an absent uncle counts as BLACK, so the rotation cases run and the tree stays red-black | not executed | RbFixUp.AbsentUncleLeavesRedRed | RbFixUp.InsertKeepsRedBlack |
