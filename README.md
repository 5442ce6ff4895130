# dvector: a verified model of the leaf/branch tree behind `dv::dvector`

`dv::dvector` is a C++ sequence container. It promises logarithmic indexing and
insertion. It keeps its elements in a binary tree:

- a **leaf** (`dleaf`) holds one `dslice`, a `[start, end)` window over a shared,
  writable buffer;
- a **branch** (`dnode`) holds `left`, `right`, a cached element count `elem_count`
  and a balance byte `h`;
- every node has a parent pointer `p`.

The element sequence is the in-order concatenation of the leaf windows.

This project models the following parts in Dafny and proves them against that
element sequence:

- the windows;
- the node shapes;
- the tree primitives of `dvector_base`: `_access_node`, `_replace_node`,
  `_build_parent`, the boundary cases of `_insert_node`, and the two traversals;
- the random-access `dvector_iterator`;
- the `dvector` wrapper.

Layout, one module per source file plus three modules of pure tree functions:

| file | module | source |
|---|---|---|
| `outcome.dfy` | `Outcome` | failed `assert`s and the iterator's out-of-range exception, as values |
| `dslice.dfy` | `DSlice` | `dvector/dslice.h` |
| `dnode_base.dfy` | `DNodeBase` | `dvector/dnode_base.h` |
| `dleaf.dfy` | `DLeaf` | `dvector/dleaf.h` |
| `dnode.dfy` | `DNode` | `dvector/dnode.h` |
| `tree_shape.dfy` | `TreeShape` | the tree as a value: sizes, elements, ancestry, offsets, the descent |
| `tree_frames.dfy` | `TreeFrames` | what survives recounting and adding a node |
| `splice.dfy` | `Splice` | the pointer rewiring of `_insert_node` as arena values, and its effect |
| `traversal.dfy` | `Traversal` | `_post_order_traverse`, `_pre_order_traverse` |
| `dvector_base.dfy` | `Base` | `dvector/dvector_base.h` |
| `dvector_iterator.dfy` | `Iterator` | `dvector/dvector_iterator.h` |
| `dvector.dfy` | `Container` | `dvector/dvector.h` |

How the model is built:

- **Nodes live in an arena.** `DVectorBase.nodes` is a `map<nat, Node<T>>` from node
  ids to records. Pointers are `Ptr = Null | To(id)`. The C++ pointer surgery becomes
  reassignment of that map, of `root` and of the allocation counter `next`.
- **Buffers are shared `array<T>` objects.** Several windows over one buffer see each
  other's writes.
- **A ghost rank map orders the tree.** A branch ranks above its children, which makes
  every descent terminate.
- **Failures are values.** A failed `assert` in a public operation becomes
  `Err(AssertionFailure)` or `Failure(AssertionFailure)`. The iterator's exception
  becomes `Failure(OutOfRange)`.
- **Internal preconditions are `requires` clauses.** These are the `assert` inside
  `_access_node`, and dereferencing a null pointer.

Three operations are called by the source but not defined in the files:

- `dnode` does not override `count()`, so a branch's count is its cached `elem_count`,
  as the comment in `dvector.h` documents.
- `renew_count` is modelled as `elem_count := left.count() + right.count()`, applied
  from the new branch up to the root. Only that makes the source's `insert(7, …)` on a
  seven-element tree pass `index <= size()`.
- `is_right_child(c)` is modelled as `right == c`.

## Model

| member | source | states |
|---|---|---|
| DSlice.Slice.At | dvector/dslice.h:52-56 | `s[i]` is buffer cell `start + i` when `start + i < end`; otherwise the assert fails |
| DSlice.Slice.Put | dvector/dslice.h:65-69 | a write through the mutable `s[i]` changes exactly buffer cell `start + i`, or the assert fails and nothing changes |
| DSlice.Slice.SubSlice | dvector/dslice.h:58-63 | `slice(a, b)` succeeds iff `a <= b` and `b - a <= size()`; the result is the window `[start + a, start + b)` over the same buffer, of size `b - a` |
| DSlice.Slice.Contents | dvector/dslice.h:71-74 | the window shows `size()` elements (`Slice.Size`, the model of `size()`, is `end - start`), `buf[start..end]` |
| DSlice.FromCopy | dvector/dslice.h:20-23 | building from `const Vector&` puts a copy of the elements in a fresh buffer |
| DSlice.FromMove | dvector/dslice.h:15-18 | building from `Vector&&` takes the vector's own buffer and leaves the vector empty |
| DSlice.SubSliceShares | dvector/dslice.h:58-63 | a sub-window and its parent read the same cell at corresponding indices |
| DSlice.SubSliceMayExtendPastParent | dvector/dslice.h:60-61 | the checks of `slice` let a sub-window reach past its parent's end |
| DSlice.ShareScenario | test/test.cpp:35-57 | the source's slice test: the moved-from vector is empty, `d2[0] == 3`, a write through `d2` and then one through its sub-window `d3` both show through `d2`, and `d3.size() == 1` |
| DNodeBase.Node.Type | dvector/dnode_base.h:9-12 | the tag is `'l'` exactly for leaves and `'n'` exactly for branches |
| DNodeBase.Node.WithParent | dvector/dnode_base.h:13 | setting `p` changes the parent pointer only |
| DNodeBase.Node.WithLeft | dvector/dnode.h:11 | setting `left` changes that field only |
| DNodeBase.Node.WithRight | dvector/dnode.h:12 | setting `right` changes that field only |
| DNodeBase.Node.WithCount | dvector/dnode.h:13 | setting `elem_count` changes that field only |
| DNodeBase.Node.Skeleton | dvector/dnode.h:13 | a helper, not a source operation: the node with `elem_count`, the one field `renew_count` writes, cleared and every other field kept; recounting is shown to keep every skeleton |
| DNodeBase.Node.Count | dvector/dleaf.h:26-29 | `count()`: a leaf counts its window's size, a branch answers its cached `elem_count` (which `TreeShape.CountIsSize` shows to be the subtree's size) |
| DLeaf.NewLeaf | dvector/dleaf.h:14-29 | a new leaf copies the window value (so it shares its buffer), is tagged `'l'`, has no parent, and counts the window's size |
| DLeaf.LeafOverOneToFour | test/test.cpp:59-70 | a leaf over `[1, 4)` counts 3 and is tagged `'l'` |
| DNode.NewBranch | dvector/dnode.h:8-18 | a new branch is tagged `'n'`, has `h == 0`, null children, count 0 and no parent |
| TreeShape.Locate | dvector/dvector_base.h:69-89 | the descent by cached counts always ends on a leaf |
| TreeShape.SizeIsLength | dvector/dvector_base.h:69-89 | a subtree's size is the length of its element sequence |
| TreeShape.CountIsSize | dvector/dvector.h:105-108 | when every cache is exact, a node's `count()` is the size of its subtree |
| TreeShape.CachesOfSizesAreExact | dvector/dnode.h:13 | caches equal to subtree sizes satisfy the sum rule of `elem_count` |
| TreeShape.UnderRank | dvector/dnode_base.h:13 | a descendant ranks no higher than its ancestor, so climbing `p` terminates |
| TreeShape.UnderTrans | dvector/dnode_base.h:13 | being below is transitive |
| TreeShape.UnderParent | dvector/dnode_base.h:13 | a proper descendant has a parent, which is a child's branch and still inside the subtree |
| TreeShape.AncestorsOrdered | dvector/dnode_base.h:13 | two ancestors of one node are nested |
| TreeShape.ChildrenDisjoint | dvector/dnode.h:11-12 | no node lies below both children of a branch |
| TreeShape.BetweenChild | dvector/dnode_base.h:13 | one step up the `p` chain skips nothing: no node lies strictly between a branch and its child on the way to a node below |
| TreeShape.OffsetBound | dvector/dvector_base.h:69-89 | a subtree's elements lie inside its ancestor's elements |
| TreeShape.OffsetUp | dvector/dvector_iterator.h:53-58 | one step up from a right child moves the offset by the left sibling's size; from a left child it keeps it |
| TreeShape.OffsetTrans | dvector/dvector_iterator.h:69 | offsets add along a path |
| TreeShape.ElemsAt | dvector/dvector_base.h:69-89 | element `k` of a descendant is element `offset + k` of the ancestor |
| TreeShape.LocateSpec | dvector/dvector_base.h:69-89 | `_access_node(node, index)`, for `index <= count()`, returns a leaf below `node` whose offset plus the local index is `index`; the local index is at most the leaf's count, and strictly less when `index < count()` |
| TreeShape.LocateAtEnds | dvector/dvector_base.h:73-88 | index 0 lands on local index 0; index `count()` lands on the rightmost leaf (`Rightmost`), at its own end, since the descent always goes right there, even past empty leaves that end at the same place |
| TreeShape.Rightmost | dvector/dvector_base.h:82-86 | following only `right` links from a node always ends on a leaf |
| TreeShape.LocateUnique | dvector/dvector_base.h:69-89 | the descent finds every element of every leaf at exactly that leaf and local index |
| TreeFrames.RecountFrame | dvector/dvector_base.h:119 | recounting branches changes no element sequence |
| TreeFrames.RecountLinked | dvector/dvector_base.h:119 | recounting branches keeps the tree linked |
| TreeFrames.RecountStep | dvector/dvector_base.h:119 | recounting one branch whose subtree caches are exact makes its own cache exact |
| TreeFrames.RecountClimb | dvector/dvector_base.h:119 | after recounting a non-root branch, its parent is the one branch left to fix |
| TreeFrames.RecountTop | dvector/dvector_base.h:119 | after recounting the root, every cache is exact |
| TreeFrames.RecountAt | dvector/dvector_base.h:119 | one `renew_count`: the branch's `elem_count` becomes the sum of its children's counts; its other fields and every other node are kept |
| TreeFrames.RecountMove | dvector/dvector_base.h:119 | one step of the climb keeps the tree linked and moves the one branch left to fix to the parent, or finishes at the root |
| TreeFrames.ExtendFrame | dvector/dvector_base.h:91-99 | adding a detached node changes no element sequence of existing nodes |
| TreeFrames.AddDetachedLeaf | dvector/dvector_base.h:91-99 | adding a parentless leaf keeps the tree linked and every cache exact |
| Splice.Relink | dvector/dvector_base.h:46-47 | the parent's slot that held the old node now holds the new one; the other slot, `p`, `h` and the count are kept |
| Splice.Replaced | dvector/dvector_base.h:35-49 | `_replace_node(new, old)` for the root changes no node; otherwise `new.p := old.p`, the parent slot that held `old` now holds `new`, and every other node, `old` included, is unchanged |
| Splice.BoundaryIsReady | dvector/dvector_base.h:103-127 | a boundary index lands on a leaf that can take the new leaf; at local index 0 the index is the leaf's start, otherwise its end |
| Splice.WiredAt | dvector/dvector_base.h:110-127 | after wiring, the new branch sits in the old leaf's place with the new leaf left and the old leaf right at local index 0 (the reverse at the end), both leaves point to it, and the other nodes are as before |
| Splice.WiredIsSplice | dvector/dvector_base.h:103-127 | the wired arena, recounted, is a splice |
| Splice.SplicedLinked | dvector/dvector_base.h:103-127 | a splice keeps the tree linked, and the root (or the new branch in its place) has no parent |
| Splice.SplicedBufs | dvector/dvector_base.h:103-127 | a splice introduces and drops no buffer |
| Splice.SplicedFrame | dvector/dvector_base.h:103-127 | below every node, a splice inserts the new leaf's elements at the landing offset if the old leaf is below it, and changes nothing otherwise |
| Splice.SplicedElems | dvector/dvector_base.h:103-127 | a splice inserts the new leaf's elements into the root's sequence at the old leaf's start or end |
| Splice.SplicedCountsOffPath | dvector/dvector_base.h:119 | a splice keeps exact every cache not above the new branch |
| Splice.WiredReady | dvector/dvector_base.h:103-127 | after wiring, only the caches from the new branch up are stale, and the root's elements are the old ones with the new leaf's inserted at the landing offset |
| Traversal.PostOrderCovers | dvector/dvector_base.h:140-160 | post-order visits exactly the nodes of the subtree and the subtree's root last |
| Traversal.PostOrderOnce | dvector/dvector_base.h:215-218 | post-order visits every node once, so the destructor frees each node exactly once |
| Traversal.PostOrderLeaves | dvector/dvector_base.h:140-160 | post-order meets the leaves left to right |
| Traversal.PreOrderFirst | dvector/dvector_base.h:162-182 | pre-order starts at the subtree's root, at the given level |
| Traversal.PreOrderSameNodes | dvector/dvector_base.h:162-182 | pre-order visits the same nodes as post-order, as often |
| Traversal.PreOrderLeaves | dvector/dvector_base.h:162-182 | pre-order walks children right before left, so it meets the leaves right to left |
| Base.DVectorBase.constructor | dvector/dvector_base.h:25-28 | building from `const Vector&` gives one parentless leaf over a fresh copy of the elements |
| Base.DVectorBase.FromVector | dvector/dvector_base.h:30-33 | building from `Vector&&` gives one leaf over the vector's own buffer and leaves the vector empty |
| Base.DVectorBase.EndsAreBoundaries | dvector/dvector_base.h:73 | the size is the root's count; the first and one-past-the-end positions land on leaf boundaries |
| Base.DVectorBase.LeafConstruct | dvector/dvector_base.h:92-93 | `leaf_construct` adds one parentless leaf under a fresh id and keeps the tree valid |
| Base.DVectorBase.NodeConstruct | dvector/dvector_base.h:59 | `node_construct` adds one fresh default branch under a fresh id |
| Base.DVectorBase.AccessNode | dvector/dvector_base.h:69-89 | the loop computes exactly the descent `Locate` and changes nothing |
| Base.DVectorBase.ReplaceNode | dvector/dvector_base.h:35-49 | `_replace_node` updates `root` when `old` is the root and the arena as `Replaced` describes |
| Base.DVectorBase.BuildParent | dvector/dvector_base.h:51-62 | `_build_parent` installs a fresh default branch in the leaf's place and returns it |
| Base.DVectorBase.RenewCount | dvector/dvector_base.h:119 | recounting from the new branch up to the root makes every cache exact and changes neither the shape nor the elements |
| Base.DVectorBase.InsertLeaf | dvector/dvector_base.h:101-127 | inserting a leaf at a boundary index makes the elements `old[..index] + leaf + old[index..]`; both leaves hang below the new branch, the new leaf left at local index 0 and right at the end |
| Base.DVectorBase.SpliceIn | dvector/dvector_base.h:107-117 | building the parent and setting both leaves' `p` and the branch's children produces `Wired` |
| Base.DVectorBase.Wire | dvector/dvector_base.h:112-125 | the in-place field writes (both leaves' `p`, the branch's children) give the arena `WireUp`; what every slot then holds is stated by `Splice.WiredAt` |
| Base.DVectorBase.Recount | dvector/dvector_base.h:119-126 | after wiring and recounting, the tree is valid and holds the old elements with the new leaf's inserted at the landing offset |
| Base.DVectorBase.InsertCopy | dvector/dvector_base.h:91-94 | `_insert_node(root, index, const Vector&)` at a boundary makes the elements `old[..index] + elements + old[index..]` |
| Base.DVectorBase.InsertMove | dvector/dvector_base.h:96-99 | `_insert_node(root, index, Vector&&)` does the same with the vector's elements and leaves the vector empty |
| Base.DVectorBase.InsertNew | dvector/dvector_base.h:91-101 | a new leaf over a window is spliced in at `index` |
| Iterator.CursorAtPlaced | dvector/dvector_iterator.h:60-70 | the cursor of a position up to the size is placed at that position; from the size on it is the end state |
| Iterator.PlacedIsCanonical | dvector/dvector_iterator.h:31-34 | a placed cursor is the cursor of its own position, so `(current_leaf, current_local_pos)` is determined by `current_pos` |
| Iterator.MovedPlaced | dvector/dvector_iterator.h:36-99 | `advance(diff)` fails exactly when `pos + diff < 0`; otherwise the result is placed, at `pos + diff` when that is at most the size and at the size beyond |
| Iterator.MovedCompose | dvector/dvector_iterator.h:36-99 | two in-range advances by `a` and `b` equal one by `a + b` |
| Iterator.CursorElement | dvector/dvector_iterator.h:157-160 | a placed cursor on a leaf reads the tree's element at its position |
| Iterator.PlacedPosition | dvector/dvector_iterator.h:114-117 | the `pos()` of a tracked iterator is at most the size, and equal to it exactly in the end state |
| Iterator.DVectorIterator.Pos | dvector/dvector_iterator.h:114-117 | `pos()` is the cursor's position, which `Iterator.PlacedPosition` bounds |
| Iterator.Difference | dvector/dvector_iterator.h:224-231 | `it1 - it2` is how far `it2` must move to reach `it1`; `Iterator.MovedDifference` shows an advance by `diff` is undone by it |
| Iterator.Equal | dvector/dvector_iterator.h:178-184 | `==` holds exactly when the difference is 0 |
| Iterator.NotEqual | dvector/dvector_iterator.h:186-192 | `!=` is the negation of `==` |
| Iterator.Less | dvector/dvector_iterator.h:233-239 | `<` holds exactly when the difference is negative |
| Iterator.Greater | dvector/dvector_iterator.h:241-247 | `>` is `<` with the operands swapped |
| Iterator.LessEq | dvector/dvector_iterator.h:249-255 | `<=` is `<` or `==` |
| Iterator.GreaterEq | dvector/dvector_iterator.h:257-263 | `>=` is the negation of `<` |
| Iterator.MovedDifference | dvector/dvector_iterator.h:224-231 | after an in-range advance by `diff`, `moved - it == diff`, and the two are ordered by the sign of `diff` |
| Iterator.DVectorIterator.constructor | dvector/dvector_iterator.h:101-104 | the default iterator has a null leaf, a null root and zeros |
| Iterator.DVectorIterator.At | dvector/dvector_iterator.h:106-111 | the iterator takes the given leaf, root, local index and position |
| Iterator.DVectorIterator.Copy | dvector/dvector_iterator.h:127 | a copy has the same root and cursor |
| Iterator.DVectorIterator.Advance | dvector/dvector_iterator.h:36-99 | `advance(diff)` moves the cursor as `Moved` says: unchanged for 0; the target position; the end state at or past the end; the out-of-range error, with no change, before the first element |
| Iterator.DVectorIterator.Forward | dvector/dvector_iterator.h:48-71 | the `diff > 0` half lands on the target position, or on the end state with `current_pos` the size |
| Iterator.DVectorIterator.ToEnd | dvector/dvector_iterator.h:60-66 | falling off the root sets the null leaf, local index 0 and the root's count, which is the end state |
| Iterator.DVectorIterator.Backward | dvector/dvector_iterator.h:72-98 | the `diff < 0` half lands on the target position, or raises the out-of-range error and changes nothing |
| Iterator.DVectorIterator.Descend | dvector/dvector_iterator.h:69-70 | the final `_access_node` lands on the cursor of the target position |
| Iterator.ClimbForward | dvector/dvector_iterator.h:50-67 | the forward climb falls off the root exactly when the target is at or past the end; otherwise it stops at an ancestor of the start leaf that holds the target (at the target's offset inside it), and no node below it on the way up holds the target (`EndsBefore`), so it is the first such ancestor |
| Iterator.ClimbStart | dvector/dvector_iterator.h:46-50 | the climb starts at the leaf itself, with no node yet passed |
| Iterator.ClimbStepForward | dvector/dvector_iterator.h:53-58 | one step up from a node that does not hold the target reaches an ancestor of the leaf, adds the left sibling's size exactly from a right child, and keeps every passed node short of the target |
| Iterator.ClimbStepBackward | dvector/dvector_iterator.h:85-91 | one step up while the target is negative reaches an ancestor of the leaf, adds the left sibling's size exactly from a right child, and keeps every passed node after the target |
| Iterator.ClimbBackward | dvector/dvector_iterator.h:74-92 | the backward climb restarts an end iterator at the root with the root's count added, where it stops (`node == root`) unless it fails, and raises the error exactly when the target lies before the first element; otherwise it stops at a node holding the target, which for a leaf cursor is an ancestor of the leaf with every node passed on the way starting after the target (`StartsAfter`), so it is the first such ancestor |
| Iterator.DVectorIterator.Increment | dvector/dvector_iterator.h:119-123 | `++it` is `advance(1)` |
| Iterator.DVectorIterator.PostIncrement | dvector/dvector_iterator.h:125-130 | `it++` advances by 1 and returns a copy of the prior state |
| Iterator.DVectorIterator.Decrement | dvector/dvector_iterator.h:132-136 | `--it` is `advance(-1)` |
| Iterator.DVectorIterator.PostDecrement | dvector/dvector_iterator.h:138-143 | `it--` advances by -1 and returns a copy of the prior state |
| Iterator.DVectorIterator.AddAssign | dvector/dvector_iterator.h:145-149 | `it += d` is `advance(d)` |
| Iterator.DVectorIterator.SubAssign | dvector/dvector_iterator.h:151-155 | `it -= d` is `advance(-d)` |
| Iterator.DVectorIterator.Deref | dvector/dvector_iterator.h:157-175 | `*it` and `it->` read the container's element at `pos()` |
| Iterator.Plus | dvector/dvector_iterator.h:194-204 | `it + d` is a copy of `it` advanced by `d` |
| Iterator.PlusLeft | dvector/dvector_iterator.h:206-213 | `d + it` is `it + d` |
| Iterator.Minus | dvector/dvector_iterator.h:215-222 | `it - d` is `it + (-d)` |
| Container.DVector.constructor | dvector/dvector.h:93-95 | the default container is empty |
| Container.DVector.Copy | dvector/dvector.h:97-99 | building from `const Vector&` yields exactly the vector's elements |
| Container.DVector.Move | dvector/dvector.h:101-103 | building from `Vector&&` yields the vector's elements and leaves the vector empty |
| Container.DVector.Size | dvector/dvector.h:105-108 | `size()`, the root's count, is the number of elements |
| Container.DVector.Get | dvector/dvector.h:110-117 | `d[i]` is element `i` for `i < size()`; any other index fails an assert; nothing changes |
| Container.DVector.Insert | dvector/dvector.h:124-128 | `insert(i, const Vector&)` fails its assert iff `i > size()` and changes nothing then; otherwise the elements become `old[..i] + elements + old[i..]` |
| Container.DVector.InsertMove | dvector/dvector.h:130-134 | `insert(i, Vector&&)` does the same with the vector's elements and leaves the vector empty |
| Container.DVector.InsertElement | dvector/dvector.h:136-146 | `insert(i, element)` fails iff `i > size()`; otherwise the elements become `old[..i] + [element] + old[i..]` |
| Container.DVector.EraseCheck | dvector/dvector.h:148-152 | `erase(i)` passes its assert iff `i < size()` |
| Container.ConstructScenario | test/test.cpp:72-89 | the source's construction test: built from a temporary (the moving constructor), `d[0] == 0`; the copied-from vector keeps 5 elements, the moved-from one is empty |
| Container.InsertScenario | test/test.cpp:94-117 | the source's insertion test, whose temporaries select the moving constructor and the moving `insert`: after inserting 233 and then 2333 at the front, `d[0] == 2333` and `d[1] == 233`; after `insert(7, 114514)`, `d[7] == 114514` |

## Left out

- The middle-of-leaf branch of `_insert_node` (`dvector/dvector_base.h:129-137`) is unfinished in the source. It builds the left part from offset 0 instead of the leaf's start. It destroys that part right after installing it. It never re-inserts the tail, and it orphans the original leaf.
- Base.DVectorBase.InsertLeaf: the boundary requirement (`AtBoundary`) follows from the middle case being left out. The same requirement appears on `InsertCopy`, `InsertMove`, `InsertNew` and on `Container.DVector.Insert`, `InsertMove` and `InsertElement` (for indices up to the size). The insertions of `test/test.cpp:133-134` are at index 0 and the rotation test (`test/test.cpp:139-165`) inserts at boundaries only, but neither asserts an element, so neither is reproduced. The first insertion inside a leaf, `insert(1, 5)` at `test/test.cpp:174`, and the tests after it are not modelled.
- Rebalancing, AVL rotations, `_rebalance`, `_erase` and `check_height` are referenced but not defined in the files. The balance byte `h` is never changed by the modelled code and stays 0.
- `visualize` is a text dump that depends on the element type's stream formatting. `dvector.h` also calls a two-argument overload of it that does not exist.
- Allocation plumbing (`dvector/dalloc.h`): `leaf_construct` and `node_construct` are modelled as adding an arena entry. The memory itself is not modelled.
- `destory` is not modelled: nothing removes an arena entry. That the destructor frees every node exactly once is argued by `Traversal.PostOrderOnce`.
- The `shared_ptr` lifetime of buffers is not modelled. Only the aliasing between windows is.
- Container.DVector.InsertElement: the source's single-element `insert` overloads have no matching `_insert_node` overload. The model inserts the one-element vector, and the copy and move forms are the same there.
- Container.DVector.EraseCheck: only the index check of `erase` is modelled, because `_erase` is not part of the files.
- Iterator.DVectorIterator.Deref: the mutable `operator*` and `operator->` return writable references. A write through them is not modelled. `DSlice.Slice.Put` models such a write on a window.
- Iterator.DVectorIterator.Advance: moving forward from the end state or from a default iterator dereferences a null leaf in the source, so the model requires a leaf for `diff > 0`. Every movement requires an iterator that tracks a valid tree (`Tracks`), and a default iterator (null root) does not. A tracked cursor stands strictly inside a leaf (`local < count()`) or is the end state (null leaf, position the size). So the model excludes these `At` iterators, which the source advances without trouble: one at a leaf's end (`At(leaf, root, leaf->count(), pos)`), including any leaf iterator on an empty container (`At(root, root, 0, 0)`). It also excludes any `At` whose position does not match its leaf and local index.
- Iterator.DVectorIterator.Deref: dereferencing the end iterator dereferences a null leaf, so the model requires a leaf.
- `size_t` / `ptrdiff_t` widths are not modelled: positions and counts are unbounded naturals and `diff` an unbounded integer. The source's unsigned `current_local_pos + diff` for negative `diff` is computed as a signed value into `target_pos`, which is what the model does.
- DSlice.FromCopy: the window constructors require `start <= end`. The source does not check this, and `size()` of such a window would wrap around.
- `_access_node`'s `assert(index <= node->count())` is a precondition of `Base.DVectorBase.AccessNode`, which only internal callers reach. `Container.DVector.Get` checks the index first and returns the assertion failure.
- `renew_count` and `is_right_child` are not defined in the files. They are modelled as described above.
- Copy and move of whole `dvector` objects, `push_back`, and the test and benchmark scaffolding are not modelled.
