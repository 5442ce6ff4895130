/** `dvector_base`: the tree of leaves and branches behind the container. Nodes live in an
    arena owned by the tree; `root` names the root node and `next` is the next unused id. */
module Base {
  import opened DSlice
  import opened DNodeBase
  import opened DLeaf
  import opened DNode
  import opened TreeShape
  import opened TreeFrames
  import opened Splice

  class DVectorBase<T> {
    var nodes: Arena<T>
    var root: nat
    var next: nat
    /** Ranks for the descent: a branch ranks above its children. */
    ghost var rank: Ranks

    /** The tree is linked, every cached count is exact, the root has no parent, and every
        allocated id lies below `next`. */
    ghost predicate Valid()
      reads this
    {
      && Linked(nodes, rank) && CountsExact(nodes, rank)
      && root in nodes && nodes[root].p == Null
      && (forall x :: x in nodes ==> x < next)
    }

    /** The elements the container holds: the in-order concatenation of the leaf windows. */
    ghost function Contents(): seq<T>
      requires Valid()
      reads this, Bufs(nodes)
    {
      Elems(nodes, rank, root)
    }

    /** Inserting at `index` lands on the start or the end of a leaf. */
    ghost predicate AtBoundary(index: nat)
      requires Valid()
      reads this
    {
      var (leaf, k) := Locate(nodes, rank, root, index);
      k == 0 || k == Count(nodes, rank, leaf)
    }

    /** Building from `const Vector&`: one leaf over a copy of all of the elements. */
    constructor (init: seq<T>)
      ensures Valid() && Contents() == init
      ensures nodes.Keys == {root} && nodes[root].Leaf? && fresh(nodes[root].value.buf)
    {
      var s := FromCopy(0, |init|, init);
      nodes := map[0 := NewLeaf(s)];
      root := 0;
      next := 1;
      rank := map[0 := 0];
      new;
      assert NodeShaped(nodes, rank, 0);
      assert s.buf in Bufs(nodes);
    }

    /** Building from `Vector&&`: one leaf over the vector's own storage; the vector is left
        empty. */
    constructor FromVector(v: Vector<T>)
      modifies v
      ensures Valid() && Contents() == old(v.storage[..])
      ensures nodes.Keys == {root} && nodes[root].Leaf? && nodes[root].value.buf == old(v.storage)
      ensures fresh(v.storage) && v.storage.Length == 0
    {
      var s := FromMove(0, v.Size(), v);
      nodes := map[0 := NewLeaf(s)];
      root := 0;
      next := 1;
      rank := map[0 := 0];
      new;
      assert NodeShaped(nodes, rank, 0);
      assert s.buf in Bufs(nodes);
    }

    /** The first and the one-past-the-end positions are always leaf boundaries. */
    lemma EndsAreBoundaries()
      requires Valid()
      ensures |Contents()| == Count(nodes, rank, root)
      ensures AtBoundary(0) && AtBoundary(|Contents()|)
    {
      SizeIsLength(nodes, rank, root);
      CountIsSize(nodes, rank, root);
      LocateAtEnds(nodes, rank, root);
      var (leaf, k) := Locate(nodes, rank, root, |Contents()|);
      CountIsSize(nodes, rank, leaf);
    }

    /** `leaf_construct`: a fresh leaf over `s`, with no parent. */
    method LeafConstruct(s: Slice<T>) returns (id: nat)
      requires Valid() && s.Readable()
      modifies this
      ensures id == old(next) && next == old(next) + 1 && root == old(root)
      ensures nodes == old(nodes)[id := NewLeaf(s)] && rank == old(rank)[id := 0]
      ensures Valid() && Extends(old(nodes), old(rank), nodes, rank)
    {
      AddDetachedLeaf(nodes, rank, next, s);
      id := next;
      nodes := nodes[id := NewLeaf(s)];
      rank := rank[id := 0];
      next := next + 1;
    }

    /** `node_construct`: a fresh branch with its default fields. */
    method NodeConstruct() returns (id: nat)
      requires forall x :: x in nodes ==> x < next
      modifies this
      ensures id == old(next) && id !in old(nodes) && next == old(next) + 1
      ensures nodes == old(nodes)[id := NewBranch()]
      ensures root == old(root) && rank == old(rank)
      ensures forall x :: x in nodes ==> x < next
    {
      id := next;
      nodes := nodes[id := NewBranch()];
      next := next + 1;
    }

    /** `_access_node`: descends from `node` by the cached counts to a leaf and the index
        inside it. One past the end is allowed. */
    method AccessNode(node: nat, index: nat) returns (leaf: nat, local: nat)
      requires Valid() && node in nodes && index <= Count(nodes, rank, node)
      ensures (leaf, local) == Locate(nodes, rank, node, index)
      ensures Contents() == old(Contents())
    {
      leaf, local := node, index;
      while nodes[leaf].Type() != 'l'
        invariant leaf in nodes && Locate(nodes, rank, leaf, local) == Locate(nodes, rank, node, index)
        decreases rank[leaf]
      {
        assert NodeShaped(nodes, rank, leaf);
        var l := nodes[leaf].left.id;
        assert NodeShaped(nodes, rank, l);
        if local < nodes[l].Count() {
          leaf := l;
        } else {
          local := local - nodes[l].Count();
          leaf := nodes[leaf].right.id;
        }
      }
    }

    /** `_replace_node(now, was)`: `now` takes `was`'s place, as the root or under `was`'s
        parent. */
    method ReplaceNode(now: nat, was: nat)
      requires was in nodes && now in nodes
      requires was != root ==> nodes[was].p.To? && nodes[was].p.id in nodes && nodes[nodes[was].p.id].Branch?
      modifies this
      ensures root == (if old(root) == was then now else old(root))
      ensures nodes == Replaced(old(nodes), old(root), now, was)
      ensures next == old(next) && rank == old(rank)
    {
      if root == was {
        root := now;
      } else {
        var q := nodes[was].p;
        nodes := nodes[now := nodes[now].WithParent(q)];
        if nodes[q.id].left == To(was) {
          nodes := nodes[q.id := nodes[q.id].WithLeft(To(now))];
        } else {
          nodes := nodes[q.id := nodes[q.id].WithRight(To(now))];
        }
      }
    }

    /** `_build_parent(leaf)`: a fresh branch put in `leaf`'s place, which is returned; its
        children are still null. The elements `e` under the root and `enl` under `nl` stay
        what the old arena holds. */
    method BuildParent(leaf: nat, ghost nl: nat, ghost e: seq<T>, ghost enl: seq<T>) returns (pid: nat)
      requires leaf in nodes && forall x :: x in nodes ==> x < next
      requires leaf != root ==> nodes[leaf].p.To? && nodes[leaf].p.id in nodes && nodes[nodes[leaf].p.id].Branch?
      requires Shaped(nodes, rank) && root in nodes && nl in nodes
      requires e == Elems(nodes, rank, root) && enl == Elems(nodes, rank, nl)
      modifies this
      ensures e == Elems(old(nodes), old(rank), old(root)) && enl == Elems(old(nodes), old(rank), nl)
      ensures pid == old(next) && pid !in old(nodes) && next == old(next) + 1 && rank == old(rank)
      ensures nodes == Replaced(old(nodes)[pid := NewBranch()], old(root), pid, leaf)
      ensures root == (if old(root) == leaf then pid else old(root))
    {
      pid := NodeConstruct();
      ReplaceNode(pid, leaf);
      assert e == Elems(old(nodes), old(rank), old(root)) && enl == Elems(old(nodes), old(rank), nl) by {
        assert forall y :: y in old(nodes) && old(nodes)[y].Leaf? ==> allocated(old(nodes)[y].value.buf);
      }
    }

    /** `renew_count`: from `p` up to the root, every branch sets its cached count to the sum
        of its children's counts. Only counts change, and afterwards all of them are exact. */
    method RenewCount(p: nat)
      requires Linked(nodes, rank) && root in nodes && nodes[root].p == Null
      requires p in nodes && nodes[p].Branch? && Under(nodes, rank, root, p)
      requires ExactOffPath(nodes, rank, p)
      modifies this
      ensures root == old(root) && next == old(next) && rank == old(rank)
      ensures SameShape(old(nodes), nodes) && Linked(nodes, rank) && CountsExact(nodes, rank)
      ensures Elems(nodes, rank, root) == old(Elems(nodes, rank, root))
    {
      UnderRank(nodes, rank, root, p);
      var cur := To(p);
      while cur.To?
        invariant root == old(root) && next == old(next) && rank == old(rank)
        invariant Linked(nodes, rank) && root in nodes && nodes[root].p == Null
        invariant SameShape(old(nodes), nodes)
        invariant cur.To? ==> && cur.id in nodes && nodes[cur.id].Branch?
                              && Under(nodes, rank, root, cur.id) && ExactOffPath(nodes, rank, cur.id)
                              && cur.id in rank && root in rank && rank[cur.id] <= rank[root]
        invariant cur.Null? ==> AllExact(nodes, rank)
        decreases if cur.To? then rank[root] - rank[cur.id] + 1 else 0
      {
        var n := cur.id;
        ghost var m := nodes;
        nodes := RecountAt(nodes, rank, n);
        RecountMove(old(nodes), m, rank, root, n);
        cur := nodes[n].p;
      }
      CachesOfSizesAreExact(nodes, rank);
      RecountFrame(old(nodes), nodes, rank, root);
      assert Elems(old(nodes), rank, root) == old(Elems(nodes, rank, root)) by {
        assert forall y :: y in old(nodes) && old(nodes)[y].Leaf? ==> allocated(old(nodes)[y].value.buf);
      }
    }

    /** `_insert_node(root, index, new_node)` for a detached leaf `nl` landing on a leaf
        boundary: the new leaf's elements appear at `index`, and the old leaf and the new
        leaf become the two children of a fresh branch in the old leaf's place. */
    method InsertLeaf(index: nat, nl: nat)
      requires Valid() && nl in nodes && nodes[nl].Leaf? && nodes[nl].p == Null && nl != root
      requires index <= |Contents()| && AtBoundary(index)
      modifies this
      ensures Valid()
      ensures Contents() == old(Contents()[..index] + Elems(nodes, rank, nl) + Contents()[index..])
      ensures var (leaf, k) := old(Locate(nodes, rank, root, index));
        && leaf in nodes && nl in nodes && nodes[leaf].Leaf? && nodes[leaf].p == To(old(next)) && nodes[nl].p == To(old(next))
        && old(next) in nodes && nodes[old(next)].Branch?
        && (k == 0 ==> nodes[old(next)].left == To(nl) && nodes[old(next)].right == To(leaf))
        && (k != 0 ==> nodes[old(next)].left == To(leaf) && nodes[old(next)].right == To(nl))
    {
      ghost var m, rank0, root0 := nodes, rank, root;
      ghost var e, enl := Elems(nodes, rank, root), Elems(nodes, rank, nl);
      SizeIsLength(nodes, rank, root);
      CountIsSize(nodes, rank, root);
      var leaf, localIndex := AccessNode(root, index);
      assert nodes == m && rank == rank0 && root == root0 && next == old(next);
      assert NodeShaped(m, rank0, nl);
      assert (leaf, localIndex) == Locate(m, rank0, root0, index);
      BoundaryIsReady(nodes, rank, root, nl, next, index);
      var localLen := nodes[leaf].Count();
      var front: bool;
      if localIndex == 0 {
        front := true;
      } else if localIndex == localLen {
        front := false;
      } else {
        assert false;
      }
      var pid := SpliceIn(leaf, nl, front, e, enl);
      ReadyFacts(m, rank0, root0, leaf, nl, pid);
      WiredAt(m, root0, leaf, nl, pid, front);
      ghost var w := nodes;
      Recount(m, rank0, root0, leaf, nl, pid, front, e, enl, index);
      assert nodes[leaf].Skeleton() == w[leaf].Skeleton();
      assert nodes[nl].Skeleton() == w[nl].Skeleton();
      assert nodes[pid].Skeleton() == w[pid].Skeleton();
    }

    /** The pointer surgery of `_insert_node`: a fresh branch `pid` takes `leaf`'s place, and
        `leaf` and `nl` become its children, `nl` first when `front` holds. */
    method SpliceIn(leaf: nat, nl: nat, front: bool, ghost e: seq<T>, ghost enl: seq<T>) returns (pid: nat)
      requires Ready(nodes, rank, root, leaf, nl, next) && forall x :: x in nodes ==> x < next
      requires e == Elems(nodes, rank, root) && enl == Elems(nodes, rank, nl)
      modifies this
      ensures pid == old(next) && next == old(next) + 1 && rank == SplicedRanks(old(rank), leaf, nl, pid)
      ensures e == Elems(old(nodes), old(rank), old(root)) && enl == Elems(old(nodes), old(rank), nl)
      ensures root == Repl(old(root), leaf, pid) && forall x :: x in nodes ==> x < next
      ensures nodes == Wired(old(nodes), old(root), leaf, nl, pid, front)
    {
      pid := BuildParent(leaf, nl, e, enl);
      Wire(leaf, nl, pid, front, old(nodes), old(rank), old(root), e, enl);
    }

    /** The children's side of the splice: `leaf` and `nl` point up to `pid`, and `pid`
        points down to them. */
    method Wire(leaf: nat, nl: nat, pid: nat, front: bool, ghost m: Arena<T>, ghost rank0: Ranks,
                ghost root0: nat, ghost e: seq<T>, ghost enl: seq<T>)
      requires leaf in nodes && nl in nodes && pid in nodes && nodes[pid].Branch? && leaf in rank
      requires Shaped(m, rank0) && root0 in m && nl in m
      requires e == Elems(m, rank0, root0) && enl == Elems(m, rank0, nl)
      modifies this
      ensures root == old(root) && next == old(next) && rank == SplicedRanks(old(rank), leaf, nl, pid)
      ensures e == Elems(m, rank0, root0) && enl == Elems(m, rank0, nl)
      ensures nodes == WireUp(old(nodes), leaf, nl, pid, front)
    {
      label before:
      var n: Arena<T> := nodes[leaf := nodes[leaf].WithParent(To(pid))];
      n := n[nl := n[nl].WithParent(To(pid))];
      if front {
        n := n[pid := n[pid].WithLeft(To(nl))];
        n := n[pid := n[pid].WithRight(To(leaf))];
      } else {
        n := n[pid := n[pid].WithLeft(To(leaf))];
        n := n[pid := n[pid].WithRight(To(nl))];
      }
      nodes, rank := n, SplicedRanks(rank, leaf, nl, pid);
      assert e == Elems(m, rank0, root0) && enl == Elems(m, rank0, nl) by {
        assert forall y :: y in m && m[y].Leaf? ==> allocated(m[y].value.buf);
      }
    }

    /** The end of `_insert_node`: `renew_count` from the fresh branch up. The new leaf's
        elements now sit at the old leaf's front or back, and every cache is exact again. */
    method Recount(ghost m: Arena<T>, ghost rank0: Ranks, ghost root0: nat, leaf: nat, nl: nat, pid: nat,
                   ghost front: bool, ghost e: seq<T>, ghost enl: seq<T>, ghost at: nat)
      requires Ready(m, rank0, root0, leaf, nl, pid) && CountsExact(m, rank0)
      requires nodes == Wired(m, root0, leaf, nl, pid, front) && root == Repl(root0, leaf, pid)
      requires rank == SplicedRanks(rank0, leaf, nl, pid)
      requires e == Elems(m, rank0, root0) && enl == Elems(m, rank0, nl)
      requires at == OffsetIn(m, rank0, root0, leaf) + (if front then 0 else Size(m, rank0, leaf))
      modifies this
      ensures root == old(root) && next == old(next) && SameShape(old(nodes), nodes)
      ensures Linked(nodes, rank) && CountsExact(nodes, rank) && root in nodes && nodes[root].p == Null
      ensures at <= |e| && Elems(nodes, rank, root) == e[..at] + enl + e[at..]
    {
      WiredReady(m, rank0, root0, leaf, nl, pid, front);
      RenewCount(pid);
    }

    /** `_insert_node(root, index, const Vector&)`: the elements are copied into a new leaf,
        which is then spliced in. */
    method InsertCopy(index: nat, elements: seq<T>)
      requires Valid() && index <= |Contents()| && AtBoundary(index)
      modifies this
      ensures Valid()
      ensures Contents() == old(Contents())[..index] + elements + old(Contents())[index..]
    {
      var s := FromCopy(0, |elements|, elements);
      assert Contents() == old(Contents()) by {
        assert forall y :: y in nodes && nodes[y].Leaf? ==> allocated(nodes[y].value.buf);
      }
      assert s.Contents() == elements;
      InsertNew(index, s);
    }

    /** `_insert_node(root, index, Vector&&)`: the new leaf takes the vector's storage, and
        the vector is left empty. */
    method InsertMove(index: nat, elements: Vector<T>)
      requires Valid() && index <= |Contents()| && AtBoundary(index)
      modifies this, elements
      ensures Valid()
      ensures Contents() == old(Contents())[..index] + old(elements.storage[..]) + old(Contents())[index..]
      ensures fresh(elements.storage) && elements.storage.Length == 0
    {
      var s := FromMove(0, elements.Size(), elements);
      assert Contents() == old(Contents()) by {
        assert forall y :: y in nodes && nodes[y].Leaf? ==> allocated(nodes[y].value.buf);
      }
      assert s.Contents() == old(elements.storage[..]);
      InsertNew(index, s);
    }

    /** A new leaf over `s`, spliced in at `index`. */
    method InsertNew(index: nat, s: Slice<T>)
      requires Valid() && index <= |Contents()| && AtBoundary(index)
      requires s.Readable() && s.start == 0
      modifies this
      ensures Valid()
      ensures Contents() == old(Contents())[..index] + s.Contents() + old(Contents())[index..]
    {
      ghost var m, rank0 := nodes, rank;
      var nl := LeafConstruct(s);
      ExtendFrame(m, rank0, nodes, rank, root);
      assert Contents() == old(Contents()) by {
        assert forall y :: y in m && m[y].Leaf? ==> allocated(m[y].value.buf);
      }
      assert AtBoundary(index);
      assert NodeShaped(nodes, rank, nl);
      assert s.buf in Bufs(nodes);
      assert Elems(nodes, rank, nl) == s.Contents();
      InsertLeaf(index, nl);
    }
  }
}
