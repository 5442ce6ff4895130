/** What `_insert_node` does to the arena when the new leaf lands at either end of an existing
    leaf: a fresh branch takes the leaf's place and adopts the leaf and the new leaf as its two
    children. */
module Splice {
  import opened DNodeBase
  import opened DNode
  import opened TreeShape
  import opened TreeFrames

  /** The preconditions of the splice: a well-linked tree; `leaf` one of its leaves; `nl` a
      detached leaf (no parent, not the root); `pid` an unused id. */
  ghost predicate Ready<T>(m: Arena<T>, rank: Ranks, root: nat, leaf: nat, nl: nat, pid: nat) {
    && Linked(m, rank) && root in m && m[root].p == Null
    && leaf in m && m[leaf].Leaf? && Under(m, rank, root, leaf)
    && nl in m && m[nl].Leaf? && m[nl].p == Null && nl != root
    && pid !in m
    && (leaf != root ==> m[leaf].p.To? && m[leaf].p.id in m && m[m[leaf].p.id].Branch?)
  }

  /** The slot of branch `n` that held `was` now holds `now`: the left slot if it held `was`,
      otherwise the right one; the other slot is kept. */
  function Relink<T>(n: Node<T>, was: nat, now: nat): (r: Node<T>)
    requires n.Branch?
    ensures r.Branch? && r.p == n.p && r.h == n.h && r.elemCount == n.elemCount
    ensures n.left == To(was) ==> r.left == To(now) && r.right == n.right
    ensures n.left != To(was) ==> r.right == To(now) && r.left == n.left
  {
    if n.left == To(was) then n.WithLeft(To(now)) else n.WithRight(To(now))
  }

  /** `m'` is the arena once the new branch `pid` is wired in and its own count is renewed.
      With `front` the new leaf becomes the left child (insertion at local index 0); otherwise
      the old leaf stays on the left (insertion at the leaf's end). The new branch takes the
      old leaf's parent, the old leaf's slot in that parent now points to the new branch, both
      leaves name it as their parent, and no other node changes. */
  ghost predicate IsSplice<T>(m: Arena<T>, rank: Ranks, m': Arena<T>, leaf: nat, nl: nat, pid: nat, front: bool)
    requires Shaped(m, rank) && leaf in m && nl in m && m[leaf].Leaf? && m[nl].Leaf?
  {
    var gp := m[leaf].p;
    && m'.Keys == m.Keys + {pid}
    && m'[pid] == Branch(gp, 0, if front then To(nl) else To(leaf), if front then To(leaf) else To(nl),
                         Count(m, rank, leaf) + Count(m, rank, nl))
    && m'[leaf] == Leaf(To(pid), m[leaf].value)
    && m'[nl] == Leaf(To(pid), m[nl].value)
    && (gp.To? && gp.id in m && m[gp.id].Branch? ==> m'[gp.id] == Relink(m[gp.id], leaf, pid))
    && (forall x :: x in m && x != leaf && x != nl && gp != To(x) ==> m'[x] == m[x])
  }

  /** Ranks after the splice: every old rank doubles, the new branch sits just above the old
      leaf, and the new leaf ranks lowest. */
  ghost function SplicedRanks(rank: Ranks, leaf: nat, nl: nat, pid: nat): Ranks
    requires leaf in rank
  {
    (map x | x in rank :: 2 * rank[x])[pid := 2 * rank[leaf] + 1][nl := 0]
  }

  /** The node standing where `x` stood. */
  function Repl(x: nat, leaf: nat, pid: nat): nat {
    if x == leaf then pid else x
  }

  /** Where `_insert_node` lands: locating a boundary `index` gives a leaf that is ready to
      receive the detached leaf `nl`, and `index` is that leaf's front (`k == 0`) or back. */
  lemma BoundaryIsReady<T>(m: Arena<T>, rank: Ranks, root: nat, nl: nat, pid: nat, index: nat)
    requires Linked(m, rank) && CountsExact(m, rank) && root in m && m[root].p == Null
    requires nl in m && m[nl].Leaf? && m[nl].p == Null && nl != root && pid !in m
    requires index <= Size(m, rank, root)
    requires Locate(m, rank, root, index).1 == 0
             || Locate(m, rank, root, index).1 == Count(m, rank, Locate(m, rank, root, index).0)
    ensures var (leaf, k) := Locate(m, rank, root, index);
      && Ready(m, rank, root, leaf, nl, pid) && m[leaf].value.start <= m[leaf].value.end
      && Count(m, rank, leaf) == m[leaf].Count() == Size(m, rank, leaf)
      && (k == 0 ==> OffsetIn(m, rank, root, leaf) == index)
      && (k != 0 ==> OffsetIn(m, rank, root, leaf) + Size(m, rank, leaf) == index)
  {
    LocateSpec(m, rank, root, index);
    var (leaf, k) := Locate(m, rank, root, index);
    if leaf != root {
      UnderParent(m, rank, root, leaf);
    }
    assert NodeShaped(m, rank, leaf);
  }

  lemma ReadyFacts<T>(m: Arena<T>, rank: Ranks, root: nat, leaf: nat, nl: nat, pid: nat)
    requires Ready(m, rank, root, leaf, nl, pid)
    ensures nl != leaf && leaf in rank && nl in rank
    ensures NodeShaped(m, rank, leaf) && NodeShaped(m, rank, nl)
    ensures leaf != root ==> m[leaf].p.To? && IsChildOf(m, leaf, m[leaf].p.id)
    ensures leaf == root ==> m[leaf].p == Null
    ensures forall x :: x in m && m[x].Branch? ==> m[x].left != To(nl) && m[x].right != To(nl)
  {
    assert NodeShaped(m, rank, leaf);
    assert NodeShaped(m, rank, nl);
    if leaf != root {
      UnderParent(m, rank, root, leaf);
    }
    forall x | x in m && m[x].Branch? ensures m[x].left != To(nl) && m[x].right != To(nl) {
      assert NodeShaped(m, rank, x);
    }
  }

  /** Every old branch keeps its kind, parent and cached count, and its children are the
      nodes standing where its old children stood. */
  lemma SplicedChildren<T>(m: Arena<T>, rank: Ranks, m': Arena<T>, root: nat, leaf: nat, nl: nat, pid: nat, front: bool, x: nat)
    requires Ready(m, rank, root, leaf, nl, pid) && IsSplice(m, rank, m', leaf, nl, pid, front) && x in m && m[x].Branch?
    ensures NodeShaped(m, rank, x)
    ensures x in m' && m'[x].Branch?
    ensures m'[x].p == m[x].p && m'[x].elemCount == m[x].elemCount
    ensures m'[x].left == To(Repl(m[x].left.id, leaf, pid))
    ensures m'[x].right == To(Repl(m[x].right.id, leaf, pid))
  {
    ReadyFacts(m, rank, root, leaf, nl, pid);
    assert NodeShaped(m, rank, x);
    var l, r := m[x].left.id, m[x].right.id;
    if l == leaf || r == leaf {
      assert m[leaf].p == To(x);
    }
  }

  lemma SplicedShaped<T>(m: Arena<T>, rank: Ranks, m': Arena<T>, root: nat, leaf: nat, nl: nat, pid: nat, front: bool)
    requires Ready(m, rank, root, leaf, nl, pid) && IsSplice(m, rank, m', leaf, nl, pid, front)
    ensures Shaped(m', SplicedRanks(rank, leaf, nl, pid))
  {
    ReadyFacts(m, rank, root, leaf, nl, pid);
    var rank' := SplicedRanks(rank, leaf, nl, pid);
    forall x | x in m' ensures x in rank' && NodeShaped(m', rank', x) {
      if x == pid {
      } else if m[x].Branch? {
        SplicedChildren(m, rank, m', root, leaf, nl, pid, front, x);
        assert NodeShaped(m, rank, x);
      } else {
        assert NodeShaped(m, rank, x);
        assert m'[x].value == m[x].value;
      }
    }
  }

  lemma SplicedParentDown<T>(m: Arena<T>, rank: Ranks, m': Arena<T>, root: nat, leaf: nat, nl: nat, pid: nat, front: bool, x: nat)
    requires Ready(m, rank, root, leaf, nl, pid) && IsSplice(m, rank, m', leaf, nl, pid, front)
    requires Shaped(m', SplicedRanks(rank, leaf, nl, pid))
    requires x in m' && m'[x].Branch?
    ensures NodeShaped(m', SplicedRanks(rank, leaf, nl, pid), x)
    ensures m'[m'[x].left.id].p == To(x) && m'[m'[x].right.id].p == To(x)
  {
    ReadyFacts(m, rank, root, leaf, nl, pid);
    assert NodeShaped(m', SplicedRanks(rank, leaf, nl, pid), x);
    if x != pid {
      SplicedChildren(m, rank, m', root, leaf, nl, pid, front, x);
      var l, r := m[x].left.id, m[x].right.id;
      assert m[l].p == To(x) && m[r].p == To(x);
      if l != leaf {
        SplicedLeaf(m, rank, m', root, leaf, nl, pid, front, l);
      }
      if r != leaf {
        SplicedLeaf(m, rank, m', root, leaf, nl, pid, front, r);
      }
    }
  }

  lemma SplicedParentUp<T>(m: Arena<T>, rank: Ranks, m': Arena<T>, root: nat, leaf: nat, nl: nat, pid: nat, front: bool, y: nat)
    requires Ready(m, rank, root, leaf, nl, pid) && IsSplice(m, rank, m', leaf, nl, pid, front)
    requires y in m' && m'[y].p.To?
    ensures IsChildOf(m', y, m'[y].p.id)
  {
    ReadyFacts(m, rank, root, leaf, nl, pid);
    if y == pid {
      SplicedChildren(m, rank, m', root, leaf, nl, pid, front, m[leaf].p.id);
    } else if y != leaf && y != nl {
      SplicedLeaf(m, rank, m', root, leaf, nl, pid, front, y);
      var q := m[y].p.id;
      assert IsChildOf(m, y, q);
      SplicedChildren(m, rank, m', root, leaf, nl, pid, front, q);
    }
  }

  lemma SplicedLinked<T>(m: Arena<T>, rank: Ranks, m': Arena<T>, root: nat, leaf: nat, nl: nat, pid: nat, front: bool)
    requires Ready(m, rank, root, leaf, nl, pid) && IsSplice(m, rank, m', leaf, nl, pid, front)
    ensures Linked(m', SplicedRanks(rank, leaf, nl, pid))
    ensures Repl(root, leaf, pid) in m' && m'[Repl(root, leaf, pid)].p == Null
  {
    ReadyFacts(m, rank, root, leaf, nl, pid);
    SplicedShaped(m, rank, m', root, leaf, nl, pid, front);
    var rank' := SplicedRanks(rank, leaf, nl, pid);
    forall x | x in m' && m'[x].Branch?
      ensures NodeShaped(m', rank', x)
      ensures m'[m'[x].left.id].p == To(x) && m'[m'[x].right.id].p == To(x)
    {
      SplicedParentDown(m, rank, m', root, leaf, nl, pid, front, x);
    }
    forall y | y in m' && m'[y].p.To? ensures IsChildOf(m', y, m'[y].p.id) {
      SplicedParentUp(m, rank, m', root, leaf, nl, pid, front, y);
    }
    if root != leaf {
      SplicedLeaf(m, rank, m', root, leaf, nl, pid, front, root);
      if m[root].Branch? {
        SplicedChildren(m, rank, m', root, leaf, nl, pid, front, root);
      }
    }
  }

  /** The splice changes no leaf window, so the buffers looked into are the same. */
  lemma SplicedBufs<T>(m: Arena<T>, rank: Ranks, m': Arena<T>, root: nat, leaf: nat, nl: nat, pid: nat, front: bool)
    requires Ready(m, rank, root, leaf, nl, pid) && IsSplice(m, rank, m', leaf, nl, pid, front)
    ensures Bufs(m') == Bufs(m)
  {
    forall b | b in Bufs(m) ensures b in Bufs(m') {
      var y :| y in m && m[y].Leaf? && m[y].value.buf == b;
      SplicedLeaf(m, rank, m', root, leaf, nl, pid, front, y);
    }
    forall b | b in Bufs(m') ensures b in Bufs(m) {
      var y :| y in m' && m'[y].Leaf? && m'[y].value.buf == b;
      assert y != pid;
      SplicedLeaf(m, rank, m', root, leaf, nl, pid, front, y);
    }
  }

  lemma SplicedLeaf<T>(m: Arena<T>, rank: Ranks, m': Arena<T>, root: nat, leaf: nat, nl: nat, pid: nat, front: bool, y: nat)
    requires Ready(m, rank, root, leaf, nl, pid) && IsSplice(m, rank, m', leaf, nl, pid, front) && y in m
    ensures y in m' && m'[y].Leaf? == m[y].Leaf? && (m[y].Leaf? ==> m'[y].value == m[y].value)
  {
    if m[y].Branch? {
      SplicedChildren(m, rank, m', root, leaf, nl, pid, front, y);
    }
  }

  /** Where the new leaf's elements land inside the subtree of `x`: at the old leaf's offset
      there, or just behind the old leaf. */
  ghost function Landing<T>(m: Arena<T>, rank: Ranks, x: nat, leaf: nat, front: bool): nat
    requires Shaped(m, rank) && x in m && leaf in m && Under(m, rank, x, leaf)
  {
    OffsetIn(m, rank, x, leaf) + (if front then 0 else Size(m, rank, leaf))
  }

  /** The splice as seen from the old node `x`: the node standing where `x` stood has `pid`
      below it exactly when `x` had `leaf` below it; if so it holds the elements of `nl` in
      addition, spliced in at the leaf's offset (plus the leaf's length when the new leaf goes
      behind it); otherwise its elements are unchanged. */
  ghost predicate FrameAt<T>(m: Arena<T>, rank: Ranks, m': Arena<T>, leaf: nat, nl: nat, pid: nat, front: bool, x: nat)
    requires Shaped(m, rank) && x in m && leaf in m && nl in m && leaf in rank
    requires Shaped(m', SplicedRanks(rank, leaf, nl, pid))
    reads Bufs(m), Bufs(m')
  {
    var rank' := SplicedRanks(rank, leaf, nl, pid);
    var x' := Repl(x, leaf, pid);
    && x' in m'
    && (Under(m', rank', x', pid) <==> Under(m, rank, x, leaf))
    && Size(m', rank', x') == Size(m, rank, x) + (if Under(m, rank, x, leaf) then Size(m, rank, nl) else 0)
    && (Under(m, rank, x, leaf) ==>
          && Landing(m, rank, x, leaf, front) <= |Elems(m, rank, x)|
          && Elems(m', rank', x') == Elems(m, rank, x)[..Landing(m, rank, x, leaf, front)] + Elems(m, rank, nl)
                                       + Elems(m, rank, x)[Landing(m, rank, x, leaf, front)..])
    && (!Under(m, rank, x, leaf) ==> Elems(m', rank', x') == Elems(m, rank, x))
  }

  /** One step of `Under`, `Offset`, `Size` and `Elems` at an old branch `x`, before and after
      the splice. */
  ghost predicate Unfolded<T>(m: Arena<T>, rank: Ranks, m': Arena<T>, leaf: nat, nl: nat, pid: nat, x: nat)
    requires Shaped(m, rank) && x in m && leaf in m && nl in m && leaf in rank
    requires Shaped(m', SplicedRanks(rank, leaf, nl, pid))
    reads Bufs(m), Bufs(m')
  {
    var rank' := SplicedRanks(rank, leaf, nl, pid);
    && m[x].Branch? && NodeShaped(m, rank, x) && x != leaf && x in m'
    && var l, r := m[x].left.id, m[x].right.id;
    && Repl(l, leaf, pid) in m' && Repl(r, leaf, pid) in m'
    && (Under(m, rank, x, leaf) <==> Under(m, rank, l, leaf) || Under(m, rank, r, leaf))
    && !(Under(m, rank, l, leaf) && Under(m, rank, r, leaf))
    && (Under(m, rank, l, leaf) ==> OffsetIn(m, rank, x, leaf) == OffsetIn(m, rank, l, leaf))
    && (Under(m, rank, r, leaf) ==> OffsetIn(m, rank, x, leaf) == Size(m, rank, l) + OffsetIn(m, rank, r, leaf))
    && Size(m, rank, x) == Size(m, rank, l) + Size(m, rank, r)
    && Elems(m, rank, x) == Elems(m, rank, l) + Elems(m, rank, r)
    && (Under(m', rank', x, pid) <==> Under(m', rank', Repl(l, leaf, pid), pid) || Under(m', rank', Repl(r, leaf, pid), pid))
    && Size(m', rank', x) == Size(m', rank', Repl(l, leaf, pid)) + Size(m', rank', Repl(r, leaf, pid))
    && Elems(m', rank', x) == Elems(m', rank', Repl(l, leaf, pid)) + Elems(m', rank', Repl(r, leaf, pid))
  }

  lemma FrameAtLeaf<T>(m: Arena<T>, rank: Ranks, m': Arena<T>, root: nat, leaf: nat, nl: nat, pid: nat, front: bool)
    requires Ready(m, rank, root, leaf, nl, pid) && IsSplice(m, rank, m', leaf, nl, pid, front)
    requires Shaped(m', SplicedRanks(rank, leaf, nl, pid))
    ensures FrameAt(m, rank, m', leaf, nl, pid, front, leaf)
  {
    ReadyFacts(m, rank, root, leaf, nl, pid);
    var rank' := SplicedRanks(rank, leaf, nl, pid);
    SizeIsLength(m, rank, leaf);
    assert NodeShaped(m', rank', pid);
    assert NodeShaped(m', rank', leaf);
    assert NodeShaped(m', rank', nl);
    assert m'[leaf].value.buf in Bufs(m');
    assert m'[nl].value.buf in Bufs(m');
    assert Elems(m', rank', leaf) == Elems(m, rank, leaf);
    assert Elems(m', rank', nl) == Elems(m, rank, nl);
    var e := Elems(m, rank, leaf);
    if front {
      assert e[..0] == [] && e[0..] == e;
    } else {
      assert e[..|e|] == e && e[|e|..] == [];
    }
  }

  lemma FrameAtOtherLeaf<T>(m: Arena<T>, rank: Ranks, m': Arena<T>, root: nat, leaf: nat, nl: nat, pid: nat, front: bool, x: nat)
    requires Ready(m, rank, root, leaf, nl, pid) && IsSplice(m, rank, m', leaf, nl, pid, front)
    requires Shaped(m', SplicedRanks(rank, leaf, nl, pid))
    requires x in m && m[x].Leaf? && x != leaf
    ensures FrameAt(m, rank, m', leaf, nl, pid, front, x)
  {
    ReadyFacts(m, rank, root, leaf, nl, pid);
    var rank' := SplicedRanks(rank, leaf, nl, pid);
    SplicedLeaf(m, rank, m', root, leaf, nl, pid, front, x);
    assert NodeShaped(m, rank, x);
    assert NodeShaped(m', rank', x);
    assert m'[x].value.buf in Bufs(m');
  }

  lemma UnfoldBranch<T>(m: Arena<T>, rank: Ranks, m': Arena<T>, root: nat, leaf: nat, nl: nat, pid: nat, front: bool, x: nat)
    requires Ready(m, rank, root, leaf, nl, pid) && IsSplice(m, rank, m', leaf, nl, pid, front)
    requires Shaped(m', SplicedRanks(rank, leaf, nl, pid))
    requires x in m && m[x].Branch?
    ensures leaf in rank && Unfolded(m, rank, m', leaf, nl, pid, x)
  {
    ReadyFacts(m, rank, root, leaf, nl, pid);
    SplicedChildren(m, rank, m', root, leaf, nl, pid, front, x);
    ChildrenDisjoint(m, rank, x, leaf);
    assert NodeShaped(m', SplicedRanks(rank, leaf, nl, pid), x);
  }

  /** Splicing into the left part of a concatenation. */
  lemma SpliceLeftPart<T>(el: seq<T>, er: seq<T>, n: seq<T>, o: nat)
    requires o <= |el|
    ensures (el[..o] + n + el[o..]) + er == (el + er)[..o] + n + (el + er)[o..]
  {
    assert (el + er)[..o] == el[..o];
    assert (el + er)[o..] == el[o..] + er;
  }

  /** Splicing into the right part of a concatenation. */
  lemma SpliceRightPart<T>(el: seq<T>, er: seq<T>, n: seq<T>, o: nat)
    requires o <= |er|
    ensures el + (er[..o] + n + er[o..]) == (el + er)[..|el| + o] + n + (el + er)[|el| + o..]
  {
    assert (el + er)[..|el| + o] == el + er[..o];
    assert (el + er)[|el| + o..] == er[o..];
  }

  lemma FrameAtBranch<T>(m: Arena<T>, rank: Ranks, m': Arena<T>, leaf: nat, nl: nat, pid: nat, front: bool, x: nat)
    requires Shaped(m, rank) && x in m && leaf in m && nl in m && leaf in rank
    requires Shaped(m', SplicedRanks(rank, leaf, nl, pid))
    requires Unfolded(m, rank, m', leaf, nl, pid, x)
    requires FrameAt(m, rank, m', leaf, nl, pid, front, m[x].left.id)
    requires FrameAt(m, rank, m', leaf, nl, pid, front, m[x].right.id)
    ensures FrameAt(m, rank, m', leaf, nl, pid, front, x)
  {
    if Under(m, rank, m[x].left.id, leaf) {
      FrameLeft(m, rank, m', leaf, nl, pid, front, x);
    } else if Under(m, rank, m[x].right.id, leaf) {
      FrameRight(m, rank, m', leaf, nl, pid, front, x);
    } else {
      FrameNeither(m, rank, m', leaf, nl, pid, front, x);
    }
  }

  lemma FrameNeither<T>(m: Arena<T>, rank: Ranks, m': Arena<T>, leaf: nat, nl: nat, pid: nat, front: bool, x: nat)
    requires Shaped(m, rank) && x in m && leaf in m && nl in m && leaf in rank
    requires Shaped(m', SplicedRanks(rank, leaf, nl, pid))
    requires Unfolded(m, rank, m', leaf, nl, pid, x)
    requires FrameAt(m, rank, m', leaf, nl, pid, front, m[x].left.id)
    requires FrameAt(m, rank, m', leaf, nl, pid, front, m[x].right.id)
    requires !Under(m, rank, m[x].left.id, leaf) && !Under(m, rank, m[x].right.id, leaf)
    ensures FrameAt(m, rank, m', leaf, nl, pid, front, x)
  {
  }

  lemma FrameLeft<T>(m: Arena<T>, rank: Ranks, m': Arena<T>, leaf: nat, nl: nat, pid: nat, front: bool, x: nat)
    requires Shaped(m, rank) && x in m && leaf in m && nl in m && leaf in rank
    requires Shaped(m', SplicedRanks(rank, leaf, nl, pid))
    requires Unfolded(m, rank, m', leaf, nl, pid, x)
    requires FrameAt(m, rank, m', leaf, nl, pid, front, m[x].left.id)
    requires FrameAt(m, rank, m', leaf, nl, pid, front, m[x].right.id)
    requires Under(m, rank, m[x].left.id, leaf)
    ensures FrameAt(m, rank, m', leaf, nl, pid, front, x)
  {
    var rank' := SplicedRanks(rank, leaf, nl, pid);
    var l, r := m[x].left.id, m[x].right.id;
    var el, er, en := Elems(m, rank, l), Elems(m, rank, r), Elems(m, rank, nl);
    var o := Landing(m, rank, l, leaf, front);
    assert !Under(m, rank, r, leaf) && Under(m, rank, x, leaf);
    SpliceLeftPart(el, er, en, o);
    assert Landing(m, rank, x, leaf, front) == o;
    assert Elems(m', rank', x) == (el[..o] + en + el[o..]) + er;
  }

  lemma FrameRight<T>(m: Arena<T>, rank: Ranks, m': Arena<T>, leaf: nat, nl: nat, pid: nat, front: bool, x: nat)
    requires Shaped(m, rank) && x in m && leaf in m && nl in m && leaf in rank
    requires Shaped(m', SplicedRanks(rank, leaf, nl, pid))
    requires Unfolded(m, rank, m', leaf, nl, pid, x)
    requires FrameAt(m, rank, m', leaf, nl, pid, front, m[x].left.id)
    requires FrameAt(m, rank, m', leaf, nl, pid, front, m[x].right.id)
    requires Under(m, rank, m[x].right.id, leaf)
    ensures FrameAt(m, rank, m', leaf, nl, pid, front, x)
  {
    var rank' := SplicedRanks(rank, leaf, nl, pid);
    var l, r := m[x].left.id, m[x].right.id;
    var el, er, en := Elems(m, rank, l), Elems(m, rank, r), Elems(m, rank, nl);
    var o := Landing(m, rank, r, leaf, front);
    assert !Under(m, rank, l, leaf) && Under(m, rank, x, leaf);
    SizeIsLength(m, rank, l);
    SpliceRightPart(el, er, en, o);
    assert Landing(m, rank, x, leaf, front) == |el| + o;
    assert Elems(m', rank', x) == el + (er[..o] + en + er[o..]);
  }

  /** Every old node satisfies the frame of the splice. */
  lemma {:induction false} SplicedFrame<T>(m: Arena<T>, rank: Ranks, m': Arena<T>, root: nat, leaf: nat, nl: nat, pid: nat, front: bool, x: nat)
    requires Ready(m, rank, root, leaf, nl, pid) && IsSplice(m, rank, m', leaf, nl, pid, front) && x in m
    ensures Shaped(m', SplicedRanks(rank, leaf, nl, pid))
    ensures FrameAt(m, rank, m', leaf, nl, pid, front, x)
    decreases rank[x]
  {
    ReadyFacts(m, rank, root, leaf, nl, pid);
    SplicedShaped(m, rank, m', root, leaf, nl, pid, front);
    assert NodeShaped(m, rank, x);
    if x == leaf {
      FrameAtLeaf(m, rank, m', root, leaf, nl, pid, front);
    } else if m[x].Leaf? {
      FrameAtOtherLeaf(m, rank, m', root, leaf, nl, pid, front, x);
    } else {
      SplicedFrame(m, rank, m', root, leaf, nl, pid, front, m[x].left.id);
      SplicedFrame(m, rank, m', root, leaf, nl, pid, front, m[x].right.id);
      UnfoldBranch(m, rank, m', root, leaf, nl, pid, front, x);
      FrameAtBranch(m, rank, m', leaf, nl, pid, front, x);
    }
  }

  // ---------------------------------------------------------------------------------------
  // The pointer surgery, step by step

  /** `_replace_node(now, was)`: when `was` is the root, no node changes (only the root
      pointer moves to `now`); otherwise `now` takes `was`'s parent and that parent's slot that
      held `was` now points to `now`. Every other node, `was` included, is unchanged. */
  function Replaced<T>(m: Arena<T>, root: nat, now: nat, was: nat): (r: Arena<T>)
    requires was in m && now in m
    requires was != root ==> m[was].p.To? && m[was].p.id in m && m[m[was].p.id].Branch?
    ensures r.Keys == m.Keys
    ensures was == root ==> r == m
    ensures was != root && now != m[was].p.id ==>
      && r[now] == m[now].WithParent(m[was].p)
      && r[m[was].p.id] == Relink(m[m[was].p.id], was, now)
    ensures was != root ==> forall x :: x in m && x != now && x != m[was].p.id ==> r[x] == m[x]
  {
    if was == root then m
    else
      var q := m[was].p;
      var m1 := m[now := m[now].WithParent(q)];
      m1[q.id := Relink(m1[q.id], was, now)]
  }

  /** The children's side of the splice: `leaf` and `nl` point up to `pid`, which points
      down to them, `nl` first when `front` holds. */
  function WireUp<T>(m: Arena<T>, leaf: nat, nl: nat, pid: nat, front: bool): (w: Arena<T>)
    requires leaf in m && nl in m && pid in m && m[pid].Branch?
    ensures w.Keys == m.Keys && w[pid].Branch?
  {
    var m2 := m[leaf := m[leaf].WithParent(To(pid))];
    var m3 := m2[nl := m2[nl].WithParent(To(pid))];
    if front then
      var m4 := m3[pid := m3[pid].WithLeft(To(nl))];
      m4[pid := m4[pid].WithRight(To(leaf))]
    else
      var m4 := m3[pid := m3[pid].WithLeft(To(leaf))];
      m4[pid := m4[pid].WithRight(To(nl))]
  }

  /** The arena after `_insert_node` has built the new branch `pid` in `leaf`'s place, made it
      the parent of both leaves and set its two children, before any count is renewed. */
  function Wired<T>(m: Arena<T>, root: nat, leaf: nat, nl: nat, pid: nat, front: bool): (w: Arena<T>)
    requires leaf in m && nl in m && pid !in m
    requires leaf != root ==> m[leaf].p.To? && m[leaf].p.id in m && m[m[leaf].p.id].Branch?
    ensures w.Keys == m.Keys + {pid} && w[pid].Branch?
  {
    WireUp(Replaced(m[pid := NewBranch()], root, pid, leaf), leaf, nl, pid, front)
  }

  /** The count `renew_count` gives the new branch first. */
  ghost function Recounted<T>(m: Arena<T>, rank: Ranks, w: Arena<T>, leaf: nat, nl: nat, pid: nat): Arena<T>
    requires Shaped(m, rank) && leaf in m && nl in m && pid in w && w[pid].Branch?
  {
    w[pid := w[pid].WithCount(Count(m, rank, leaf) + Count(m, rank, nl))]
  }

  /** What the surgery leaves in each slot of the arena. */
  lemma WiredAt<T>(m: Arena<T>, root: nat, leaf: nat, nl: nat, pid: nat, front: bool)
    requires leaf in m && nl in m && pid !in m && leaf != nl && m[leaf].Leaf? && m[nl].Leaf?
    requires leaf != root ==> m[leaf].p.To? && m[leaf].p.id in m && m[m[leaf].p.id].Branch?
    requires leaf == root ==> m[leaf].p == Null
    ensures var w := Wired(m, root, leaf, nl, pid, front);
      && w[pid] == Branch(m[leaf].p, 0, if front then To(nl) else To(leaf), if front then To(leaf) else To(nl), 0)
      && w[leaf] == Leaf(To(pid), m[leaf].value)
      && w[nl] == Leaf(To(pid), m[nl].value)
      && (leaf != root ==> w[m[leaf].p.id] == Relink(m[m[leaf].p.id], leaf, pid))
      && (forall x :: x in m && x != leaf && x != nl && m[leaf].p != To(x) ==> w[x] == m[x])
  {
    var m0 := m[pid := NewBranch()];
    var m1 := Replaced(m0, root, pid, leaf);
    if leaf != root {
      var q := m[leaf].p.id;
      assert m1[pid] == NewBranch().WithParent(m[leaf].p);
      assert m1[q] == Relink(m[q], leaf, pid);
    }
  }

  /** An arena with the slots `WiredAt` describes is the splice, once the new branch's own
      count is set; setting it changes only a count. */
  lemma RecountedIsSplice<T>(m: Arena<T>, rank: Ranks, w: Arena<T>, leaf: nat, nl: nat, pid: nat, front: bool)
    requires Shaped(m, rank) && leaf in m && nl in m && m[leaf].Leaf? && m[nl].Leaf? && pid !in m
    requires w.Keys == m.Keys + {pid}
    requires w[pid] == Branch(m[leaf].p, 0, if front then To(nl) else To(leaf), if front then To(leaf) else To(nl), 0)
    requires w[leaf] == Leaf(To(pid), m[leaf].value) && w[nl] == Leaf(To(pid), m[nl].value)
    requires m[leaf].p.To? ==> m[leaf].p.id in m && m[m[leaf].p.id].Branch? && w[m[leaf].p.id] == Relink(m[m[leaf].p.id], leaf, pid)
    requires forall x :: x in m && x != leaf && x != nl && m[leaf].p != To(x) ==> w[x] == m[x]
    ensures IsSplice(m, rank, Recounted(m, rank, w, leaf, nl, pid), leaf, nl, pid, front)
    ensures SameShape(Recounted(m, rank, w, leaf, nl, pid), w)
  {
    var r := Recounted(m, rank, w, leaf, nl, pid);
    RecountOne(w, pid, Count(m, rank, leaf) + Count(m, rank, nl));
    SameShapeSym(w, r);
  }

  /** The surgery is the splice, once the new branch's own count is set; setting it changes
      only a count. */
  lemma WiredIsSplice<T>(m: Arena<T>, rank: Ranks, root: nat, leaf: nat, nl: nat, pid: nat, front: bool)
    requires Ready(m, rank, root, leaf, nl, pid)
    ensures leaf != root ==> m[leaf].p.To? && m[leaf].p.id in m && m[m[leaf].p.id].Branch?
    ensures var w := Wired(m, root, leaf, nl, pid, front);
      && IsSplice(m, rank, Recounted(m, rank, w, leaf, nl, pid), leaf, nl, pid, front)
      && SameShape(Recounted(m, rank, w, leaf, nl, pid), w)
  {
    ReadyFacts(m, rank, root, leaf, nl, pid);
    WiredAt(m, root, leaf, nl, pid, front);
    RecountedIsSplice(m, rank, Wired(m, root, leaf, nl, pid, front), leaf, nl, pid, front);
  }

  /** After the splice, a branch that is not above the new branch caches its exact size. */
  lemma SplicedCountsOffPath<T>(m: Arena<T>, rank: Ranks, m': Arena<T>, root: nat, leaf: nat, nl: nat, pid: nat, front: bool, b: nat)
    requires Ready(m, rank, root, leaf, nl, pid) && IsSplice(m, rank, m', leaf, nl, pid, front)
    requires CountsExact(m, rank)
    requires Shaped(m', SplicedRanks(rank, leaf, nl, pid))
    requires b in m' && m'[b].Branch? && !Under(m', SplicedRanks(rank, leaf, nl, pid), b, pid)
    ensures m'[b].elemCount == Size(m', SplicedRanks(rank, leaf, nl, pid), b)
  {
    assert b != pid;
    SplicedLeaf(m, rank, m', root, leaf, nl, pid, front, b);
    SplicedChildren(m, rank, m', root, leaf, nl, pid, front, b);
    var l, r := m[b].left.id, m[b].right.id;
    CountIsSize(m, rank, l);
    CountIsSize(m, rank, r);
    SplicedFrame(m, rank, m', root, leaf, nl, pid, front, b);
  }

  /** A branch of the wired arena that is not above the new branch caches its exact size. */
  lemma WiredOffPath<T>(m: Arena<T>, rank: Ranks, root: nat, leaf: nat, nl: nat, pid: nat, front: bool, b: nat)
    requires Ready(m, rank, root, leaf, nl, pid) && CountsExact(m, rank)
    requires Shaped(Wired(m, root, leaf, nl, pid, front), SplicedRanks(rank, leaf, nl, pid))
    requires var w := Wired(m, root, leaf, nl, pid, front);
      b in w && w[b].Branch? && !Under(w, SplicedRanks(rank, leaf, nl, pid), b, pid)
    ensures var w := Wired(m, root, leaf, nl, pid, front);
      w[b].elemCount == Size(w, SplicedRanks(rank, leaf, nl, pid), b)
  {
    WiredIsSplice(m, rank, root, leaf, nl, pid, front);
    var w, rank' := Wired(m, root, leaf, nl, pid, front), SplicedRanks(rank, leaf, nl, pid);
    var m' := Recounted(m, rank, w, leaf, nl, pid);
    SplicedShaped(m, rank, m', root, leaf, nl, pid, front);
    RecountFrame(m', w, rank', b);
    SplicedCountsOffPath(m, rank, m', root, leaf, nl, pid, front, b);
  }

  /** The wired arena is linked, with the new branch below the root. */
  lemma WiredLinked<T>(m: Arena<T>, rank: Ranks, root: nat, leaf: nat, nl: nat, pid: nat, front: bool)
    requires Ready(m, rank, root, leaf, nl, pid)
    ensures var w, rank', root' := Wired(m, root, leaf, nl, pid, front), SplicedRanks(rank, leaf, nl, pid), Repl(root, leaf, pid);
      && Linked(w, rank') && root' in w && w[root'].p == Null && Under(w, rank', root', pid)
  {
    WiredIsSplice(m, rank, root, leaf, nl, pid, front);
    var w, rank', root' := Wired(m, root, leaf, nl, pid, front), SplicedRanks(rank, leaf, nl, pid), Repl(root, leaf, pid);
    var m' := Recounted(m, rank, w, leaf, nl, pid);
    SplicedLinked(m, rank, m', root, leaf, nl, pid, front);
    SplicedFrame(m, rank, m', root, leaf, nl, pid, front, root);
    RecountLinked(m', w, rank');
    RecountFrame(m', w, rank', root');
  }

  /** The spliced arena holds the old elements with the new leaf's spliced in. */
  lemma SplicedElems<T>(m: Arena<T>, rank: Ranks, m': Arena<T>, root: nat, leaf: nat, nl: nat, pid: nat, front: bool)
    requires Ready(m, rank, root, leaf, nl, pid) && IsSplice(m, rank, m', leaf, nl, pid, front)
    ensures Shaped(m', SplicedRanks(rank, leaf, nl, pid)) && Repl(root, leaf, pid) in m'
    ensures var e, o := Elems(m, rank, root), OffsetIn(m, rank, root, leaf) + (if front then 0 else Size(m, rank, leaf));
      o <= |e| && Elems(m', SplicedRanks(rank, leaf, nl, pid), Repl(root, leaf, pid)) == e[..o] + Elems(m, rank, nl) + e[o..]
  {
    SplicedFrame(m, rank, m', root, leaf, nl, pid, front, root);
  }

  /** The wired arena holds the old elements with the new leaf's spliced in. */
  lemma WiredElems<T>(m: Arena<T>, rank: Ranks, root: nat, leaf: nat, nl: nat, pid: nat, front: bool)
    requires Ready(m, rank, root, leaf, nl, pid)
    ensures Shaped(Wired(m, root, leaf, nl, pid, front), SplicedRanks(rank, leaf, nl, pid))
    ensures Repl(root, leaf, pid) in Wired(m, root, leaf, nl, pid, front)
    ensures Shaped(Recounted(m, rank, Wired(m, root, leaf, nl, pid, front), leaf, nl, pid), SplicedRanks(rank, leaf, nl, pid))
    ensures Elems(Wired(m, root, leaf, nl, pid, front), SplicedRanks(rank, leaf, nl, pid), Repl(root, leaf, pid))
         == Elems(Recounted(m, rank, Wired(m, root, leaf, nl, pid, front), leaf, nl, pid), SplicedRanks(rank, leaf, nl, pid), Repl(root, leaf, pid))
  {
    WiredIsSplice(m, rank, root, leaf, nl, pid, front);
    var w, rank', root' := Wired(m, root, leaf, nl, pid, front), SplicedRanks(rank, leaf, nl, pid), Repl(root, leaf, pid);
    var m' := Recounted(m, rank, w, leaf, nl, pid);
    SplicedShaped(m, rank, m', root, leaf, nl, pid, front);
    RecountLinked(m', w, rank');
    RecountFrame(m', w, rank', root');
  }

  /** What `_insert_node` relies on before it renews the counts: after the surgery the tree is
      linked again, the new branch hangs below the root, every branch off the path from the new
      branch up to the root is still exact, and the elements are those of the old tree with the
      new leaf's elements spliced in at the leaf's offset (plus its length when the new leaf
      goes behind it). */
  lemma WiredReady<T>(m: Arena<T>, rank: Ranks, root: nat, leaf: nat, nl: nat, pid: nat, front: bool)
    requires Ready(m, rank, root, leaf, nl, pid) && CountsExact(m, rank)
    ensures var w, rank', root' := Wired(m, root, leaf, nl, pid, front), SplicedRanks(rank, leaf, nl, pid), Repl(root, leaf, pid);
      && Linked(w, rank') && root' in w && w[root'].p == Null
      && Under(w, rank', root', pid) && ExactOffPath(w, rank', pid)
      && var e, o := Elems(m, rank, root), OffsetIn(m, rank, root, leaf) + (if front then 0 else Size(m, rank, leaf));
         o <= |e| && Elems(w, rank', root') == e[..o] + Elems(m, rank, nl) + e[o..]
  {
    WiredLinked(m, rank, root, leaf, nl, pid, front);
    WiredElems(m, rank, root, leaf, nl, pid, front);
    WiredIsSplice(m, rank, root, leaf, nl, pid, front);
    SplicedElems(m, rank, Recounted(m, rank, Wired(m, root, leaf, nl, pid, front), leaf, nl, pid), root, leaf, nl, pid, front);
    var w, rank' := Wired(m, root, leaf, nl, pid, front), SplicedRanks(rank, leaf, nl, pid);
    forall b | b in w && w[b].Branch? && !Under(w, rank', b, pid)
      ensures w[b].elemCount == Size(w, rank', b)
    {
      WiredOffPath(m, rank, root, leaf, nl, pid, front, b);
    }
  }
}
