/** The tree as the arena of nodes sees it: which nodes hang below which, how many elements
    a subtree holds, the in-order element sequence, the descent by cached counts, and the two
    traversal orders. Everything here is a function of the arena's value. */
module TreeShape {
  import opened DSlice
  import opened DNodeBase

  /** The nodes, by id. */
  type Arena<T> = map<nat, Node<T>>

  /** A rank per node: a branch ranks above its children, which makes every descent finite. */
  type Ranks = map<nat, nat>

  ghost predicate NodeShaped<T>(m: Arena<T>, rank: Ranks, x: nat)
    requires x in m && x in rank
  {
    match m[x]
    case Leaf(_, s) => s.Readable()
    case Branch(_, _, l, r, _) =>
      && l.To? && r.To? && l != r
      && l.id in m && r.id in m && l.id in rank && r.id in rank
      && rank[l.id] < rank[x] && rank[r.id] < rank[x]
  }

  /** Every branch has two distinct children in the arena, ranked below it, and every leaf's
      window lies inside its buffer. */
  ghost predicate Shaped<T>(m: Arena<T>, rank: Ranks) {
    && (forall x :: x in m ==> x in rank)
    && (forall x {:trigger NodeShaped(m, rank, x)} :: x in m && x in rank ==> NodeShaped(m, rank, x))
  }

  /** `y` is one of the two children of the branch `q`. */
  ghost predicate IsChildOf<T>(m: Arena<T>, y: nat, q: nat) {
    q in m && m[q].Branch? && (m[q].left == To(y) || m[q].right == To(y))
  }

  /** Parent pointers are the exact inverse of the child pointers. */
  ghost predicate ParentsExact<T>(m: Arena<T>, rank: Ranks)
    requires Shaped(m, rank)
  {
    && (forall x :: x in m && m[x].Branch? ==>
          NodeShaped(m, rank, x) && m[m[x].left.id].p == To(x) && m[m[x].right.id].p == To(x))
    && (forall y :: y in m && m[y].p.To? ==> IsChildOf(m, y, m[y].p.id))
  }

  ghost predicate Linked<T>(m: Arena<T>, rank: Ranks) {
    Shaped(m, rank) && ParentsExact(m, rank)
  }

  /** The node's own `count()`. */
  ghost function Count<T>(m: Arena<T>, rank: Ranks, x: nat): nat
    requires Shaped(m, rank) && x in m
  {
    assert NodeShaped(m, rank, x);
    m[x].Count()
  }

  /** Every branch caches the sum of its children's counts. */
  ghost predicate CountsExact<T>(m: Arena<T>, rank: Ranks)
    requires Shaped(m, rank)
  {
    forall x :: x in m && m[x].Branch? ==>
      NodeShaped(m, rank, x) &&
      m[x].elemCount == Count(m, rank, m[x].left.id) + Count(m, rank, m[x].right.id)
  }

  /** The number of elements below `x`, recomputed from the leaves. */
  ghost function Size<T>(m: Arena<T>, rank: Ranks, x: nat): nat
    requires Shaped(m, rank) && x in m
    decreases rank[x]
  {
    assert NodeShaped(m, rank, x);
    match m[x]
    case Leaf(_, s) => s.Size()
    case Branch(_, _, l, r, _) => Size(m, rank, l.id) + Size(m, rank, r.id)
  }

  /** The buffers the leaves of the arena look into. */
  ghost function Bufs<T>(m: Arena<T>): set<array<T>> {
    set x | x in m && m[x].Leaf? :: m[x].value.buf
  }

  /** The in-order concatenation of the leaf windows below `x`. */
  ghost function Elems<T>(m: Arena<T>, rank: Ranks, x: nat): seq<T>
    requires Shaped(m, rank) && x in m
    reads set y | y in m && m[y].Leaf? :: m[y].value.buf
    decreases rank[x]
  {
    assert NodeShaped(m, rank, x);
    match m[x]
    case Leaf(_, s) =>
      assert s.buf in Bufs(m);
      s.Contents()
    case Branch(_, _, l, r, _) => Elems(m, rank, l.id) + Elems(m, rank, r.id)
  }

  /** `y` lies in the subtree rooted at `x` (possibly `x` itself). */
  ghost predicate Under<T>(m: Arena<T>, rank: Ranks, x: nat, y: nat)
    requires Shaped(m, rank) && x in m
    decreases rank[x]
  {
    assert NodeShaped(m, rank, x);
    x == y ||
    (m[x].Branch? && (Under(m, rank, m[x].left.id, y) || Under(m, rank, m[x].right.id, y)))
  }

  /** Where the elements of `y` start inside the elements of its ancestor `x`. */
  ghost function OffsetIn<T>(m: Arena<T>, rank: Ranks, x: nat, y: nat): nat
    requires Shaped(m, rank) && x in m && Under(m, rank, x, y)
    decreases rank[x]
  {
    assert NodeShaped(m, rank, x);
    if x == y then 0
    else if Under(m, rank, m[x].left.id, y) then OffsetIn(m, rank, m[x].left.id, y)
    else Size(m, rank, m[x].left.id) + OffsetIn(m, rank, m[x].right.id, y)
  }

  /** The descent `_access_node` performs: at a branch go left when the index is below the
      left child's cached count, otherwise subtract that count and go right. */
  ghost function Locate<T>(m: Arena<T>, rank: Ranks, x: nat, i: nat): (r: (nat, nat))
    requires Shaped(m, rank) && x in m
    ensures r.0 in m && m[r.0].Leaf?
    decreases rank[x]
  {
    assert NodeShaped(m, rank, x);
    match m[x]
    case Leaf(_, _) => (x, i)
    case Branch(_, _, l, r, _) =>
      if i < Count(m, rank, l.id) then Locate(m, rank, l.id, i)
      else Locate(m, rank, r.id, i - Count(m, rank, l.id))
  }

  // ---------------------------------------------------------------------------------------
  // Sizes and counts

  lemma {:induction false} SizeIsLength<T>(m: Arena<T>, rank: Ranks, x: nat)
    requires Shaped(m, rank) && x in m
    ensures |Elems(m, rank, x)| == Size(m, rank, x)
    decreases rank[x]
  {
    assert NodeShaped(m, rank, x);
    if m[x].Branch? {
      SizeIsLength(m, rank, m[x].left.id);
      SizeIsLength(m, rank, m[x].right.id);
    }
  }

  /** With exact caches, every node's `count()` is the number of elements below it. */
  lemma {:induction false} CountIsSize<T>(m: Arena<T>, rank: Ranks, x: nat)
    requires Shaped(m, rank) && CountsExact(m, rank) && x in m
    ensures Count(m, rank, x) == Size(m, rank, x)
    decreases rank[x]
  {
    assert NodeShaped(m, rank, x);
    if m[x].Branch? {
      CountIsSize(m, rank, m[x].left.id);
      CountIsSize(m, rank, m[x].right.id);
    }
  }

  /** Conversely, if every branch caches the size of its subtree, the caches are exact. */
  lemma CachesOfSizesAreExact<T>(m: Arena<T>, rank: Ranks)
    requires Shaped(m, rank)
    requires forall x :: x in m && m[x].Branch? ==> m[x].elemCount == Size(m, rank, x)
    ensures CountsExact(m, rank)
  {
    forall x | x in m && m[x].Branch?
      ensures NodeShaped(m, rank, x)
      ensures m[x].elemCount == Count(m, rank, m[x].left.id) + Count(m, rank, m[x].right.id)
    {
      assert NodeShaped(m, rank, x);
      var l, r := m[x].left.id, m[x].right.id;
      assert Count(m, rank, l) == Size(m, rank, l);
      assert Count(m, rank, r) == Size(m, rank, r);
    }
  }

  // ---------------------------------------------------------------------------------------
  // The subtree relation

  lemma {:induction false} UnderRank<T>(m: Arena<T>, rank: Ranks, x: nat, y: nat)
    requires Shaped(m, rank) && x in m && Under(m, rank, x, y)
    ensures y in m && y in rank && rank[y] <= rank[x]
    ensures x != y ==> rank[y] < rank[x]
    decreases rank[x]
  {
    assert NodeShaped(m, rank, x);
    if x != y {
      if Under(m, rank, m[x].left.id, y) {
        UnderRank(m, rank, m[x].left.id, y);
      } else {
        UnderRank(m, rank, m[x].right.id, y);
      }
    }
  }

  lemma {:induction false} UnderTrans<T>(m: Arena<T>, rank: Ranks, x: nat, y: nat, z: nat)
    requires Shaped(m, rank) && x in m && Under(m, rank, x, y)
    requires y in m && Under(m, rank, y, z)
    ensures Under(m, rank, x, z)
    decreases rank[x]
  {
    assert NodeShaped(m, rank, x);
    if x != y {
      if Under(m, rank, m[x].left.id, y) {
        UnderTrans(m, rank, m[x].left.id, y, z);
      } else {
        UnderTrans(m, rank, m[x].right.id, y, z);
      }
    }
  }

  /** The parent of a node strictly below `x` is also below `x`. */
  lemma {:induction false} UnderParent<T>(m: Arena<T>, rank: Ranks, x: nat, y: nat)
    requires Linked(m, rank) && x in m && Under(m, rank, x, y) && x != y
    ensures y in m && m[y].p.To? && IsChildOf(m, y, m[y].p.id)
    ensures Under(m, rank, x, m[y].p.id)
    decreases rank[x]
  {
    assert NodeShaped(m, rank, x);
    var l, r := m[x].left.id, m[x].right.id;
    var c := if Under(m, rank, l, y) then l else r;
    if c == y {
      assert m[y].p == To(x);
    } else {
      UnderParent(m, rank, c, y);
    }
  }

  /** The ancestors of a node form a chain. */
  lemma {:induction false} AncestorsOrdered<T>(m: Arena<T>, rank: Ranks, a: nat, b: nat, y: nat)
    requires Linked(m, rank) && a in m && b in m
    requires Under(m, rank, a, y) && Under(m, rank, b, y)
    ensures Under(m, rank, a, b) || Under(m, rank, b, a)
    decreases if y in rank then rank[a] as int - rank[y] as int else 0
  {
    UnderRank(m, rank, a, y);
    UnderRank(m, rank, b, y);
    if y != a && y != b {
      UnderParent(m, rank, a, y);
      UnderParent(m, rank, b, y);
      var q := m[y].p.id;
      assert NodeShaped(m, rank, q);
      UnderRank(m, rank, a, q);
      AncestorsOrdered(m, rank, a, b, q);
    }
  }

  /** The two subtrees of a branch share no node. */
  lemma ChildrenDisjoint<T>(m: Arena<T>, rank: Ranks, q: nat, y: nat)
    requires Linked(m, rank) && q in m && m[q].Branch?
    ensures NodeShaped(m, rank, q)
    ensures !(Under(m, rank, m[q].left.id, y) && Under(m, rank, m[q].right.id, y))
  {
    assert NodeShaped(m, rank, q);
    var l, r := m[q].left.id, m[q].right.id;
    if Under(m, rank, l, y) && Under(m, rank, r, y) {
      AncestorsOrdered(m, rank, l, r, y);
      if Under(m, rank, l, r) {
        UnderParent(m, rank, l, r);
        UnderRank(m, rank, l, q);
      } else {
        UnderParent(m, rank, r, l);
        UnderRank(m, rank, r, q);
      }
      assert false;
    }
  }

  /** Nothing lies strictly between a branch and one of its children on the way to a node
      below that child. */
  lemma BetweenChild<T>(m: Arena<T>, rank: Ranks, q: nat, c: nat, y: nat, z: nat)
    requires Linked(m, rank) && IsChildOf(m, c, q) && c in m && Under(m, rank, c, z)
    requires y in m && Under(m, rank, q, y) && Under(m, rank, y, z)
    ensures y == q || Under(m, rank, c, y)
  {
    AncestorsOrdered(m, rank, y, c, z);
    if y != q && !Under(m, rank, c, y) {
      assert NodeShaped(m, rank, q);
      var l, r := m[q].left.id, m[q].right.id;
      var s := if Under(m, rank, l, y) then l else r;
      if s != c {
        assert Under(m, rank, c, c);
        UnderTrans(m, rank, s, y, c);
        ChildrenDisjoint(m, rank, q, c);
      }
    }
  }

  // ---------------------------------------------------------------------------------------
  // Offsets

  lemma {:induction false} OffsetBound<T>(m: Arena<T>, rank: Ranks, x: nat, y: nat)
    requires Shaped(m, rank) && x in m && Under(m, rank, x, y)
    ensures y in m && OffsetIn(m, rank, x, y) + Size(m, rank, y) <= Size(m, rank, x)
    decreases rank[x]
  {
    assert NodeShaped(m, rank, x);
    UnderRank(m, rank, x, y);
    if x != y {
      if Under(m, rank, m[x].left.id, y) {
        OffsetBound(m, rank, m[x].left.id, y);
      } else {
        OffsetBound(m, rank, m[x].right.id, y);
      }
    }
  }

  /** Climbing from `y` to its parent: the offset grows by the left sibling's size exactly
      when `y` is a right child. */
  lemma {:induction false} OffsetUp<T>(m: Arena<T>, rank: Ranks, x: nat, y: nat)
    requires Linked(m, rank) && x in m && Under(m, rank, x, y) && x != y
    ensures y in m && m[y].p.To? && IsChildOf(m, y, m[y].p.id)
    ensures Under(m, rank, x, m[y].p.id) && NodeShaped(m, rank, m[y].p.id)
    ensures OffsetIn(m, rank, x, y) == OffsetIn(m, rank, x, m[y].p.id) +
              (if m[m[y].p.id].right == To(y) then Size(m, rank, m[m[y].p.id].left.id) else 0)
    decreases rank[x]
  {
    UnderParent(m, rank, x, y);
    var q := m[y].p.id;
    assert NodeShaped(m, rank, x);
    assert NodeShaped(m, rank, q);
    var l, r := m[x].left.id, m[x].right.id;
    ChildrenDisjoint(m, rank, x, y);
    if x == q {
      if m[q].right == To(y) {
        assert !Under(m, rank, l, y);
      }
    } else {
      var c := if Under(m, rank, l, y) then l else r;
      OffsetUp(m, rank, c, y);
      UnderTrans(m, rank, q, q, y);
      ChildrenDisjoint(m, rank, x, q);
      if c == r && Under(m, rank, l, q) {
        assert Under(m, rank, q, y);
        UnderTrans(m, rank, l, q, y);
        assert false;
      }
    }
  }

  /** Offsets add up along a chain of ancestors. */
  lemma {:induction false} OffsetTrans<T>(m: Arena<T>, rank: Ranks, x: nat, y: nat, z: nat)
    requires Linked(m, rank) && x in m && Under(m, rank, x, y)
    requires y in m && Under(m, rank, y, z)
    ensures Under(m, rank, x, z)
    ensures OffsetIn(m, rank, x, z) == OffsetIn(m, rank, x, y) + OffsetIn(m, rank, y, z)
    decreases rank[x]
  {
    UnderTrans(m, rank, x, y, z);
    UnderRank(m, rank, x, y);
    UnderRank(m, rank, y, z);
    assert NodeShaped(m, rank, x);
    if x != y {
      var l, r := m[x].left.id, m[x].right.id;
      ChildrenDisjoint(m, rank, x, z);
      if Under(m, rank, l, y) {
        OffsetTrans(m, rank, l, y, z);
      } else {
        OffsetTrans(m, rank, r, y, z);
      }
    }
  }

  /** Element `k` of a node below `x` sits at its offset inside `x`'s elements. */
  lemma {:induction false} ElemsAt<T>(m: Arena<T>, rank: Ranks, x: nat, y: nat, k: nat)
    requires Shaped(m, rank) && x in m && Under(m, rank, x, y)
    requires y in m && k < Size(m, rank, y)
    ensures OffsetIn(m, rank, x, y) + k < |Elems(m, rank, x)|
    ensures k < |Elems(m, rank, y)|
    ensures Elems(m, rank, x)[OffsetIn(m, rank, x, y) + k] == Elems(m, rank, y)[k]
    decreases rank[x]
  {
    assert NodeShaped(m, rank, x);
    OffsetBound(m, rank, x, y);
    SizeIsLength(m, rank, x);
    SizeIsLength(m, rank, y);
    if x != y {
      var l, r := m[x].left.id, m[x].right.id;
      SizeIsLength(m, rank, l);
      if Under(m, rank, l, y) {
        ElemsAt(m, rank, l, y, k);
      } else {
        ElemsAt(m, rank, r, y, k);
      }
    }
  }

  // ---------------------------------------------------------------------------------------
  // The descent

  /** `Locate(x, i)` for `i <= count` ends on a leaf below `x` whose offset plus the local
      index is `i`; the local index is at most the leaf's count, and strictly below it when
      `i` is below `x`'s count. */
  lemma {:induction false} LocateSpec<T>(m: Arena<T>, rank: Ranks, x: nat, i: nat)
    requires Linked(m, rank) && CountsExact(m, rank) && x in m && i <= Size(m, rank, x)
    ensures Locate(m, rank, x, i).0 in m && m[Locate(m, rank, x, i).0].Leaf?
    ensures Under(m, rank, x, Locate(m, rank, x, i).0)
    ensures OffsetIn(m, rank, x, Locate(m, rank, x, i).0) + Locate(m, rank, x, i).1 == i
    ensures Locate(m, rank, x, i).1 <= Size(m, rank, Locate(m, rank, x, i).0)
    ensures i < Size(m, rank, x) ==> Locate(m, rank, x, i).1 < Size(m, rank, Locate(m, rank, x, i).0)
    decreases rank[x]
  {
    assert NodeShaped(m, rank, x);
    if m[x].Branch? {
      var l, r := m[x].left.id, m[x].right.id;
      CountIsSize(m, rank, l);
      var leaf := Locate(m, rank, x, i).0;
      if i < Count(m, rank, l) {
        LocateSpec(m, rank, l, i);
      } else {
        LocateSpec(m, rank, r, i - Count(m, rank, l));
        ChildrenDisjoint(m, rank, x, leaf);
      }
    }
  }

  /** The leaf reached from `x` by following `right` links only. */
  ghost function Rightmost<T>(m: Arena<T>, rank: Ranks, x: nat): (y: nat)
    requires Shaped(m, rank) && x in m
    ensures y in m && m[y].Leaf?
    decreases rank[x]
  {
    assert NodeShaped(m, rank, x);
    match m[x]
    case Leaf(_, _) => x
    case Branch(_, _, _, r, _) => Rightmost(m, rank, r.id)
  }

  /** The first and the one-past-the-end positions always land on a leaf boundary; the
      one-past-the-end position lands on the rightmost leaf, at its own end, even when
      empty leaves end at the same place. */
  lemma {:induction false} LocateAtEnds<T>(m: Arena<T>, rank: Ranks, x: nat)
    requires Linked(m, rank) && CountsExact(m, rank) && x in m
    ensures Locate(m, rank, x, 0).1 == 0
    ensures var (leaf, k) := Locate(m, rank, x, Size(m, rank, x));
              leaf in m && k == Size(m, rank, leaf)
    ensures Locate(m, rank, x, Size(m, rank, x)) ==
              (Rightmost(m, rank, x), Size(m, rank, Rightmost(m, rank, x)))
    decreases rank[x]
  {
    LocateSpec(m, rank, x, 0);
    assert NodeShaped(m, rank, x);
    if m[x].Branch? {
      var l, r := m[x].left.id, m[x].right.id;
      CountIsSize(m, rank, l);
      LocateAtEnds(m, rank, r);
    }
  }

  /** Conversely, the descent finds every element where it is: element `k` of a leaf below `x`
      is found at that leaf, under index `k`. */
  lemma {:induction false} LocateUnique<T>(m: Arena<T>, rank: Ranks, x: nat, leaf: nat, k: nat)
    requires Linked(m, rank) && CountsExact(m, rank) && x in m && Under(m, rank, x, leaf)
    requires leaf in m && m[leaf].Leaf? && k < Size(m, rank, leaf)
    ensures Locate(m, rank, x, OffsetIn(m, rank, x, leaf) + k) == (leaf, k)
    decreases rank[x]
  {
    assert NodeShaped(m, rank, x);
    if x != leaf {
      var l, r := m[x].left.id, m[x].right.id;
      CountIsSize(m, rank, l);
      if Under(m, rank, l, leaf) {
        OffsetBound(m, rank, l, leaf);
        LocateUnique(m, rank, l, leaf, k);
      } else {
        LocateUnique(m, rank, r, leaf, k);
      }
    }
  }
}
