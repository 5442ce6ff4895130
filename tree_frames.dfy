/** Two ways the arena changes without disturbing what the tree holds: refreshing cached
    counts (the shape stays), and allocating a node nobody points to (the old nodes stay). */
module TreeFrames {
  import opened DSlice
  import opened DNodeBase
  import opened TreeShape

  // ---------------------------------------------------------------------------------------
  // Refreshed counts

  /** `m'` differs from `m` at most in the cached counts of its branches. */
  ghost predicate SameShape<T>(m: Arena<T>, m': Arena<T>) {
    m.Keys == m'.Keys && forall x :: x in m ==> m'[x].Skeleton() == m[x].Skeleton()
  }

  lemma SameShapeTrans<T>(m: Arena<T>, m': Arena<T>, m'': Arena<T>)
    requires SameShape(m, m') && SameShape(m', m'')
    ensures SameShape(m, m'')
  {
  }

  lemma SameShapeSym<T>(m: Arena<T>, m': Arena<T>)
    requires SameShape(m, m')
    ensures SameShape(m', m)
  {
  }

  /** Setting one branch's cached count keeps the shape. */
  lemma RecountOne<T>(m: Arena<T>, x: nat, c: nat)
    requires x in m && m[x].Branch?
    ensures SameShape(m, m[x := m[x].WithCount(c)])
  {
  }

  /** Counts are not part of the shape: a tree that was shaped and linked stays so, and it
      looks into the same buffers. */
  lemma RecountLinked<T>(m: Arena<T>, m': Arena<T>, rank: Ranks)
    requires Shaped(m, rank) && SameShape(m, m')
    ensures Shaped(m', rank) && Bufs(m') == Bufs(m)
    ensures Linked(m, rank) ==> Linked(m', rank)
  {
    forall x | x in m' && x in rank ensures NodeShaped(m', rank, x) {
      assert m'[x].Skeleton() == m[x].Skeleton();
      assert NodeShaped(m, rank, x);
    }
    forall b | b in Bufs(m) ensures b in Bufs(m') {
      var y :| y in m && m[y].Leaf? && m[y].value.buf == b;
      assert m'[y].Skeleton() == m[y].Skeleton();
    }
    forall b | b in Bufs(m') ensures b in Bufs(m) {
      var y :| y in m' && m'[y].Leaf? && m'[y].value.buf == b;
      assert m'[y].Skeleton() == m[y].Skeleton();
    }
    if Linked(m, rank) {
      forall x | x in m' && m'[x].Branch?
        ensures NodeShaped(m', rank, x)
        ensures m'[m'[x].left.id].p == To(x) && m'[m'[x].right.id].p == To(x)
      {
        assert m'[x].Skeleton() == m[x].Skeleton();
        assert NodeShaped(m', rank, x);
        var l, r := m[x].left.id, m[x].right.id;
        assert m'[l].Skeleton() == m[l].Skeleton();
        assert m'[r].Skeleton() == m[r].Skeleton();
      }
      forall y | y in m' && m'[y].p.To? ensures IsChildOf(m', y, m'[y].p.id) {
        assert m'[y].Skeleton() == m[y].Skeleton();
        var q := m[y].p.id;
        assert IsChildOf(m, y, q);
        assert m'[q].Skeleton() == m[q].Skeleton();
      }
    }
  }

  /** ... and every subtree keeps its size, its elements and the nodes below it. */
  lemma {:induction false} RecountFrame<T>(m: Arena<T>, m': Arena<T>, rank: Ranks, x: nat)
    requires Shaped(m, rank) && SameShape(m, m') && x in m
    ensures Shaped(m', rank) && x in m'
    ensures Size(m', rank, x) == Size(m, rank, x)
    ensures Elems(m', rank, x) == Elems(m, rank, x)
    ensures forall z :: Under(m', rank, x, z) == Under(m, rank, x, z)
    decreases rank[x]
  {
    RecountLinked(m, m', rank);
    assert NodeShaped(m, rank, x);
    assert NodeShaped(m', rank, x);
    assert m'[x].Skeleton() == m[x].Skeleton();
    if m[x].Branch? {
      RecountFrame(m, m', rank, m[x].left.id);
      RecountFrame(m, m', rank, m[x].right.id);
    } else {
      assert m'[x].value.buf in Bufs(m);
    }
  }

  /** Every branch off the path from `n` up to the top caches the exact size of its subtree;
      those on the path may be stale. */
  ghost predicate ExactOffPath<T>(m: Arena<T>, rank: Ranks, n: nat)
    requires Shaped(m, rank)
  {
    forall b :: b in m && m[b].Branch? && !Under(m, rank, b, n) ==> m[b].elemCount == Size(m, rank, b)
  }

  /** Every branch caches the exact size of its subtree. */
  ghost predicate AllExact<T>(m: Arena<T>, rank: Ranks)
    requires Shaped(m, rank)
  {
    forall b :: b in m && m[b].Branch? ==> m[b].elemCount == Size(m, rank, b)
  }

  /** The arena after `n` recounts itself from its children. */
  function RecountAt<T>(m: Arena<T>, ghost rank: Ranks, n: nat): (m': Arena<T>)
    requires Shaped(m, rank) && n in m && m[n].Branch?
    ensures NodeShaped(m, rank, n)
    ensures m'.Keys == m.Keys && m'[n].Branch? && m'[n].Skeleton() == m[n].Skeleton()
    ensures m'[n].elemCount == Count(m, rank, m[n].left.id) + Count(m, rank, m[n].right.id)
    ensures forall x :: x in m && x != n ==> m'[x] == m[x]
  {
    assert NodeShaped(m, rank, n);
    var l, r := m[n].left.id, m[n].right.id;
    assert NodeShaped(m, rank, l) && NodeShaped(m, rank, r);
    m[n := m[n].WithCount(m[l].Count() + m[r].Count())]
  }

  /** Recounting `n` when everything off its path is exact makes `n` exact too, and changes
      nothing else anything depends on. */
  lemma RecountStep<T>(m: Arena<T>, rank: Ranks, n: nat)
    requires Linked(m, rank) && n in m && m[n].Branch? && ExactOffPath(m, rank, n)
    ensures SameShape(m, RecountAt(m, rank, n)) && Linked(RecountAt(m, rank, n), rank)
    ensures RecountAt(m, rank, n)[n].elemCount == Size(m, rank, n)
    ensures forall b :: b in m ==> Size(RecountAt(m, rank, n), rank, b) == Size(m, rank, b)
    ensures forall b, z :: b in m ==> Under(RecountAt(m, rank, n), rank, b, z) == Under(m, rank, b, z)
  {
    var m' := RecountAt(m, rank, n);
    assert NodeShaped(m, rank, n);
    var l, r := m[n].left.id, m[n].right.id;
    RecountOne(m, n, Count(m, rank, l) + Count(m, rank, r));
    RecountLinked(m, m', rank);
    forall c | c == l || c == r ensures Count(m, rank, c) == Size(m, rank, c) {
      assert NodeShaped(m, rank, c);
      if m[c].Branch? {
        if Under(m, rank, c, n) {
          UnderRank(m, rank, c, n);
        }
      }
    }
    forall b | b in m
      ensures Size(m', rank, b) == Size(m, rank, b)
      ensures forall z :: Under(m', rank, b, z) == Under(m, rank, b, z)
    {
      RecountFrame(m, m', rank, b);
    }
  }

  /** At the top of the tree, a recount leaves every cache exact. */
  lemma RecountTop<T>(m: Arena<T>, rank: Ranks, n: nat)
    requires Linked(m, rank) && n in m && m[n].Branch? && ExactOffPath(m, rank, n) && m[n].p == Null
    ensures Linked(RecountAt(m, rank, n), rank) && AllExact(RecountAt(m, rank, n), rank)
  {
    RecountStep(m, rank, n);
    var m' := RecountAt(m, rank, n);
    forall b | b in m' && m'[b].Branch? ensures m'[b].elemCount == Size(m', rank, b) {
      if b != n && Under(m, rank, b, n) {
        UnderParent(m, rank, b, n);
      }
    }
  }

  /** Below the top, the recount moves the stale path one step up, to the parent. */
  lemma RecountClimb<T>(m: Arena<T>, rank: Ranks, root: nat, n: nat)
    requires Linked(m, rank) && root in m && m[root].p == Null && Under(m, rank, root, n)
    requires n in m && m[n].Branch? && ExactOffPath(m, rank, n) && m[n].p.To?
    ensures var m', q := RecountAt(m, rank, n), m[n].p.id;
      && Linked(m', rank) && SameShape(m, m') && m'[root].p == Null
      && q in m' && m'[q].Branch? && Under(m', rank, root, q) && ExactOffPath(m', rank, q)
      && n in rank && q in rank && root in rank && rank[n] < rank[q] <= rank[root]
  {
    RecountStep(m, rank, n);
    var m', q := RecountAt(m, rank, n), m[n].p.id;
    assert IsChildOf(m, n, q);
    assert NodeShaped(m, rank, q);
    UnderParent(m, rank, root, n);
    UnderRank(m, rank, root, q);
    forall b | b in m' && m'[b].Branch? && !Under(m', rank, b, q)
      ensures m'[b].elemCount == Size(m', rank, b)
    {
      if b != n && Under(m, rank, b, n) {
        UnderParent(m, rank, b, n);
      }
    }
  }

  /** One step of `renew_count`'s climb from `n`: the shape stays, and either the stale path
      moves up to the parent or, at the top, every cache is exact. */
  lemma RecountMove<T>(m0: Arena<T>, m: Arena<T>, rank: Ranks, root: nat, n: nat)
    requires Linked(m, rank) && root in m && m[root].p == Null && SameShape(m0, m)
    requires n in m && m[n].Branch? && Under(m, rank, root, n) && ExactOffPath(m, rank, n)
    ensures var m' := RecountAt(m, rank, n);
      && Linked(m', rank) && root in m' && m'[root].p == Null && SameShape(m0, m')
      && n in m' && m'[n].p == m[n].p
      && (m[n].p.To? ==> var q := m[n].p.id;
            && q in m' && m'[q].Branch? && Under(m', rank, root, q) && ExactOffPath(m', rank, q)
            && n in rank && q in rank && root in rank && rank[n] < rank[q] <= rank[root])
      && (m[n].p.Null? ==> AllExact(m', rank))
  {
    var m' := RecountAt(m, rank, n);
    if m[n].p.To? {
      RecountClimb(m, rank, root, n);
    } else {
      RecountTop(m, rank, n);
      RecountOne(m, n, m'[n].elemCount);
    }
    SameShapeTrans(m0, m, m');
  }

  // ---------------------------------------------------------------------------------------
  // Allocation

  /** Every node of `m` is in `m2` unchanged, with its rank unchanged. */
  ghost predicate Extends<T>(m: Arena<T>, rank: Ranks, m2: Arena<T>, rank2: Ranks) {
    forall x :: x in m ==> x in m2 && m2[x] == m[x] && (x in rank ==> x in rank2 && rank2[x] == rank[x])
  }

  /** Allocating more nodes changes nothing about the subtrees of the old ones. */
  lemma {:induction false} ExtendFrame<T>(m: Arena<T>, rank: Ranks, m2: Arena<T>, rank2: Ranks, x: nat)
    requires Shaped(m, rank) && Shaped(m2, rank2) && Extends(m, rank, m2, rank2) && x in m
    ensures x in m2
    ensures Count(m2, rank2, x) == Count(m, rank, x)
    ensures Size(m2, rank2, x) == Size(m, rank, x)
    ensures Elems(m2, rank2, x) == Elems(m, rank, x)
    ensures forall z :: Under(m2, rank2, x, z) == Under(m, rank, x, z)
    ensures forall i :: Locate(m2, rank2, x, i) == Locate(m, rank, x, i)
    decreases rank[x]
  {
    assert NodeShaped(m, rank, x);
    assert NodeShaped(m2, rank2, x);
    if m[x].Branch? {
      var l, r := m[x].left.id, m[x].right.id;
      ExtendFrame(m, rank, m2, rank2, l);
      ExtendFrame(m, rank, m2, rank2, r);
    } else {
      assert m[x].value.buf in Bufs(m);
      assert m2[x].value.buf in Bufs(m2);
    }
  }

  /** A fresh leaf with no parent: the tree stays shaped, linked and exactly counted. */
  lemma AddDetachedLeaf<T>(m: Arena<T>, rank: Ranks, id: nat, s: Slice<T>)
    requires Linked(m, rank) && CountsExact(m, rank) && id !in m && s.Readable()
    ensures Extends(m, rank, m[id := Leaf(Null, s)], rank[id := 0])
    ensures Linked(m[id := Leaf(Null, s)], rank[id := 0])
    ensures CountsExact(m[id := Leaf(Null, s)], rank[id := 0])
  {
    var m2, rank2 := m[id := Leaf(Null, s)], rank[id := 0];
    forall x | x in m2 && x in rank2 ensures NodeShaped(m2, rank2, x) {
      if x != id {
        assert NodeShaped(m, rank, x);
      }
    }
    assert Shaped(m2, rank2);
    forall x | x in m2 && m2[x].Branch?
      ensures NodeShaped(m2, rank2, x)
      ensures m2[m2[x].left.id].p == To(x) && m2[m2[x].right.id].p == To(x)
      ensures m2[x].elemCount == Count(m2, rank2, m2[x].left.id) + Count(m2, rank2, m2[x].right.id)
    {
      assert NodeShaped(m, rank, x);
      assert NodeShaped(m2, rank2, x);
      var l, r := m[x].left.id, m[x].right.id;
      assert NodeShaped(m, rank, l) && NodeShaped(m, rank, r);
      assert NodeShaped(m2, rank2, l) && NodeShaped(m2, rank2, r);
    }
    forall y | y in m2 && m2[y].p.To? ensures IsChildOf(m2, y, m2[y].p.id) {
      assert IsChildOf(m, y, m[y].p.id);
    }
  }
}
