/** The two recursive walks of the tree: post-order (children before their branch, used to
    destroy the tree bottom-up) and pre-order (a branch, then its right subtree, then its left
    subtree, each one level deeper, used for the text dump). The action each walk applies is
    not modelled; the walks are given as the sequence of visits they make. */
module Traversal {
  import opened DNodeBase
  import opened TreeShape

  ghost predicate Reachable<T>(m: Arena<T>, n: Ptr) {
    n.To? ==> n.id in m
  }

  ghost function PtrRank(rank: Ranks, n: Ptr): nat {
    if n.To? && n.id in rank then rank[n.id] + 1 else 0
  }

  /** The nodes `_post_order_traverse` visits, in order; a null pointer visits nothing. */
  ghost function PostOrder<T>(m: Arena<T>, rank: Ranks, n: Ptr): seq<nat>
    requires Shaped(m, rank) && Reachable(m, n)
    decreases PtrRank(rank, n)
  {
    if n.Null? then []
    else
      assert NodeShaped(m, rank, n.id);
      match m[n.id]
      case Leaf(_, _) => [n.id]
      case Branch(_, _, l, r, _) => PostOrder(m, rank, l) + PostOrder(m, rank, r) + [n.id]
  }

  /** The `(node, level)` pairs `_pre_order_traverse` visits, in order: the right subtree is
      walked before the left one. */
  ghost function PreOrder<T>(m: Arena<T>, rank: Ranks, n: Ptr, level: int): seq<(nat, int)>
    requires Shaped(m, rank) && Reachable(m, n)
    decreases PtrRank(rank, n)
  {
    if n.Null? then []
    else
      assert NodeShaped(m, rank, n.id);
      match m[n.id]
      case Leaf(_, _) => [(n.id, level)]
      case Branch(_, _, l, r, _) =>
        [(n.id, level)] + PreOrder(m, rank, r, level + 1) + PreOrder(m, rank, l, level + 1)
  }

  /** The leaves below `x`, left to right: the order in which their windows make up the
      element sequence. */
  ghost function LeafIds<T>(m: Arena<T>, rank: Ranks, x: nat): seq<nat>
    requires Shaped(m, rank) && x in m
    decreases rank[x]
  {
    assert NodeShaped(m, rank, x);
    match m[x]
    case Leaf(_, _) => [x]
    case Branch(_, _, l, r, _) => LeafIds(m, rank, l.id) + LeafIds(m, rank, r.id)
  }

  ghost function LeavesOf<T>(m: Arena<T>, s: seq<nat>): seq<nat> {
    if s == [] then []
    else (if s[0] in m && m[s[0]].Leaf? then [s[0]] else []) + LeavesOf(m, s[1..])
  }

  ghost function Ids(s: seq<(nat, int)>): seq<nat> {
    if s == [] then [] else [s[0].0] + Ids(s[1..])
  }

  ghost function Reverse<X>(s: seq<X>): seq<X> {
    if s == [] then [] else Reverse(s[1..]) + [s[0]]
  }

  ghost predicate NoDuplicates(s: seq<nat>) {
    forall i, j :: 0 <= i < j < |s| ==> s[i] != s[j]
  }

  lemma {:induction false} LeavesOfConcat<T>(m: Arena<T>, a: seq<nat>, b: seq<nat>)
    ensures LeavesOf(m, a + b) == LeavesOf(m, a) + LeavesOf(m, b)
    decreases |a|
  {
    if a == [] {
      assert a + b == b;
    } else {
      assert (a + b)[1..] == a[1..] + b;
      LeavesOfConcat(m, a[1..], b);
    }
  }

  lemma {:induction false} IdsConcat(a: seq<(nat, int)>, b: seq<(nat, int)>)
    ensures Ids(a + b) == Ids(a) + Ids(b)
    ensures |Ids(a)| == |a|
    decreases |a|
  {
    if a == [] {
      assert a + b == b;
    } else {
      assert (a + b)[1..] == a[1..] + b;
      IdsConcat(a[1..], b);
    }
  }

  lemma {:induction false} ReverseConcat<X>(a: seq<X>, b: seq<X>)
    ensures Reverse(a + b) == Reverse(b) + Reverse(a)
    decreases |a|
  {
    if a == [] {
      assert a + b == b;
    } else {
      assert (a + b)[1..] == a[1..] + b;
      ReverseConcat(a[1..], b);
    }
  }

  /** Post-order visits exactly the nodes of the subtree, and the subtree's root last. */
  lemma {:induction false} PostOrderCovers<T>(m: Arena<T>, rank: Ranks, x: nat)
    requires Shaped(m, rank) && x in m
    ensures forall y :: y in PostOrder(m, rank, To(x)) <==> Under(m, rank, x, y)
    ensures |PostOrder(m, rank, To(x))| > 0 && PostOrder(m, rank, To(x))[|PostOrder(m, rank, To(x))| - 1] == x
    decreases rank[x]
  {
    assert NodeShaped(m, rank, x);
    if m[x].Branch? {
      PostOrderCovers(m, rank, m[x].left.id);
      PostOrderCovers(m, rank, m[x].right.id);
    }
  }

  /** Post-order visits every node once, so the destructor frees each node exactly once. */
  lemma {:induction false} PostOrderOnce<T>(m: Arena<T>, rank: Ranks, x: nat)
    requires Linked(m, rank) && x in m
    ensures NoDuplicates(PostOrder(m, rank, To(x)))
    decreases rank[x]
  {
    assert NodeShaped(m, rank, x);
    if m[x].Branch? {
      var l, r := m[x].left.id, m[x].right.id;
      PostOrderOnce(m, rank, l);
      PostOrderOnce(m, rank, r);
      PostOrderCovers(m, rank, l);
      PostOrderCovers(m, rank, r);
      var a, b := PostOrder(m, rank, To(l)), PostOrder(m, rank, To(r));
      var s := a + b + [x];
      forall i, j | 0 <= i < j < |s| ensures s[i] != s[j] {
        if j == |s| - 1 {
          if i < |a| {
            UnderRank(m, rank, l, a[i]);
          } else {
            UnderRank(m, rank, r, b[i - |a|]);
          }
        } else if i < |a| && |a| <= j {
          ChildrenDisjoint(m, rank, x, a[i]);
        }
      }
    }
  }

  /** The leaves appear in post-order from left to right. */
  lemma {:induction false} PostOrderLeaves<T>(m: Arena<T>, rank: Ranks, x: nat)
    requires Shaped(m, rank) && x in m
    ensures LeavesOf(m, PostOrder(m, rank, To(x))) == LeafIds(m, rank, x)
    decreases rank[x]
  {
    assert NodeShaped(m, rank, x);
    if m[x].Branch? {
      var l, r := m[x].left, m[x].right;
      PostOrderLeaves(m, rank, l.id);
      PostOrderLeaves(m, rank, r.id);
      LeavesOfConcat(m, PostOrder(m, rank, l) + PostOrder(m, rank, r), [x]);
      LeavesOfConcat(m, PostOrder(m, rank, l), PostOrder(m, rank, r));
    }
  }

  /** Pre-order starts at the subtree's root, at the level it was given. */
  lemma PreOrderFirst<T>(m: Arena<T>, rank: Ranks, x: nat, level: int)
    requires Shaped(m, rank) && x in m
    ensures |PreOrder(m, rank, To(x), level)| > 0 && PreOrder(m, rank, To(x), level)[0] == (x, level)
  {
    assert NodeShaped(m, rank, x);
  }

  /** Pre-order visits the same nodes as post-order, each as often. */
  lemma {:induction false} PreOrderSameNodes<T>(m: Arena<T>, rank: Ranks, x: nat, level: int)
    requires Shaped(m, rank) && x in m
    ensures multiset(Ids(PreOrder(m, rank, To(x), level))) == multiset(PostOrder(m, rank, To(x)))
    decreases rank[x]
  {
    assert NodeShaped(m, rank, x);
    if m[x].Branch? {
      var l, r := m[x].left, m[x].right;
      PreOrderSameNodes(m, rank, l.id, level + 1);
      PreOrderSameNodes(m, rank, r.id, level + 1);
      var pr, pl := PreOrder(m, rank, r, level + 1), PreOrder(m, rank, l, level + 1);
      IdsConcat([(x, level)] + pr, pl);
      IdsConcat([(x, level)], pr);
    } else {
      assert Ids([(x, level)]) == [x];
    }
  }

  /** Because the right subtree comes first, the leaves appear in pre-order from right to
      left. */
  lemma {:induction false} PreOrderLeaves<T>(m: Arena<T>, rank: Ranks, x: nat, level: int)
    requires Shaped(m, rank) && x in m
    ensures LeavesOf(m, Ids(PreOrder(m, rank, To(x), level))) == Reverse(LeafIds(m, rank, x))
    decreases rank[x]
  {
    assert NodeShaped(m, rank, x);
    if m[x].Branch? {
      var l, r := m[x].left, m[x].right;
      PreOrderLeaves(m, rank, l.id, level + 1);
      PreOrderLeaves(m, rank, r.id, level + 1);
      var pr, pl := PreOrder(m, rank, r, level + 1), PreOrder(m, rank, l, level + 1);
      IdsConcat([(x, level)] + pr, pl);
      IdsConcat([(x, level)], pr);
      assert Ids([(x, level)]) == [x];
      LeavesOfConcat(m, [x] + Ids(pr), Ids(pl));
      LeavesOfConcat(m, [x], Ids(pr));
      assert LeavesOf(m, [x]) == [];
      ReverseConcat(LeafIds(m, rank, l.id), LeafIds(m, rank, r.id));
    } else {
      assert Ids([(x, level)]) == [x];
      assert Reverse([x]) == [x];
    }
  }
}
