/** `dvector_iterator`: a random-access iterator into the tree. It remembers the leaf it
    stands on, the index inside that leaf and its absolute position; moving climbs parent
    pointers and descends again with `_access_node`. */
module Iterator {
  import opened Outcome
  import opened DSlice
  import opened DNodeBase
  import opened TreeShape
  import opened Base

  /** The movable part of an iterator: `current_leaf`, `current_local_pos`, `current_pos`. */
  datatype Cursor = Cursor(leaf: Ptr, local: nat, pos: nat)

  /** The cursor stands where it claims: on a leaf below `root`, on an element of that leaf,
      at `pos`; or, with a null leaf, at the end (local index 0, position the size). */
  ghost predicate Placed<T>(m: Arena<T>, rank: Ranks, root: nat, c: Cursor)
    requires Shaped(m, rank) && root in m
  {
    && (c.leaf.To? ==>
          && c.leaf.id in m && m[c.leaf.id].Leaf? && Under(m, rank, root, c.leaf.id)
          && c.local < Size(m, rank, c.leaf.id) && OffsetIn(m, rank, root, c.leaf.id) + c.local == c.pos)
    && (c.leaf.Null? ==> c.local == 0 && c.pos == Size(m, rank, root))
  }

  /** The cursor for position `t`: the end cursor from the size on, otherwise the leaf and
      local index the descent from the root finds. */
  ghost function CursorAt<T>(m: Arena<T>, rank: Ranks, root: nat, t: nat): Cursor
    requires Shaped(m, rank) && root in m
  {
    if t >= Size(m, rank, root) then Cursor(Null, 0, Size(m, rank, root))
    else Cursor(To(Locate(m, rank, root, t).0), Locate(m, rank, root, t).1, t)
  }

  /** What `advance(diff)` makes of the cursor `c`: nothing when `diff` is 0; the out-of-range
      error when the target lies before the first element; the end cursor when it lies at or
      past the size; otherwise the cursor of the target. */
  ghost function Moved<T>(m: Arena<T>, rank: Ranks, root: nat, c: Cursor, diff: int): Result<Cursor>
    requires Shaped(m, rank) && root in m
  {
    if diff == 0 then Ok(c)
    else if c.pos + diff < 0 then Err(OutOfRange)
    else Ok(CursorAt(m, rank, root, c.pos + diff))
  }

  /** The cursor of every position up to the size is placed, at that position (capped at the
      size). */
  lemma CursorAtPlaced<T>(m: Arena<T>, rank: Ranks, root: nat, t: nat)
    requires Linked(m, rank) && CountsExact(m, rank) && root in m
    ensures Placed(m, rank, root, CursorAt(m, rank, root, t))
    ensures CursorAt(m, rank, root, t).pos == if t < Size(m, rank, root) then t else Size(m, rank, root)
    ensures CursorAt(m, rank, root, t).leaf.Null? <==> t >= Size(m, rank, root)
  {
    if t < Size(m, rank, root) {
      LocateSpec(m, rank, root, t);
    }
  }

  /** A placed cursor's position is at most the size, and equal to it exactly in the end
      state. */
  lemma PlacedPosition<T>(m: Arena<T>, rank: Ranks, root: nat, c: Cursor)
    requires Shaped(m, rank) && root in m && Placed(m, rank, root, c)
    ensures c.pos <= Size(m, rank, root)
    ensures c.pos == Size(m, rank, root) <==> c.leaf.Null?
  {
    if c.leaf.To? {
      OffsetBound(m, rank, root, c.leaf.id);
    }
  }

  /** Conversely, a placed cursor is the cursor of its own position: a position has exactly
      one placed cursor. */
  lemma PlacedIsCanonical<T>(m: Arena<T>, rank: Ranks, root: nat, c: Cursor)
    requires Linked(m, rank) && CountsExact(m, rank) && root in m && Placed(m, rank, root, c)
    ensures c == CursorAt(m, rank, root, c.pos)
  {
    if c.leaf.To? {
      LocateUnique(m, rank, root, c.leaf.id, c.local);
      OffsetBound(m, rank, root, c.leaf.id);
    }
  }

  /** Moving keeps a cursor placed, and an in-range move lands exactly `diff` further on. */
  lemma MovedPlaced<T>(m: Arena<T>, rank: Ranks, root: nat, c: Cursor, diff: int)
    requires Linked(m, rank) && CountsExact(m, rank) && root in m && Placed(m, rank, root, c)
    ensures Moved(m, rank, root, c, diff).Ok? <==> c.pos + diff >= 0
    ensures Moved(m, rank, root, c, diff).Ok? ==> Placed(m, rank, root, Moved(m, rank, root, c, diff).value)
    ensures 0 <= c.pos + diff <= Size(m, rank, root) ==> Moved(m, rank, root, c, diff).value.pos == c.pos + diff
    ensures c.pos + diff > Size(m, rank, root) ==> Moved(m, rank, root, c, diff).value.pos == Size(m, rank, root)
  {
    if diff == 0 {
      if c.leaf.To? {
        OffsetBound(m, rank, root, c.leaf.id);
      }
    } else if c.pos + diff >= 0 {
      CursorAtPlaced(m, rank, root, c.pos + diff);
    }
  }

  /** Two moves in range compose into one: advancing by `a` and then by `b` is advancing by
      `a + b`. */
  lemma MovedCompose<T>(m: Arena<T>, rank: Ranks, root: nat, c: Cursor, a: int, b: int)
    requires Linked(m, rank) && CountsExact(m, rank) && root in m && Placed(m, rank, root, c)
    requires 0 <= c.pos + a <= Size(m, rank, root) && 0 <= c.pos + a + b <= Size(m, rank, root)
    ensures Moved(m, rank, root, c, a).Ok?
    ensures Moved(m, rank, root, Moved(m, rank, root, c, a).value, b) == Moved(m, rank, root, c, a + b)
  {
    MovedPlaced(m, rank, root, c, a);
    var c' := Moved(m, rank, root, c, a).value;
    PlacedIsCanonical(m, rank, root, c);
    PlacedIsCanonical(m, rank, root, c');
  }

  /** A placed cursor on a leaf shows the element of the tree at its position. */
  lemma CursorElement<T>(m: Arena<T>, rank: Ranks, root: nat, c: Cursor)
    requires Shaped(m, rank) && root in m && Placed(m, rank, root, c) && c.leaf.To?
    ensures c.pos < |Elems(m, rank, root)|
    ensures m[c.leaf.id].value.Readable() && m[c.leaf.id].value.start + c.local < m[c.leaf.id].value.end
    ensures m[c.leaf.id].value.buf[m[c.leaf.id].value.start + c.local] == Elems(m, rank, root)[c.pos]
  {
    var leaf := c.leaf.id;
    ElemsAt(m, rank, root, leaf, c.local);
    assert NodeShaped(m, rank, leaf);
  }

  // ---------------------------------------------------------------------------------------
  // The free operators: all of them look at the position only

  /** `iter1 - iter2`: how far `b` must move to reach `a`. */
  function Difference(a: Cursor, b: Cursor): (d: int)
    ensures b.pos + d == a.pos
  {
    a.pos - b.pos
  }

  /** `==`: the two stand at the same position. */
  predicate Equal(a: Cursor, b: Cursor): (r: bool)
    ensures r <==> Difference(a, b) == 0
  {
    a.pos == b.pos
  }

  /** `!=` is the negation of `==`. */
  predicate NotEqual(a: Cursor, b: Cursor): (r: bool)
    ensures r <==> !Equal(a, b)
  {
    a.pos != b.pos
  }

  /** `<`: `a` lies before `b`. */
  predicate Less(a: Cursor, b: Cursor): (r: bool)
    ensures r <==> Difference(a, b) < 0
  {
    a.pos < b.pos
  }

  /** `>` is `<` with the operands swapped. */
  predicate Greater(a: Cursor, b: Cursor): (r: bool)
    ensures r <==> Less(b, a)
  {
    a.pos > b.pos
  }

  /** `<=` is `<` or `==`. */
  predicate LessEq(a: Cursor, b: Cursor): (r: bool)
    ensures r <==> Less(a, b) || Equal(a, b)
  {
    a.pos <= b.pos
  }

  /** `>=` is the negation of `<`. */
  predicate GreaterEq(a: Cursor, b: Cursor): (r: bool)
    ensures r <==> !Less(a, b)
  {
    a.pos >= b.pos
  }

  /** An in-range move by `diff` changes the difference by exactly `diff` and orders the two
      cursors by the sign of `diff`. */
  lemma MovedDifference<T>(m: Arena<T>, rank: Ranks, root: nat, c: Cursor, diff: int)
    requires Linked(m, rank) && CountsExact(m, rank) && root in m && Placed(m, rank, root, c)
    requires 0 <= c.pos + diff <= Size(m, rank, root)
    ensures Moved(m, rank, root, c, diff).Ok?
    ensures Difference(Moved(m, rank, root, c, diff).value, c) == diff
    ensures diff > 0 ==> Less(c, Moved(m, rank, root, c, diff).value)
    ensures diff < 0 ==> Greater(c, Moved(m, rank, root, c, diff).value)
  {
    MovedPlaced(m, rank, root, c, diff);
  }

  // ---------------------------------------------------------------------------------------
  // The iterator

  class DVectorIterator<T> {
    var root: Ptr
    var currentLeaf: Ptr
    var currentLocalPos: nat
    var currentPos: nat

    /** The cursor part of the state. */
    function Cur(): Cursor
      reads this
    {
      Cursor(currentLeaf, currentLocalPos, currentPos)
    }

    /** `pos()`; `PlacedPosition` says where it lies for an iterator that tracks a tree. */
    function Pos(): (p: nat)
      reads this
      ensures p == Cur().pos
    {
      currentPos
    }

    /** The iterator belongs to the tree `base`: its root is the tree's root and its cursor is
        placed. */
    ghost predicate Tracks(base: DVectorBase<T>)
      reads this, base
    {
      && base.Valid() && root == To(base.root)
      && Placed(base.nodes, base.rank, base.root, Cur())
    }

    /** The default iterator: null leaf, null root, zeros. */
    constructor ()
      ensures root == Null && Cur() == Cursor(Null, 0, 0)
    {
      currentLeaf, root, currentLocalPos, currentPos := Null, Null, 0, 0;
    }

    /** An iterator with the given leaf, root, local index and position. */
    constructor At(leaf: Ptr, root: Ptr, local: nat, pos: nat)
      ensures this.root == root && Cur() == Cursor(leaf, local, pos)
    {
      currentLeaf, this.root, currentLocalPos, currentPos := leaf, root, local, pos;
    }

    /** The copy constructor. */
    constructor Copy(other: DVectorIterator<T>)
      ensures root == other.root && Cur() == other.Cur()
    {
      currentLeaf, root, currentLocalPos, currentPos := other.currentLeaf, other.root, other.currentLocalPos, other.currentPos;
    }

    /** `advance(diff)`, as `Moved` describes it. Moving forward from the end dereferences the
        null leaf in the source, so callers must not. */
    method Advance(base: DVectorBase<T>, diff: int) returns (r: Status)
      requires Tracks(base) && (diff > 0 ==> currentLeaf.To?)
      modifies this
      ensures Tracks(base) && root == old(root)
      ensures var mv := Moved(base.nodes, base.rank, base.root, old(Cur()), diff);
        && (r.Success? <==> mv.Ok?)
        && (mv.Ok? ==> Cur() == mv.value)
        && (mv.Err? ==> Cur() == old(Cur()) && r == Failure(mv.error))
    {
      if diff > 0 {
        Forward(base, diff);
        r := Success;
      } else if diff < 0 {
        r := Backward(base, diff);
      } else {
        r := Success;
      }
    }

    /** The `diff > 0` half of `advance`: climb (`ClimbForward`), then either take the end
        state or descend with `_access_node`. */
    method Forward(base: DVectorBase<T>, diff: int)
      requires Tracks(base) && diff > 0 && currentLeaf.To?
      modifies this
      ensures Tracks(base) && root == old(root)
      ensures Moved(base.nodes, base.rank, base.root, old(Cur()), diff) == Ok(Cur())
    {
      var atEnd, node, target := ClimbForward(base, Cur(), diff);
      if atEnd {
        ToEnd(base, node);
      } else {
        Descend(base, node, target, currentPos + diff);
      }
    }

    /** The forward climb fell off the root `node`: null leaf, local index 0, and the root's
        count as the position. */
    method ToEnd(base: DVectorBase<T>, node: nat)
      requires base.Valid() && root == To(base.root) && node == base.root
      modifies this
      ensures Tracks(base) && root == old(root)
      ensures Cur() == Cursor(Null, 0, Size(base.nodes, base.rank, base.root))
    {
      CountIsSize(base.nodes, base.rank, node);
      currentLeaf, currentLocalPos, currentPos := Null, 0, base.nodes[node].Count();
    }

    /** The `diff < 0` half of `advance`: climb (`ClimbBackward`), raising the out-of-range
        error when the climb passes the root, then descend with `_access_node`. */
    method Backward(base: DVectorBase<T>, diff: int) returns (r: Status)
      requires Tracks(base) && diff < 0
      modifies this
      ensures Tracks(base) && root == old(root)
      ensures var mv := Moved(base.nodes, base.rank, base.root, old(Cur()), diff);
        && (r.Success? <==> mv.Ok?)
        && (mv.Ok? ==> Cur() == mv.value)
        && (mv.Err? ==> Cur() == old(Cur()) && r == Failure(mv.error))
    {
      var ok, node, target := ClimbBackward(base, Cur(), diff);
      if !ok {
        r := Failure(OutOfRange);
        return;
      }
      Descend(base, node, target, currentPos + diff);
      r := Success;
    }

    /** The final `_access_node(node, target)` of both halves, which lands on position
        `goal`. */
    method Descend(base: DVectorBase<T>, node: nat, target: nat, goal: nat)
      requires base.Valid() && root == To(base.root)
      requires node in base.nodes && Under(base.nodes, base.rank, base.root, node)
      requires target < Size(base.nodes, base.rank, node)
      requires target + OffsetIn(base.nodes, base.rank, base.root, node) == goal
      modifies this
      ensures Tracks(base) && root == old(root)
      ensures Cur() == CursorAt(base.nodes, base.rank, base.root, goal)
      ensures goal < Size(base.nodes, base.rank, base.root)
    {
      ghost var m, rank, top := base.nodes, base.rank, base.root;
      CountIsSize(m, rank, node);
      var leaf, local := base.AccessNode(node, target);
      LocateSpec(m, rank, node, target);
      OffsetTrans(m, rank, top, node, leaf);
      OffsetBound(m, rank, top, leaf);
      LocateUnique(m, rank, top, leaf, local);
      assert goal < Size(m, rank, top);
      assert CursorAt(m, rank, top, goal) == Cursor(To(leaf), local, goal);
      currentLeaf, currentLocalPos, currentPos := To(leaf), local, goal;
    }

    /** Prefix `++`: `advance(1)`. */
    method Increment(base: DVectorBase<T>)
      requires Tracks(base) && currentLeaf.To?
      modifies this
      ensures Tracks(base) && root == old(root)
      ensures Ok(Cur()) == Moved(base.nodes, base.rank, base.root, old(Cur()), 1)
    {
      var r := Advance(base, 1);
    }

    /** Postfix `++`: a copy of the prior state is returned. */
    method PostIncrement(base: DVectorBase<T>) returns (tmp: DVectorIterator<T>)
      requires Tracks(base) && currentLeaf.To?
      modifies this
      ensures fresh(tmp) && tmp.root == root && tmp.Cur() == old(Cur())
      ensures Tracks(base) && root == old(root)
      ensures Ok(Cur()) == Moved(base.nodes, base.rank, base.root, old(Cur()), 1)
    {
      tmp := new DVectorIterator.Copy(this);
      Increment(base);
    }

    /** Prefix `--`: `advance(-1)`, which fails before the first element. */
    method Decrement(base: DVectorBase<T>) returns (r: Status)
      requires Tracks(base)
      modifies this
      ensures Tracks(base) && root == old(root)
      ensures var mv := Moved(base.nodes, base.rank, base.root, old(Cur()), -1);
        && (r.Success? <==> mv.Ok?) && (mv.Ok? ==> Cur() == mv.value) && (mv.Err? ==> Cur() == old(Cur()))
    {
      r := Advance(base, -1);
    }

    /** Postfix `--`: a copy of the prior state is returned. */
    method PostDecrement(base: DVectorBase<T>) returns (tmp: DVectorIterator<T>, r: Status)
      requires Tracks(base)
      modifies this
      ensures fresh(tmp) && tmp.root == old(root) && tmp.Cur() == old(Cur())
      ensures Tracks(base) && root == old(root)
      ensures var mv := Moved(base.nodes, base.rank, base.root, old(Cur()), -1);
        && (r.Success? <==> mv.Ok?) && (mv.Ok? ==> Cur() == mv.value) && (mv.Err? ==> Cur() == old(Cur()))
    {
      tmp := new DVectorIterator.Copy(this);
      r := Decrement(base);
    }

    /** `+= diff`: `advance(diff)`. */
    method AddAssign(base: DVectorBase<T>, diff: int) returns (r: Status)
      requires Tracks(base) && (diff > 0 ==> currentLeaf.To?)
      modifies this
      ensures Tracks(base) && root == old(root)
      ensures var mv := Moved(base.nodes, base.rank, base.root, old(Cur()), diff);
        && (r.Success? <==> mv.Ok?) && (mv.Ok? ==> Cur() == mv.value) && (mv.Err? ==> Cur() == old(Cur()))
    {
      r := Advance(base, diff);
    }

    /** `-= diff`: `advance(-diff)`. */
    method SubAssign(base: DVectorBase<T>, diff: int) returns (r: Status)
      requires Tracks(base) && (diff < 0 ==> currentLeaf.To?)
      modifies this
      ensures Tracks(base) && root == old(root)
      ensures var mv := Moved(base.nodes, base.rank, base.root, old(Cur()), -diff);
        && (r.Success? <==> mv.Ok?) && (mv.Ok? ==> Cur() == mv.value) && (mv.Err? ==> Cur() == old(Cur()))
    {
      r := Advance(base, -diff);
    }

    /** `operator*` (and `operator->`, which points at the same cell): the element the leaf's
        window shows at the local index, which is the tree's element at the position. */
    function Deref(base: DVectorBase<T>): (r: Result<T>)
      requires Tracks(base) && currentLeaf.To?
      reads this, base, Bufs(base.nodes)
      ensures r.Ok? && currentPos < |base.Contents()| && r.value == base.Contents()[currentPos]
    {
      CursorElement(base.nodes, base.rank, base.root, Cur());
      assert base.nodes[currentLeaf.id].value.buf in Bufs(base.nodes);
      base.nodes[currentLeaf.id].value.At(currentLocalPos)
    }
  }

  /** Every node on the way up from `leaf` to just below `node` ends at or before `target`,
      counted from `node`'s first element: none of them holds that position. */
  ghost predicate EndsBefore<T>(m: Arena<T>, rank: Ranks, node: nat, leaf: nat, target: int)
    requires Shaped(m, rank) && node in m
  {
    forall y {:trigger Under(m, rank, y, leaf), Under(m, rank, node, y)} ::
      y in m && Under(m, rank, y, leaf) && Under(m, rank, node, y) && y != node ==>
        OffsetIn(m, rank, node, y) + Size(m, rank, y) <= target
  }

  /** Every node on the way up from `leaf` to just below `node` starts after `target`,
      counted from `node`'s first element: none of them holds that position. */
  ghost predicate StartsAfter<T>(m: Arena<T>, rank: Ranks, node: nat, leaf: nat, target: int)
    requires Shaped(m, rank) && node in m
  {
    forall y {:trigger Under(m, rank, y, leaf), Under(m, rank, node, y)} ::
      y in m && Under(m, rank, y, leaf) && Under(m, rank, node, y) && y != node ==>
        target < OffsetIn(m, rank, node, y)
  }

  /** Before the first step up, no node lies on the way. */
  lemma ClimbStart<T>(m: Arena<T>, rank: Ranks, leaf: nat, target: int)
    requires Shaped(m, rank) && leaf in m
    ensures Under(m, rank, leaf, leaf)
    ensures EndsBefore(m, rank, leaf, leaf, target) && StartsAfter(m, rank, leaf, leaf, target)
  {
    assert NodeShaped(m, rank, leaf);
    forall y | y in m && Under(m, rank, y, leaf) && Under(m, rank, leaf, y)
      ensures y == leaf
    {
      UnderRank(m, rank, y, leaf);
      UnderRank(m, rank, leaf, y);
    }
  }

  /** One step up of the forward climb: when `node` does not hold the target, its parent is
      an ancestor of the leaf below which no node holds it, the target shifted by `node`'s
      offset in the parent. */
  lemma ClimbStepForward<T>(m: Arena<T>, rank: Ranks, leaf: nat, node: nat, target: int)
    requires Linked(m, rank) && node in m && Under(m, rank, node, leaf) && m[node].p.To?
    requires Size(m, rank, node) <= target && EndsBefore(m, rank, node, leaf, target)
    ensures IsChildOf(m, node, m[node].p.id) && NodeShaped(m, rank, m[node].p.id)
    ensures Under(m, rank, m[node].p.id, node) && Under(m, rank, m[node].p.id, leaf)
    ensures OffsetIn(m, rank, m[node].p.id, node) ==
              if m[m[node].p.id].right == To(node) then Size(m, rank, m[m[node].p.id].left.id) else 0
    ensures EndsBefore(m, rank, m[node].p.id, leaf, target + OffsetIn(m, rank, m[node].p.id, node))
  {
    var q := m[node].p.id;
    assert NodeShaped(m, rank, q);
    assert Under(m, rank, node, node);
    assert Under(m, rank, q, node);
    UnderRank(m, rank, q, node);
    OffsetUp(m, rank, q, node);
    UnderTrans(m, rank, q, node, leaf);
    forall y | y in m && Under(m, rank, y, leaf) && Under(m, rank, q, y) && y != q
      ensures OffsetIn(m, rank, q, y) + Size(m, rank, y) <= target + OffsetIn(m, rank, q, node)
    {
      BetweenChild(m, rank, q, node, y, leaf);
      if y != node {
        OffsetTrans(m, rank, q, node, y);
      }
    }
  }

  /** One step up of the backward climb: when the target lies before `node`, its parent is an
      ancestor of the leaf below which no node holds it, the target shifted by `node`'s offset
      in the parent. */
  lemma ClimbStepBackward<T>(m: Arena<T>, rank: Ranks, leaf: nat, node: nat, target: int)
    requires Linked(m, rank) && node in m && Under(m, rank, node, leaf) && m[node].p.To?
    requires target < 0 && StartsAfter(m, rank, node, leaf, target)
    ensures IsChildOf(m, node, m[node].p.id) && NodeShaped(m, rank, m[node].p.id)
    ensures Under(m, rank, m[node].p.id, node) && Under(m, rank, m[node].p.id, leaf)
    ensures OffsetIn(m, rank, m[node].p.id, node) ==
              if m[m[node].p.id].right == To(node) then Size(m, rank, m[m[node].p.id].left.id) else 0
    ensures StartsAfter(m, rank, m[node].p.id, leaf, target + OffsetIn(m, rank, m[node].p.id, node))
  {
    var q := m[node].p.id;
    assert NodeShaped(m, rank, q);
    assert Under(m, rank, node, node);
    assert Under(m, rank, q, node);
    UnderRank(m, rank, q, node);
    OffsetUp(m, rank, q, node);
    UnderTrans(m, rank, q, node, leaf);
    forall y | y in m && Under(m, rank, y, leaf) && Under(m, rank, q, y) && y != q
      ensures target + OffsetIn(m, rank, q, node) < OffsetIn(m, rank, q, y)
    {
      BetweenChild(m, rank, q, node, y, leaf);
      if y != node {
        OffsetTrans(m, rank, q, node, y);
      }
    }
  }

  /** The climb of `advance(diff)` for `diff > 0`: from the cursor's leaf, go up until the
      node's count exceeds the target (adding the left sibling's count on every step up from a
      right child). Falling off the root means the target is at or past the end. */
  method ClimbForward<T>(base: DVectorBase<T>, c: Cursor, diff: int) returns (atEnd: bool, node: nat, target: nat)
    requires base.Valid() && Placed(base.nodes, base.rank, base.root, c) && c.leaf.To? && diff > 0
    ensures atEnd <==> c.pos + diff >= Size(base.nodes, base.rank, base.root)
    ensures atEnd ==> node == base.root
    ensures !atEnd ==> && node in base.nodes && Under(base.nodes, base.rank, base.root, node)
                       && target < Size(base.nodes, base.rank, node)
                       && target + OffsetIn(base.nodes, base.rank, base.root, node) == c.pos + diff
    ensures !atEnd ==> && Under(base.nodes, base.rank, node, c.leaf.id)
                       && EndsBefore(base.nodes, base.rank, node, c.leaf.id, target)
  {
    ghost var m, rank, top := base.nodes, base.rank, base.root;
    node, target := c.leaf.id, c.local + diff;
    UnderRank(m, rank, top, node);
    ClimbStart(m, rank, node, target);
    while base.nodes[node].Count() <= target
      invariant node in m && Under(m, rank, top, node) && NodeShaped(m, rank, node)
      invariant node in rank && top in rank && rank[node] <= rank[top]
      invariant target + OffsetIn(m, rank, top, node) == c.pos + diff
      invariant Under(m, rank, node, c.leaf.id) && EndsBefore(m, rank, node, c.leaf.id, target)
      decreases rank[top] - rank[node]
    {
      var q := base.nodes[node].p;
      if q.Null? {
        if node != top {
          UnderParent(m, rank, top, node);
        }
        CountIsSize(m, rank, top);
        return true, node, target;
      }
      OffsetUp(m, rank, top, node);
      UnderRank(m, rank, top, q.id);
      CountIsSize(m, rank, node);
      ClimbStepForward(m, rank, c.leaf.id, node, target);
      if base.nodes[q.id].right == To(node) {
        CountIsSize(m, rank, base.nodes[q.id].left.id);
        target := target + base.nodes[base.nodes[q.id].left.id].Count();
      }
      node := q.id;
    }
    CountIsSize(m, rank, node);
    OffsetBound(m, rank, top, node);
    atEnd := false;
  }

  /** The climb of `advance(diff)` for `diff < 0`: from the end state restart at the root with
      its count added; otherwise go up until the target is not negative (adding the left
      sibling's count on every step up from a right child). Passing above the root is the
      out-of-range error, which happens exactly when the target precedes the first element. */
  method ClimbBackward<T>(base: DVectorBase<T>, c: Cursor, diff: int) returns (ok: bool, node: nat, target: nat)
    requires base.Valid() && Placed(base.nodes, base.rank, base.root, c) && diff < 0
    ensures ok <==> c.pos + diff >= 0
    ensures ok ==> && node in base.nodes && Under(base.nodes, base.rank, base.root, node)
                   && target < Size(base.nodes, base.rank, node)
                   && target + OffsetIn(base.nodes, base.rank, base.root, node) == c.pos + diff
    ensures ok && c.leaf.Null? ==> node == base.root
    ensures ok && c.leaf.To? ==> && Under(base.nodes, base.rank, node, c.leaf.id)
                                 && StartsAfter(base.nodes, base.rank, node, c.leaf.id, target)
  {
    ghost var m, rank, top := base.nodes, base.rank, base.root;
    var at := c.leaf;
    var t: int := c.local + diff;
    if at.To? {
      UnderRank(m, rank, top, at.id);
      ClimbStart(m, rank, at.id, t);
    }
    UnderRank(m, rank, top, top);
    while t < 0
      invariant at.Null? ==> t == diff && c.leaf.Null? && c.pos == Size(m, rank, top)
      invariant at.To? ==> && at.id in m && Under(m, rank, top, at.id)
                           && at.id in rank && top in rank && rank[at.id] <= rank[top]
                           && t + OffsetIn(m, rank, top, at.id) == c.pos + diff
                           && t < Size(m, rank, at.id)
      invariant at.To? && c.leaf.Null? ==> at.id == top
      invariant at.To? && c.leaf.To? ==> Under(m, rank, at.id, c.leaf.id) && StartsAfter(m, rank, at.id, c.leaf.id, t)
      decreases if at.Null? then rank[top] + 1 else rank[top] - rank[at.id]
    {
      if at.Null? {
        CountIsSize(m, rank, top);
        at, t := To(base.root), t + base.nodes[base.root].Count();
      } else {
        var q := base.nodes[at.id].p;
        if q.Null? {
          if at.id != top {
            UnderParent(m, rank, top, at.id);
          }
          return false, 0, 0;
        }
        OffsetUp(m, rank, top, at.id);
        UnderRank(m, rank, top, q.id);
        if c.leaf.To? {
          ClimbStepBackward(m, rank, c.leaf.id, at.id, t);
        }
        if base.nodes[q.id].right == at {
          CountIsSize(m, rank, base.nodes[q.id].left.id);
          t := t + base.nodes[base.nodes[q.id].left.id].Count();
        }
        at := q;
      }
    }
    ok, node, target := true, at.id, t;
  }

  /** `iter + diff`: a copy of `iter`, advanced. */
  method Plus<T>(base: DVectorBase<T>, iter: DVectorIterator<T>, diff: int) returns (tmp: DVectorIterator<T>, r: Status)
    requires iter.Tracks(base) && (diff > 0 ==> iter.currentLeaf.To?)
    ensures fresh(tmp) && tmp.Tracks(base) && tmp.root == iter.root
    ensures var mv := Moved(base.nodes, base.rank, base.root, iter.Cur(), diff);
      && (r.Success? <==> mv.Ok?) && (mv.Ok? ==> tmp.Cur() == mv.value) && (mv.Err? ==> tmp.Cur() == iter.Cur())
  {
    tmp := new DVectorIterator.Copy(iter);
    r := tmp.Advance(base, diff);
  }

  /** `diff + iter` is `iter + diff`. */
  method PlusLeft<T>(base: DVectorBase<T>, diff: int, iter: DVectorIterator<T>) returns (tmp: DVectorIterator<T>, r: Status)
    requires iter.Tracks(base) && (diff > 0 ==> iter.currentLeaf.To?)
    ensures fresh(tmp) && tmp.Tracks(base) && tmp.root == iter.root
    ensures var mv := Moved(base.nodes, base.rank, base.root, iter.Cur(), diff);
      && (r.Success? <==> mv.Ok?) && (mv.Ok? ==> tmp.Cur() == mv.value) && (mv.Err? ==> tmp.Cur() == iter.Cur())
  {
    tmp, r := Plus(base, iter, diff);
  }

  /** `iter - diff` is `iter + (-diff)`. */
  method Minus<T>(base: DVectorBase<T>, iter: DVectorIterator<T>, diff: int) returns (tmp: DVectorIterator<T>, r: Status)
    requires iter.Tracks(base) && (diff < 0 ==> iter.currentLeaf.To?)
    ensures fresh(tmp) && tmp.Tracks(base) && tmp.root == iter.root
    ensures var mv := Moved(base.nodes, base.rank, base.root, iter.Cur(), -diff);
      && (r.Success? <==> mv.Ok?) && (mv.Ok? ==> tmp.Cur() == mv.value) && (mv.Err? ==> tmp.Cur() == iter.Cur())
  {
    tmp, r := Plus(base, iter, -diff);
  }
}
