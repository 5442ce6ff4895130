/** The node header shared by leaves and branches, with the two node shapes as one tagged
    variant: a leaf holds one window, a branch holds two children and a cached count. */
module DNodeBase {
  import opened DSlice

  /** The source stores the balance byte as an 8-bit signed integer. */
  newtype int8 = x: int | -128 <= x < 128

  /** A node pointer into the arena of nodes; `Null` is the null pointer. */
  datatype Ptr = Null | To(id: nat)

  /** `p` is the parent pointer, null by default. A parent is always a branch. */
  datatype Node<T> =
    | Leaf(p: Ptr, value: Slice<T>)
    | Branch(p: Ptr, h: int8, left: Ptr, right: Ptr, elemCount: nat)
  {
    /** The type tag: `'l'` for a leaf, `'n'` for a branch. */
    function Type(): (c: char)
      ensures c == 'l' <==> Leaf?
      ensures c == 'n' <==> Branch?
    {
      if Leaf? then 'l' else 'n'
    }

    /** The same node with its parent pointer set to `q`. */
    function WithParent(q: Ptr): (n: Node<T>)
      ensures n.p == q && n.Leaf? == Leaf?
      ensures Leaf? ==> n.value == value
      ensures Branch? ==> n.h == h && n.left == left && n.right == right && n.elemCount == elemCount
    {
      match this
      case Leaf(_, s) => Leaf(q, s)
      case Branch(_, b, l, r, c) => Branch(q, b, l, r, c)
    }

    /** The same branch with its cached count set to `c`. */
    function WithCount(c: nat): (n: Node<T>)
      requires Branch?
      ensures n.Branch? && n.p == p && n.h == h && n.left == left && n.right == right && n.elemCount == c
    {
      Branch(p, h, left, right, c)
    }

    /** The same branch with its left child set to `c`. */
    function WithLeft(c: Ptr): (n: Node<T>)
      requires Branch?
      ensures n.Branch? && n.p == p && n.h == h && n.left == c && n.right == right && n.elemCount == elemCount
    {
      Branch(p, h, c, right, elemCount)
    }

    /** The same branch with its right child set to `c`. */
    function WithRight(c: Ptr): (n: Node<T>)
      requires Branch?
      ensures n.Branch? && n.p == p && n.h == h && n.left == left && n.right == c && n.elemCount == elemCount
    {
      Branch(p, h, left, c, elemCount)
    }

    /** The node without its cached count: what the shape of the tree depends on. */
    function Skeleton(): (n: Node<T>)
      ensures n.p == p && n.Leaf? == Leaf?
      ensures Leaf? ==> n == this
      ensures Branch? ==> n.h == h && n.left == left && n.right == right && n.elemCount == 0
    {
      match this
      case Leaf(_, _) => this
      case Branch(q, b, l, r, _) => Branch(q, b, l, r, 0)
    }

    /** `count()`: a leaf's window size; a branch's cached `elem_count`. */
    function Count(): (n: nat)
      requires Leaf? ==> value.start <= value.end
      ensures Leaf? ==> n == value.end - value.start
      ensures Branch? ==> n == elemCount
    {
      if Leaf? then value.Size() else elemCount
    }
  }
}
