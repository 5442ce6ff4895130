/** Branches: two children, a balance byte and a cached element count. */
module DNode {
  import opened DNodeBase

  /** A freshly built branch: tag `'n'`, balance 0, null children, cached count 0 and no
      parent. The balance `h` is documented as height(left) - height(right); nothing in the
      modelled code changes it. */
  function NewBranch<T>(): (n: Node<T>)
    ensures n.Branch? && n.Type() == 'n'
    ensures n.h == 0 && n.left == Null && n.right == Null && n.elemCount == 0
    ensures n.p == Null && n.Count() == 0
  {
    Branch(Null, 0, Null, Null, 0)
  }
}
