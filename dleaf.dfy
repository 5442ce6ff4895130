/** Leaves: one window of elements. */
module DLeaf {
  import opened DSlice
  import opened DNodeBase

  /** A freshly built leaf: it holds a copy of the window value (so it shares the window's
      buffer), carries the tag `'l'` and has no parent. */
  function NewLeaf<T>(value: Slice<T>): (n: Node<T>)
    ensures n.Leaf? && n.Type() == 'l' && n.p == Null
    ensures n.value == value && n.value.buf == value.buf
    ensures value.start <= value.end ==> n.Count() == value.Size()
  {
    Leaf(Null, value)
  }

  /** The source's leaf test: a leaf over `[1, 4)` counts three elements. */
  lemma LeafOverOneToFour(buf: array<int>)
    ensures NewLeaf(Window(buf, 1, 4)).Count() == 3
    ensures NewLeaf(Window(buf, 1, 4)).Type() == 'l'
  {
  }
}
