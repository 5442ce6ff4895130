/** Segments: `(start, end)` windows over a shared, writable buffer. */
module DSlice {
  import opened Outcome

  /** A heap-allocated standard vector; `storage` is its buffer. Moving out of it hands the
      buffer over and leaves an empty one behind. */
  class Vector<T> {
    var storage: array<T>

    constructor (s: seq<T>)
      ensures fresh(storage) && storage[..] == s
    {
      storage := new T[|s|](i requires 0 <= i < |s| => s[i]);
    }

    function Size(): nat
      reads this
    {
      storage.Length
    }
  }

  /** A window `[start, end)` over the buffer `buf`. Several windows may share one buffer;
      the window's bounds and its buffer reference never change once built. */
  datatype Slice<T> = Window(buf: array<T>, start: nat, end: nat) {

    /** The number of elements in the window. */
    function Size(): nat
      requires start <= end
    {
      end - start
    }

    /** The window lies inside its buffer, so every element of it can be read. */
    ghost predicate Readable() {
      start <= end <= buf.Length
    }

    /** The elements the window shows, in order. */
    ghost function Contents(): (s: seq<T>)
      requires Readable()
      reads buf
      ensures |s| == Size()
    {
      buf[start..end]
    }

    /** Element `i` of the window (both `operator[]` overloads read this way); the bounds
        check is the source's assert. */
    function At(i: nat): (r: Result<T>)
      requires start + i < end ==> start + i < buf.Length
      reads buf
      ensures r.Ok? <==> start + i < end
      ensures r.Ok? ==> r.value == buf[start + i]
      ensures r.Err? ==> r.error == AssertionFailure
    {
      if start + i < end then Ok(buf[start + i]) else Err(AssertionFailure)
    }

    /** A sub-window `[start + a, start + b)` over the same buffer, without copying. Only
        `a <= b` and `b - a <= Size()` are checked, not `b <= Size()`. */
    function SubSlice(a: nat, b: nat): (r: Result<Slice<T>>)
      requires start <= end
      ensures r.Ok? <==> a <= b && b - a <= Size()
      ensures r.Ok? ==> r.value.buf == buf && r.value.start == start + a && r.value.end == start + b
      ensures r.Ok? ==> r.value.start <= r.value.end && r.value.Size() == b - a
    {
      if a <= b && b - a <= Size() then Ok(Window(buf, start + a, start + b))
      else Err(AssertionFailure)
    }

    /** Writes `v` through the reference the mutable `operator[]` returns. The write lands in
        the shared buffer, so every window over that cell sees it. */
    method Put(i: nat, v: T) returns (r: Status)
      requires start + i < end ==> start + i < buf.Length
      modifies buf
      ensures r.Success? <==> start + i < end
      ensures r.Success? ==> buf[..] == old(buf[..])[start + i := v]
      ensures r.Failure? ==> buf[..] == old(buf[..]) && r.error == AssertionFailure
    {
      if start + i < end {
        buf[start + i] := v;
        r := Success;
      } else {
        r := Failure(AssertionFailure);
      }
    }
  }

  /** Builds a window from a `const Vector&`: the elements are copied into a fresh buffer. */
  method FromCopy<T>(start: nat, end: nat, v: seq<T>) returns (s: Slice<T>)
    requires start <= end
    ensures fresh(s.buf) && s.buf[..] == v
    ensures s.start == start && s.end == end
  {
    var buf := new T[|v|](i requires 0 <= i < |v| => v[i]);
    s := Window(buf, start, end);
  }

  /** Builds a window from a `Vector&&`: the window takes the vector's buffer itself and the
      vector is left empty. */
  method FromMove<T>(start: nat, end: nat, v: Vector<T>) returns (s: Slice<T>)
    requires start <= end
    modifies v
    ensures s.buf == old(v.storage) && s.start == start && s.end == end
    ensures fresh(v.storage) && v.storage.Length == 0
  {
    s := Window(v.storage, start, end);
    v.storage := new T[0];
  }

  /** A sub-window and its parent read the same cell at corresponding positions. */
  lemma SubSliceShares<T>(s: Slice<T>, a: nat, b: nat, i: nat)
    requires s.Readable() && a <= b <= s.Size() && a + i < b
    ensures s.SubSlice(a, b).Ok?
    ensures s.SubSlice(a, b).value.At(i) == s.At(a + i)
  {
  }

  /** The check in `SubSlice` lets a sub-window reach past the end of its parent window. */
  lemma SubSliceMayExtendPastParent(buf: array<int>)
    ensures Window(buf, 0, 2).SubSlice(1, 3).Ok?
    ensures Window(buf, 0, 2).SubSlice(1, 3).value.end > Window(buf, 0, 2).end
  {
  }

  /** The windows of the source's slice test: a copied window is isolated, a moved-from vector
      is empty, and a write through a sub-window shows through its parent. */
  method ShareScenario() returns (movedSize: nat, first: Result<int>, overwritten: Result<int>,
                                  throughParent: Result<int>, subSize: nat, copied: Result<int>)
    ensures movedSize == 0
    ensures first == Ok(3) && overwritten == Ok(4) && throughParent == Ok(5)
    ensures subSize == 1 && copied == Ok(2)
  {
    var v2 := new Vector([1, 2, 3, 4]);
    var d1 := FromCopy(1, 2, v2.storage[..]);
    var d2 := FromMove(2, 4, v2);
    movedSize := v2.Size();
    first := d2.At(0);
    var w := d2.Put(0, 4);
    overwritten := d2.At(0);
    var d3 := d2.SubSlice(0, 1);
    w := d3.value.Put(0, 5);
    throughParent := d2.At(0);
    subSize := d3.value.Size();
    copied := d1.At(0);
  }
}
