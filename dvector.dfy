/** `dvector`: the container over the tree. It adds `size`, indexing, and the index checks
    of `insert` and `erase` on top of `dvector_base`. */
module Container {
  import opened Outcome
  import opened DSlice
  import opened DNodeBase
  import opened TreeShape
  import opened Base

  class DVector<T> {
    const base: DVectorBase<T>

    ghost predicate Valid()
      reads this, base
    {
      base.Valid()
    }

    /** The elements, in order. */
    ghost function Contents(): seq<T>
      requires Valid()
      reads this, base, Bufs(base.nodes)
    {
      base.Contents()
    }

    /** The default container: a single leaf over an empty vector. */
    constructor ()
      ensures Valid() && fresh(base) && Contents() == []
    {
      base := new DVectorBase([]);
    }

    /** Built from `const Vector&`: the elements are copied. */
    constructor Copy(v: seq<T>)
      ensures Valid() && fresh(base) && Contents() == v
    {
      base := new DVectorBase(v);
    }

    /** Built from `Vector&&`: the vector's storage is taken and the vector is left empty. */
    constructor Move(v: Vector<T>)
      modifies v
      ensures Valid() && fresh(base) && Contents() == old(v.storage[..])
      ensures fresh(v.storage) && v.storage.Length == 0
    {
      base := new DVectorBase.FromVector(v);
    }

    /** `size()`: the root's count, which is the number of elements. */
    function Size(): (n: nat)
      requires Valid()
      reads this, base, Bufs(base.nodes)
      ensures n == |Contents()|
    {
      base.EndsAreBoundaries();
      assert NodeShaped(base.nodes, base.rank, base.root);
      base.nodes[base.root].Count()
    }

    /** `operator[](index)`: the window element at the local index `_access_node` finds. An
        index past the end fails `_access_node`'s assert; the index equal to the size lands at
        the end of the last leaf and fails the window's assert. */
    method Get(index: nat) returns (r: Result<T>)
      requires Valid()
      ensures r.Ok? <==> index < |Contents()|
      ensures r.Ok? ==> r.value == Contents()[index]
      ensures r.Err? ==> r.error == AssertionFailure
      ensures Contents() == old(Contents())
    {
      var n := Size();
      if index > n {
        return Err(AssertionFailure);
      }
      var m, rank, top := base.nodes, base.rank, base.root;
      CountIsSize(m, rank, top);
      var leaf, local := base.AccessNode(top, index);
      LocateSpec(m, rank, top, index);
      assert NodeShaped(m, rank, leaf);
      if index < n {
        ElemsAt(m, rank, top, leaf, local);
        assert m[leaf].value.buf in Bufs(m);
      } else {
        LocateAtEnds(m, rank, top);
      }
      r := m[leaf].value.At(local);
    }

    /** `insert(index, const Vector&)`: asserts `index <= size()`, then splices a copy of the
        elements in at `index`. */
    method Insert(index: nat, elements: seq<T>) returns (r: Status)
      requires Valid() && (index <= |Contents()| ==> base.AtBoundary(index))
      modifies base
      ensures Valid()
      ensures r.Success? <==> index <= |old(Contents())|
      ensures r.Success? ==> Contents() == old(Contents())[..index] + elements + old(Contents())[index..]
      ensures r.Failure? ==> r.error == AssertionFailure && Contents() == old(Contents())
    {
      if index > Size() {
        return Failure(AssertionFailure);
      }
      base.InsertCopy(index, elements);
      r := Success;
    }

    /** `insert(index, Vector&&)`: asserts `index <= size()`, then splices in a leaf over the
        vector's own storage, leaving the vector empty. */
    method InsertMove(index: nat, elements: Vector<T>) returns (r: Status)
      requires Valid() && (index <= |Contents()| ==> base.AtBoundary(index))
      modifies base, elements
      ensures Valid()
      ensures r.Success? <==> index <= |old(Contents())|
      ensures r.Success? ==> && Contents() == old(Contents())[..index] + old(elements.storage[..]) + old(Contents())[index..]
                             && fresh(elements.storage) && elements.storage.Length == 0
      ensures r.Failure? ==> r.error == AssertionFailure && Contents() == old(Contents())
    {
      if index > Size() {
        return Failure(AssertionFailure);
      }
      base.InsertMove(index, elements);
      r := Success;
    }

    /** `insert(index, const T&)` and `insert(index, T&&)`, as inserting the one-element
        vector. */
    method InsertElement(index: nat, element: T) returns (r: Status)
      requires Valid() && (index <= |Contents()| ==> base.AtBoundary(index))
      modifies base
      ensures Valid()
      ensures r.Success? <==> index <= |old(Contents())|
      ensures r.Success? ==> Contents() == old(Contents())[..index] + [element] + old(Contents())[index..]
      ensures r.Failure? ==> r.error == AssertionFailure && Contents() == old(Contents())
    {
      r := Insert(index, [element]);
    }

    /** The check `erase(index)` makes before handing over to `_erase`: `index < size()`. */
    method EraseCheck(index: nat) returns (r: Status)
      requires Valid()
      ensures r.Success? <==> index < |Contents()|
      ensures r.Failure? ==> r.error == AssertionFailure
    {
      if index < Size() {
        r := Success;
      } else {
        r := Failure(AssertionFailure);
      }
    }
  }

  /** The construction test: a container built from a temporary vector starts with that
      vector's first element; building by copy leaves the vector alone, building by move empties it. */
  method ConstructScenario() returns (first: Result<int>, copiedSize: nat, movedSize: nat)
    ensures first == Ok(0) && copiedSize == 5 && movedSize == 0
  {
    var v1 := new Vector([0, 1, 2, 3, 4]);
    var d1 := new DVector.Move(v1);
    first := d1.Get(0);
    var v2 := new Vector([0, 1, 2, 3, 4]);
    var d2 := new DVector.Copy(v2.storage[..]);
    copiedSize := v2.Size();
    var d3 := new DVector.Move(v2);
    movedSize := v2.Size();
  }

  /** The sequences of the insertion test after the two insertions at the front. */
  lemma FrontTwice(s0: seq<int>, s1: seq<int>, s2: seq<int>)
    requires s0 == [0, 1, 2, 3, 4]
    requires s1 == s0[..0] + [233] + s0[0..] && s2 == s1[..0] + [2333] + s1[0..]
    ensures |s2| == 7 && s2[0] == 2333 && s2[1] == 233
  {
  }

  /** The sequences of the insertion test after the insertion at the end. */
  lemma AtEnd(s2: seq<int>, s3: seq<int>)
    requires |s2| == 7 && s3 == s2[..7] + [114514] + s2[7..]
    ensures |s3| == 8 && s3[7] == 114514
  {
  }

  /** The insertion test, whose temporaries select the moving overloads: inserting at the
      front twice puts the newest element first, and inserting at the end (index 7 of seven
      elements) appends. */
  method InsertScenario() returns (a: Result<int>, b: Result<int>, c: Result<int>)
    ensures a == Ok(2333) && b == Ok(233) && c == Ok(114514)
  {
    var v := new Vector([0, 1, 2, 3, 4]);
    var e1 := new Vector([233]);
    var e2 := new Vector([2333]);
    var d := new DVector.Move(v);
    ghost var s0 := d.Contents();
    d.base.EndsAreBoundaries();
    var r1 := d.InsertMove(0, e1);
    ghost var s1 := d.Contents();
    assert s1 == s0[..0] + [233] + s0[0..];
    d.base.EndsAreBoundaries();
    var r2 := d.InsertMove(0, e2);
    ghost var s2 := d.Contents();
    assert s2 == s1[..0] + [2333] + s1[0..];
    FrontTwice(s0, s1, s2);
    a := d.Get(0);
    assert d.Contents() == s2;
    b := d.Get(1);
    assert d.Contents() == s2;
    d.base.EndsAreBoundaries();
    var r3 := d.InsertElement(7, 114514);
    ghost var s3 := d.Contents();
    assert s3 == s2[..7] + [114514] + s2[7..];
    AtEnd(s2, s3);
    c := d.Get(7);
    assert d.Contents() == s3;
  }
}
