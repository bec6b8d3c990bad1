/**
 * Client programs over the vector. The first five state the round trips
 * the operations complete at the level of the vector's state; the others
 * are concrete runs that pin down the library's edge cases as written.
 */
module Scenarios {
  import opened CTypes
  import opened SeqModel
  import opened McVector

  /** A push followed by a pop hands back the pushed value and restores the contents. */
  method PushThenPop(v: Vector, x: Long, allocFails: bool) returns (ok: bool, y: Long)
    requires v.Owned()
    modifies v, v.data
    ensures v.Owned() && v.Elems() == old(v.Elems())
    ensures ok <==> !(old(v.count) + 1 >= old(v.capacity) && allocFails)
    ensures ok ==> y == x
  {
    var r, err := v.Push(x, allocFails);
    if r == 0 {
      return false, LONG_MIN;
    }
    y, err := v.Pop();
    ok := true;
  }

  /** An insert before the last element undone by a remove at the same index. */
  method InsertThenRemoveRestores(v: Vector, index: nat, x: Long, allocFails: bool) returns (ok: bool)
    requires v.Owned() && index + 1 < v.count
    modifies v, v.data
    ensures v.Owned() && v.Elems() == old(v.Elems())
    ensures ok <==> !(old(v.count) + 1 >= old(v.capacity) && allocFails)
  {
    ghost var s := v.Elems();
    var r, err := v.Insert(index, x, allocFails);
    if r == 0 {
      return false;
    }
    assert v.count == |s| + 1;
    r, err := v.Remove(index);
    InsertThenRemove(s, index, x);
    ok := true;
  }

  /** A run inserted away from the last index, erased again. */
  method InsertsThenEraseRestores(v: Vector, index: nat, src: array<Long>, length: nat, allocFails: bool)
    returns (ok: bool)
    requires v.Owned() && src != v.data
    requires index + 1 < v.count && 0 < length <= src.Length && index + length < v.capacity
    modifies v, v.data
    ensures v.Owned() && v.Elems() == old(v.Elems())
    ensures ok <==> !(old(v.count) + length >= old(v.capacity) && allocFails)
  {
    ghost var s := v.Elems();
    var r, err := v.Inserts(index, src, length, allocFails);
    if err != None {
      return false;
    }
    r, err := v.Erase(index, length);
    InsertRangeThenErase(s, index, src[..length]);
    ok := true;
  }

  /** Pushes the values of `xs` one by one, with every allocation succeeding. */
  method PushAll(v: Vector, xs: seq<Long>)
    requires v.Owned()
    modifies v, v.data
    ensures v.Owned() && v.Elems() == old(v.Elems()) + xs
  {
    var i := 0;
    while i < |xs|
      invariant 0 <= i <= |xs|
      invariant v.Owned() && v.Elems() == old(v.Elems()) + xs[..i]
      invariant v.data == old(v.data) || fresh(v.data)
    {
      var r, err := v.Push(xs[i], false);
      assert xs[..i + 1] == xs[..i] + [xs[i]];
      i := i + 1;
    }
    assert xs[..i] == xs;
  }

  /** Pops `n` times from a vector holding at least `n` elements. */
  method PopN(v: Vector, n: nat) returns (popped: seq<Long>)
    requires v.Owned() && n <= v.count
    modifies v
    ensures v.Owned() && v.Elems() == old(v.Elems())[..old(v.count) - n]
    ensures popped == Pops(old(v.Elems()), n)
  {
    ghost var s := v.Elems();
    popped := [];
    var k := 0;
    while k < n
      invariant 0 <= k <= n
      invariant v.Owned() && v.data == old(v.data) && v.Elems() == s[..|s| - k]
      invariant popped == Pops(s, k)
    {
      var y, err := v.Pop();
      PopsStep(s, k);
      popped := popped + [y];
      k := k + 1;
    }
  }

  /**
   * Pushing the values of `xs` one by one and then popping as many times
   * returns them in reverse order and leaves the contents as they were.
   */
  method PushesThenPopsRestore(v: Vector, xs: seq<Long>) returns (popped: seq<Long>)
    requires v.Owned()
    modifies v, v.data
    ensures v.Owned() && v.Elems() == old(v.Elems())
    ensures popped == Reverse(xs)
  {
    ghost var s := v.Elems();
    PushAll(v, xs);
    popped := PopN(v, |xs|);
    PushesThenPops(s, xs);
  }

  /**
   * An insert at the last index undone by a remove at the same index does
   * not restore the contents: the insert appended, so the remove takes out
   * the element that was last before it.
   */
  method InsertAtLastThenRemove(v: Vector, x: Long, allocFails: bool) returns (ok: bool)
    requires v.Owned() && 0 < v.count
    modifies v, v.data
    ensures v.Owned()
    ensures ok <==> !(old(v.count) + 1 >= old(v.capacity) && allocFails)
    ensures ok ==> v.Elems() == old(v.Elems())[..old(v.count) - 1] + [x]
  {
    ghost var s := v.Elems();
    var last := v.count - 1;
    var r, err := v.Insert(last, x, allocFails);
    if r == 0 {
      return false;
    }
    assert v.count == |s| + 1;
    r, err := v.Remove(last);
    ok := true;
  }

  /**
   * remove moves one slot more than the live tail, so the slot just past
   * the live end lands at the new last position; a resize back to the old
   * count exposes it as the last element.
   */
  method RemoveThenResizeExposesSlot(v: Vector)
    requires v.Owned() && 1 < v.count <= BUFSIZE && v.count < v.data.Length
    modifies v, v.data, v.stackBuf
    ensures v.Owned() && v.Elems() == old(v.Elems())[1..] + [old(v.data[v.count])]
  {
    ghost var b := v.data[..];
    var n := v.count;
    var r, err := v.Remove(0);
    r, err := v.Resize(n, false);
    assert v.Elems() == b[1..n + 1];
  }

  /**
   * A push that moves a vector off its inline buffer leaves that buffer as
   * it was, so after clear the inline slots read back their old values.
   */
  method GrowThenClearKeepsInline(v: Vector, x: Long)
    requires v.Owned() && v.heapBuf == null && v.count + 1 >= v.capacity
    modifies v, v.data
    ensures v.Owned() && v.capacity == BUFSIZE && v.data == v.stackBuf
    ensures forall j :: 0 <= j < BUFSIZE ==> Get(v, j) == Ok(old(v.stackBuf[j]))
  {
    var r, err := v.Push(x, false);
    r, err := v.Clear();
  }

  /** A set is read back by get at the same index, and no other slot changes. */
  method SetThenGet(v: Vector, index: nat, x: Long)
    requires v.Valid() && index < v.count
    modifies v.data
    ensures Get(v, index) == Ok(x)
    ensures forall j :: 0 <= j < |v.Slots()| && j != index ==> Get(v, j) == old(Get(v, j))
  {
    var r, err := v.Set(index, x);
  }

  /** Two swaps of the same pair give each vector back its count, capacity and buffer. */
  method SwapTwiceRestores(v1: Vector, v2: Vector)
    requires v1.Valid() && v2.Valid()
    modifies v1, v2
    ensures v1.Valid() && v2.Valid()
    ensures v1.count == old(v1.count) && v1.capacity == old(v1.capacity) && v1.data == old(v1.data)
    ensures v2.count == old(v2.count) && v2.capacity == old(v2.capacity) && v2.data == old(v2.data)
    ensures old(v1.Owned()) ==> v1.Owned()
    ensures old(v2.Owned()) ==> v2.Owned()
  {
    var r, err := Vector.Swap(v1, v2);
    r, err := Vector.Swap(v1, v2);
  }

  /** A fresh array holding `[10, 20, 30]`, the input of the concrete runs below. */
  method Abc() returns (a: array<Long>)
    ensures fresh(a) && a[..] == [10, 20, 30]
  {
    a := new Long[3];
    a[0], a[1], a[2] := 10, 20, 30;
  }

  /** from_array keeps a capacity of twice the length even below 10. */
  method FromArrayBelowTen() returns (v: Vector)
    ensures fresh(v) && fresh(v.stackBuf) && fresh(v.data)
    ensures v.Owned() && v.Elems() == [10, 20, 30]
    ensures v.capacity == 6 && Capacity(v).value == 6 && IsStack(v).value
  {
    var a := Abc();
    var w, err := Vector.FromArray(a, 3, false);
    v := w;
  }

  /** insert at the last index appends instead of placing the value before the last element. */
  method InsertAtLastIndexAppends() returns (v: Vector)
    ensures v.Owned() && v.Elems() == [10, 20, 30, 99]
  {
    v := FromArrayBelowTen();
    var r, err := v.Insert(2, 99, false);
  }

  /** inserts at the last index overwrites the last element with the run. */
  method InsertsAtLastIndexOverwrites() returns (v: Vector)
    ensures v.Owned() && |v.Elems()| == 5 && v.Elems()[..4] == [10, 20, 98, 97]
  {
    v := FromArrayBelowTen();
    var src := new Long[2];
    src[0], src[1] := 98, 97;
    var r, err := v.Inserts(2, src, 2, false);
    assert src[..2] == [98, 97];
  }

  /** inserts away from the last index shifts the tail right. */
  method InsertsInTheMiddle() returns (v: Vector)
    ensures v.Owned() && v.Elems() == [10, 98, 97, 20, 30]
  {
    v := FromArrayBelowTen();
    var src := new Long[2];
    src[0], src[1] := 98, 97;
    var r, err := v.Inserts(1, src, 2, false);
    assert src[..2] == [98, 97];
  }

  /** erase cannot remove a suffix: the range must end before the last element. */
  method EraseSuffixRejected() returns (v: Vector, r: int, err: Option<Errno>)
    ensures v.Owned() && v.Elems() == [10, 20, 30]
    ensures r == 0 && err == Some(EINVAL)
  {
    v := FromArrayBelowTen();
    r, err := v.Erase(1, 2);
  }

  /** remove of a last element equal to LONG_MIN removes it but reports 0 with no error. */
  method RemoveLongMin() returns (v: Vector, r: int, err: Option<Errno>)
    ensures v.Owned() && v.Elems() == []
    ensures r == 0 && err == None
  {
    var a := new Long[1];
    a[0] := LONG_MIN;
    var w, e := Vector.FromArray(a, 1, false);
    v := w;
    r, err := v.Remove(0);
  }

  /** A push on a two-slot vector moves it to a heap buffer of 5 slots, below the inline size. */
  method HeapCapacityBelowTen() returns (v: Vector)
    ensures v.Owned() && v.heapBuf != null && v.capacity == 5 && !IsStack(v).value
    ensures v.Elems() == [10, 20]
  {
    var a := Abc();
    var w, err := Vector.FromArray(a, 1, false);
    v := w;
    assert v.Elems() == [10];
    var r;
    r, err := v.Push(20, false);
  }

  /** resize to at most 10 sets the count to the new size, exposing slots that held no element. */
  method ResizeSetsCount() returns (v: Vector)
    ensures v.Owned() && v.count == 5 && v.capacity == BUFSIZE && v.Elems()[..3] == [10, 20, 30]
  {
    v := FromArrayBelowTen();
    var r, err := v.Resize(5, false);
  }

  /**
   * swap exchanges the buffers in use but not the heap buffer pointers: a
   * vector handed another vector's heap buffer reports that it is on its
   * inline buffer, and so does the vector handed that inline buffer.
   */
  method SwapMisreportsBuffer() returns (v1: Vector, v2: Vector)
    ensures v1.Valid() && v2.Valid()
    ensures v1.data != v1.stackBuf && IsStack(v1).value
    ensures v2.data != v2.stackBuf && IsStack(v2).value
  {
    var w1, e1 := Vector.Make(1, false);
    var w2, e2 := Vector.Make(20, false);
    v1, v2 := w1, w2;
    var r, err := Vector.Swap(v1, v2);
  }
}
