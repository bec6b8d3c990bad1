/**
 * A growable vector of `long` with a small-buffer optimisation. Its
 * elements live in a 10-slot inline buffer until they no longer fit; they
 * then move to a buffer on the heap, which grows by doubling plus the room
 * asked for, and which `resize`, `shrink` and `clear` can give back.
 *
 * Errors are reported, as the library does through `errno`, by the error
 * kind a call would store there: `None` when it stores nothing. An
 * allocation that may fail is decided by the caller through `allocFails`.
 */
module McVector {
  import opened CTypes
  import opened SeqModel
  import Memory

  /** `MC_VECTOR_BUFSIZE`: the number of slots of the inline buffer. */
  const BUFSIZE: nat := 10

  /** The `errno` codes the library sets. */
  datatype Errno =
    | EFAULT   // a NULL vector or array was passed
    | EINVAL   // an index, length or capacity is out of range
    | ENOBUFS  // a constructor could not allocate
    | ENOMEM   // growth failed, or pop found nothing to pop

  datatype Option<T> = None | Some(value: T)

  /** What a read that stores its value through an out-argument reports: the value read, or the error it set. */
  datatype Result<T> = Ok(value: T) | Err(errno: Errno)

  /** What a query reports: the value it returns and the error it set, if any. */
  datatype Reply<T> = Reply(value: T, errno: Option<Errno>)

  function Min(a: nat, b: nat): nat { if a <= b then a else b }

  function Max(a: nat, b: nat): nat { if a <= b then b else a }

  /**
   * The growth rule: room for `len` more elements is made when
   * `count + len` reaches the capacity (not only when it exceeds it), and
   * the capacity then becomes twice itself plus `len`.
   */
  function NewCapacity(count: nat, capacity: nat, len: nat): (r: nat)
    ensures r >= capacity
    ensures 0 < capacity && count <= capacity ==> count + len < r
    ensures r == capacity <==> count + len < capacity || (capacity == 0 && len == 0)
  {
    if count + len >= capacity then 2 * capacity + len else capacity
  }

  /** The vector's state: the fields of `struct vector_s`. */
  class Vector {
    /** The inline buffer, part of the vector itself. */
    const stackBuf: array<Long>
    /** The heap buffer, or null when none is attached. */
    var heapBuf: array?<Long>
    /** The buffer in use: `stackBuf` or `heapBuf`. */
    var data: array<Long>
    /** The number of live elements, `data[..count]`. */
    var count: nat
    /** The number of addressable slots, `data[..capacity]`. */
    var capacity: nat

    /**
     * The sizes are consistent: every live element and every addressable
     * slot is in the buffer in use. Every operation that only reads or
     * writes slots relies on this alone.
     */
    ghost predicate Valid()
      reads this
    {
      stackBuf.Length == BUFSIZE && 0 < capacity && count <= capacity <= data.Length
    }

    /**
     * The buffer in use is the vector's own: the inline buffer when no heap
     * buffer is attached (with a capacity of at most 10), the heap buffer
     * otherwise (with a capacity equal to its size). Growth, resizing and
     * clearing rely on this.
     */
    ghost predicate Owned()
      reads this
    {
      Valid() &&
      (heapBuf == null ==> data == stackBuf && capacity <= BUFSIZE) &&
      (heapBuf != null ==> data == heapBuf && heapBuf != stackBuf && capacity == heapBuf.Length)
    }

    /** The live contents. */
    ghost function Elems(): seq<Long>
      reads this, data
      requires Valid()
    {
      data[..count]
    }

    /** Every addressable slot, live or not. */
    ghost function Slots(): seq<Long>
      reads this, data
      requires Valid()
    {
      data[..capacity]
    }

    /** An empty vector on its inline buffer. */
    constructor ()
      ensures Owned() && fresh(stackBuf)
      ensures heapBuf == null && count == 0 && capacity == BUFSIZE
    {
      var buf := new Long[BUFSIZE];
      stackBuf := buf;
      heapBuf := null;
      data := buf;
      count := 0;
      capacity := BUFSIZE;
    }

    /**
     * mc_vector_make: an empty vector able to hold `capacity` elements. A
     * heap buffer of exactly that size is allocated when it exceeds the
     * inline buffer; otherwise the capacity is that of the inline buffer.
     */
    static method Make(capacity: nat, allocFails: bool) returns (v: Vector?, err: Option<Errno>)
      ensures v != null <==> capacity > 0 && !allocFails
      ensures v == null ==> err == Some(if capacity == 0 then EINVAL else ENOBUFS)
      ensures v != null ==> err == None && fresh(v) && fresh(v.stackBuf) && fresh(v.data)
      ensures v != null ==> v.Owned() && v.count == 0 && v.capacity == Max(capacity, BUFSIZE)
      ensures v != null ==> (v.heapBuf != null <==> capacity > BUFSIZE)
    {
      if capacity == 0 {
        return null, Some(EINVAL);
      }
      if allocFails {
        return null, Some(ENOBUFS);
      }
      v := new Vector();
      if capacity > BUFSIZE {
        var buf := new Long[capacity];
        v.heapBuf := buf;
        v.data := buf;
        v.capacity := capacity;
      }
      err := None;
    }

    /**
     * mc_vector_make_filled: a vector of `length` copies of `value`, made
     * as `Make(capacity)` makes it; `length` must be positive and fit.
     */
    static method MakeFilled(capacity: nat, length: nat, value: Long, allocFails: bool)
      returns (v: Vector?, err: Option<Errno>)
      ensures v != null <==> 0 < length <= capacity && !allocFails
      ensures v == null ==> err == Some(if 0 < length <= capacity then ENOBUFS else EINVAL)
      ensures v != null ==> err == None && fresh(v) && fresh(v.stackBuf) && fresh(v.data)
      ensures v != null ==> v.Owned() && v.capacity == Max(capacity, BUFSIZE) && v.Elems() == Repeat(value, length)
      ensures v != null ==> (v.heapBuf != null <==> capacity > BUFSIZE)
    {
      if capacity == 0 || length == 0 || capacity < length {
        return null, Some(EINVAL);
      }
      v, err := Make(capacity, allocFails);
      if v == null {
        return;
      }
      var i := 0;
      while i < length
        invariant 0 <= i <= length
        invariant v.data[..i] == Repeat(value, i)
        modifies v.data
      {
        v.data[i] := value;
        i := i + 1;
      }
      v.count := length;
    }

    /**
     * mc_vector_clone: a new vector with the same capacity, the same count
     * and a copy of the live elements of `src`.
     */
    static method Clone(src: Vector?, allocFails: bool) returns (v: Vector?, err: Option<Errno>)
      requires src != null ==> src.Valid()
      ensures src == null ==> v == null && err == Some(EFAULT)
      ensures src != null ==> (v != null <==> !allocFails)
      ensures src != null && v == null ==> err == Some(ENOBUFS)
      ensures v != null ==> err == None && fresh(v) && fresh(v.stackBuf) && fresh(v.data)
      ensures v != null ==> v.Owned() && v.capacity == src.capacity && v.Elems() == src.Elems()
      ensures v != null ==> (v.heapBuf == null <==> src.capacity <= BUFSIZE)
    {
      if src == null {
        return null, Some(EFAULT);
      }
      v, err := Make(src.capacity, allocFails);
      if v == null {
        return;
      }
      Memory.Copy(src.data, 0, v.data, 0, src.count);
      v.capacity := src.capacity;
      v.count := src.count;
    }

    /**
     * mc_vector_from_array: a vector holding `src[..length]` with a
     * capacity of exactly `2 * length`, below 10 when `length` is below 5.
     */
    static method FromArray(src: array?<Long>, length: nat, allocFails: bool)
      returns (v: Vector?, err: Option<Errno>)
      requires src != null ==> length <= src.Length
      ensures src == null ==> v == null && err == Some(EFAULT)
      ensures src != null && length == 0 ==> v == null && err == Some(EINVAL)
      ensures src != null && length > 0 ==> (v != null <==> !allocFails)
      ensures src != null && length > 0 && v == null ==> err == Some(ENOBUFS)
      ensures v != null ==> err == None && fresh(v) && fresh(v.stackBuf) && fresh(v.data)
      ensures v != null ==> v.Owned() && v.capacity == 2 * length && v.Elems() == src[..length]
      ensures v != null ==> (v.heapBuf == null <==> 2 * length <= BUFSIZE)
    {
      if src == null {
        return null, Some(EFAULT);
      }
      if length == 0 {
        return null, Some(EINVAL);
      }
      v, err := Make(length * 2, allocFails);
      if v == null {
        return;
      }
      Memory.Copy(src, 0, v.data, 0, length);
      v.capacity := length * 2;
      v.count := length;
    }

    /**
     * mc_vector_extract: copies the `length` live elements from `index` on
     * into `buffer` and returns their number as an `int`. The range must be
     * non-empty and lie within the live elements.
     */
    method Extract(buffer: array?<Long>, index: nat, length: nat) returns (r: int, err: Option<Errno>)
      requires Valid()
      requires buffer != data
      requires buffer != null && 0 < length && index + length <= count ==> length <= buffer.Length
      modifies buffer
      ensures buffer == null ==> r == 0 && err == Some(EFAULT)
      ensures buffer != null && !(0 < length && index + length <= count) ==>
        r == 0 && err == Some(EINVAL) && buffer[..] == old(buffer[..])
      ensures buffer != null && 0 < length && index + length <= count ==>
        r == AsInt(length) && err == None &&
        buffer[..] == Elems()[index..index + length] + old(buffer[length..])
    {
      if buffer == null {
        return 0, Some(EFAULT);
      }
      if index >= count || length == 0 || index + length > count {
        return 0, Some(EINVAL);
      }
      var i, pos := index, 0;
      while i < index + length
        invariant index <= i <= index + length && pos == i - index
        invariant buffer[..pos] == data[index..i]
        invariant buffer[pos..] == old(buffer[pos..])
      {
        buffer[pos] := data[i];
        i, pos := i + 1, pos + 1;
      }
      assert buffer[..] == buffer[..length] + buffer[length..];
      return AsInt(length), None;
    }

    /** mc_vector_to_array: extracts every live element; an empty vector is rejected. */
    method ToArray(buffer: array?<Long>) returns (r: int, err: Option<Errno>)
      requires Valid()
      requires buffer != data
      requires buffer != null && 0 < count ==> count <= buffer.Length
      modifies buffer
      ensures buffer == null ==> r == 0 && err == Some(EFAULT)
      ensures buffer != null && count == 0 ==> r == 0 && err == Some(EINVAL) && buffer[..] == old(buffer[..])
      ensures buffer != null && 0 < count ==>
        r == AsInt(count) && err == None && buffer[..] == Elems() + old(buffer[count..])
    {
      r, err := Extract(buffer, 0, count);
    }

    /** mc_vector_set: overwrites the live element at `index`. */
    method Set(index: nat, value: Long) returns (r: int, err: Option<Errno>)
      requires Valid()
      modifies data
      ensures index < count ==> r == 1 && err == None && data[..] == old(data[..])[index := value]
      ensures index < count ==> Elems() == old(Elems())[index := value]
      ensures index >= count ==> r == 0 && err == Some(EINVAL) && data[..] == old(data[..])
    {
      if index >= count {
        return 0, Some(EINVAL);
      }
      data[index] := value;
      return 1, None;
    }

    /**
     * vec_ensure_capacity: makes room for `len` more elements. When
     * `count + len` reaches the capacity, the elements move to a heap
     * buffer of `NewCapacity` slots (allocated, or the attached one
     * reallocated) that keeps every old slot; a failed allocation changes
     * nothing.
     */
    method EnsureCapacity(len: nat, allocFails: bool) returns (ok: bool)
      requires Owned()
      modifies this
      ensures Owned() && count == old(count) && Elems() == old(Elems())
      ensures ok <==> !(old(count) + len >= old(capacity) && allocFails)
      ensures ok ==> count + len < capacity && capacity == NewCapacity(old(count), old(capacity), len)
      ensures old(count) + len < old(capacity) || !ok ==> unchanged(this)
      ensures old(count) + len >= old(capacity) && ok ==>
        heapBuf != null && fresh(data) && data[..old(capacity)] == old(Slots())
    {
      if count + len >= capacity {
        var cap := 2 * capacity + len;
        if allocFails {
          return false;
        }
        var temp := new Long[cap];
        if heapBuf == null {
          Memory.Copy(stackBuf, 0, temp, 0, capacity);
        } else {
          Memory.Copy(heapBuf, 0, temp, 0, heapBuf.Length);
        }
        heapBuf := temp;
        data := temp;
        capacity := cap;
      }
      return true;
    }

    /** mc_vector_push: appends `value`, growing first when the vector is full. */
    method Push(value: Long, allocFails: bool) returns (r: int, err: Option<Errno>)
      requires Owned()
      modifies this, data
      ensures Owned() && (data == old(data) || fresh(data))
      ensures old(count) + 1 >= old(capacity) && allocFails ==>
        r == 0 && err == Some(ENOMEM) && unchanged(this) && data[..] == old(data[..])
      ensures !(old(count) + 1 >= old(capacity) && allocFails) ==>
        r == 1 && err == None && Elems() == old(Elems()) + [value] &&
        capacity == NewCapacity(old(count), old(capacity), 1)
      ensures old(count) + 1 >= old(capacity) && !allocFails ==> heapBuf != null
      ensures old(count) + 1 < old(capacity) ==>
        data == old(data) && heapBuf == old(heapBuf) && data[..] == old(data[..])[old(count) := value]
      ensures data != old(data) ==> stackBuf[..] == old(stackBuf[..])
    {
      var ok := EnsureCapacity(1, allocFails);
      if !ok {
        return 0, Some(ENOMEM);
      }
      data[count] := value;
      count := count + 1;
      return 1, None;
    }

    /** mc_vector_pop: removes the last live element and returns it. */
    method Pop() returns (r: Long, err: Option<Errno>)
      requires Valid()
      modifies this`count
      ensures Valid() && (old(Owned()) ==> Owned())
      ensures old(count) == 0 ==> r == LONG_MIN && err == Some(ENOMEM) && count == 0
      ensures old(count) > 0 ==>
        r == old(Elems())[old(count) - 1] && err == None && Elems() == old(Elems())[..old(count) - 1]
    {
      if count == 0 {
        return LONG_MIN, Some(ENOMEM);
      }
      count := count - 1;
      return data[count], None;
    }

    /**
     * mc_vector_insert: places `value` before the live element at `index`.
     * At the last index the call is handed to push, so the value lands
     * after the last element instead.
     */
    method Insert(index: nat, value: Long, allocFails: bool) returns (r: int, err: Option<Errno>)
      requires Owned()
      modifies this, data
      ensures Owned() && (data == old(data) || fresh(data))
      ensures index >= old(count) ==>
        r == 0 && err == Some(EINVAL) && unchanged(this) && data[..] == old(data[..])
      ensures index < old(count) && old(count) + 1 >= old(capacity) && allocFails ==>
        r == 0 && err == Some(ENOMEM) && unchanged(this) && data[..] == old(data[..])
      ensures index < old(count) && !(old(count) + 1 >= old(capacity) && allocFails) ==>
        r == 1 && err == None && capacity == NewCapacity(old(count), old(capacity), 1) &&
        Elems() == if index == old(count) - 1 then old(Elems()) + [value]
                   else InsertAt(old(Elems()), index, value)
      ensures index < old(count) && old(count) + 1 >= old(capacity) && !allocFails ==> heapBuf != null
      ensures old(count) + 1 < old(capacity) ==>
        data == old(data) && heapBuf == old(heapBuf) && data[old(count) + 1..] == old(data[count + 1..])
      ensures data != old(data) ==> stackBuf[..] == old(stackBuf[..])
    {
      if index >= count {
        return 0, Some(EINVAL);
      }
      var ok := EnsureCapacity(1, allocFails);
      if !ok {
        return 0, Some(ENOMEM);
      }
      if index == count - 1 {
        r, err := Push(value, allocFails);
        return;
      }
      OpenSlot(data, count, index, value);
      count := count + 1;
      return 1, None;
    }

    /**
     * mc_vector_inserts: places `src[..length]` at `index`. The bounds are
     * checked against the capacity before any growth. At `index == count - 1`
     * the tail is not shifted: the copy overwrites the last element, and
     * the slot after the copied run, never written, becomes the last live
     * element.
     */
    method Inserts(index: nat, src: array?<Long>, length: nat, allocFails: bool)
      returns (r: int, err: Option<Errno>)
      requires Owned()
      requires src != data
      requires src != null && index < capacity && 0 < length && index + length < capacity ==>
        index <= count && length <= src.Length
      modifies this, data
      ensures Owned() && (data == old(data) || fresh(data))
      ensures src == null ==> r == 0 && err == Some(EFAULT) && unchanged(this) && data[..] == old(data[..])
      ensures src != null && !(index < old(capacity) && 0 < length && index + length < old(capacity)) ==>
        r == 0 && err == Some(EINVAL) && unchanged(this) && data[..] == old(data[..])
      ensures src != null && index < old(capacity) && 0 < length && index + length < old(capacity) &&
              old(count) + length >= old(capacity) && allocFails ==>
        r == 0 && err == Some(ENOMEM) && unchanged(this) && data[..] == old(data[..])
      ensures src != null && index < old(capacity) && 0 < length && index + length < old(capacity) &&
              !(old(count) + length >= old(capacity) && allocFails) ==>
        r == AsShort(length) && err == None &&
        capacity == NewCapacity(old(count), old(capacity), length) && count == old(count) + length
      ensures src != null && index < old(capacity) && 0 < length && index + length < old(capacity) &&
              !(old(count) + length >= old(capacity) && allocFails) && index + 1 != old(count) ==>
        Elems() == InsertRange(old(Elems()), index, src[..length])
      ensures src != null && index < old(capacity) && 0 < length && index + length < old(capacity) &&
              !(old(count) + length >= old(capacity) && allocFails) && index + 1 == old(count) ==>
        Elems() == old(Elems())[..index] + src[..length] + [old(Slots())[index + length]]
      ensures src != null && index < old(capacity) && 0 < length && index + length < old(capacity) &&
              old(count) + length >= old(capacity) && !allocFails ==>
        heapBuf != null
      ensures old(count) + length < old(capacity) ==>
        data == old(data) && heapBuf == old(heapBuf) &&
        data[old(count) + length..] == old(data[count + length..])
      ensures data != old(data) ==> stackBuf[..] == old(stackBuf[..])
    {
      if src == null {
        return 0, Some(EFAULT);
      }
      if index >= capacity || length == 0 || index + length >= capacity {
        return 0, Some(EINVAL);
      }
      var ok := EnsureCapacity(length, allocFails);
      if !ok {
        return 0, Some(ENOMEM);
      }
      OpenAndCopy(index, src, length);
      return AsShort(length), None;
    }

    /**
     * The block moves of mc_vector_inserts once room is made: unless
     * `index` is the last live index, the tail from `index` is moved
     * `length` slots right; then `src[..length]` is copied in at `index`.
     */
    method OpenAndCopy(index: nat, src: array<Long>, length: nat)
      requires Owned()
      requires index <= count && count + length < capacity
      requires src != data && length <= src.Length
      modifies this`count, data
      ensures Owned() && count == old(count) + length
      ensures index + 1 != old(count) ==> Elems() == InsertRange(old(Elems()), index, src[..length])
      ensures index + 1 == old(count) ==>
        Elems() == old(Elems())[..index] + src[..length] + [old(data[index + length])]
      ensures data[old(count) + length..] == old(data[count + length..])
    {
      if index + 1 != count {
        OpenRange(data, count, index, src, length);
      } else {
        CopyOver(data, count, src, length);
      }
      count := count + length;
    }

    /**
     * mc_vector_remove: removes the live element at `index`. The shift
     * moves `count - index` slots, one past the live end. At the last index
     * the call is handed to pop, and success is reported as "the popped
     * value is not LONG_MIN".
     */
    method Remove(index: nat) returns (r: int, err: Option<Errno>)
      requires Valid()
      requires index + 1 < count ==> count < data.Length
      modifies this`count, data
      ensures Valid() && (old(Owned()) ==> Owned())
      ensures index >= old(count) ==>
        r == 0 && err == Some(EINVAL) && count == old(count) && data[..] == old(data[..])
      ensures index < old(count) ==>
        err == None && Elems() == RemoveAt(old(Elems()), index) &&
        r == if index + 1 == old(count) && old(Elems())[index] == LONG_MIN then 0 else 1
      ensures index + 1 < old(count) ==>
        data[..] == Memory.Moved(old(data[..]), index, index + 1, old(count) - index)
      ensures index + 1 == old(count) ==> data[..] == old(data[..])
    {
      if index >= count {
        return 0, Some(EINVAL);
      }
      if index == count - 1 {
        var popped;
        popped, err := Pop();
        return if popped != LONG_MIN then 1 else 0, err;
      }
      ghost var s := Elems();
      CloseGap(data, count, index, 1, count - index);
      RemoveIsEraseOfOne(s, index);
      count := count - 1;
      return 1, None;
    }

    /**
     * mc_vector_erase: removes `length` live elements from `index` on. The
     * range must end strictly before the last live element, so a suffix
     * cannot be erased.
     */
    method Erase(index: nat, length: nat) returns (r: int, err: Option<Errno>)
      requires Valid()
      modifies this`count, data
      ensures Valid() && (old(Owned()) ==> Owned())
      ensures !(0 < length && index + length < old(count)) ==>
        r == 0 && err == Some(EINVAL) && count == old(count) && data[..] == old(data[..])
      ensures 0 < length && index + length < old(count) ==>
        r == AsShort(length) && err == None && Elems() == EraseRange(old(Elems()), index, length)
      ensures 0 < length && index + length < old(count) ==>
        data[..] == Memory.Moved(old(data[..]), index, index + length, old(count) - index - length)
    {
      if index >= count || length == 0 || index + length >= count {
        return 0, Some(EINVAL);
      }
      CloseGap(data, count, index, length, count - index - length);
      count := count - length;
      return AsShort(length), None;
    }

    /**
     * mc_vector_swap: exchanges the count, the capacity and the buffer in
     * use of two vectors. The heap buffer pointers stay where they were,
     * so afterwards a vector may use a buffer it does not own (the other
     * vector's heap buffer, or its inline buffer).
     */
    static method Swap(v1: Vector?, v2: Vector?) returns (r: int, err: Option<Errno>)
      requires v1 != null ==> v1.Valid()
      requires v2 != null ==> v2.Valid()
      modifies v1, v2
      ensures v1 == null || v2 == null ==> r == 0 && err == Some(EFAULT)
      ensures v1 == null || v2 == null ==> (v1 != null ==> unchanged(v1)) && (v2 != null ==> unchanged(v2))
      ensures v1 != null && v2 != null ==> r == 1 && err == None && v1.Valid() && v2.Valid()
      ensures v1 != null && v2 != null ==>
        v1.count == old(v2.count) && v1.capacity == old(v2.capacity) && v1.data == old(v2.data) &&
        v2.count == old(v1.count) && v2.capacity == old(v1.capacity) && v2.data == old(v1.data)
      ensures v1 != null && v2 != null ==>
        v1.Elems() == old(v2.Elems()) && v2.Elems() == old(v1.Elems())
      ensures v1 != null && v2 != null ==> v1.heapBuf == old(v1.heapBuf) && v2.heapBuf == old(v2.heapBuf)
    {
      if v1 == null || v2 == null {
        return 0, Some(EFAULT);
      }
      var count, capacity, data := v1.count, v1.capacity, v1.data;
      v1.count, v1.capacity, v1.data := v2.count, v2.capacity, v2.data;
      v2.count, v2.capacity, v2.data := count, capacity, data;
      return 1, None;
    }

    /**
     * mc_vector_fill_range: overwrites the `length` live elements from
     * `index` on with `value`. The range must be non-empty and lie within
     * the live elements.
     */
    method FillRange(index: nat, length: nat, value: Long) returns (r: int, err: Option<Errno>)
      requires Valid()
      modifies data
      ensures !(0 < length && index + length <= count) ==>
        r == 0 && err == Some(EINVAL) && data[..] == old(data[..])
      ensures 0 < length && index + length <= count ==>
        r == 1 && err == None && Elems() == SeqModel.FillRange(old(Elems()), index, length, value) &&
        data[count..] == old(data[count..])
    {
      if index >= count || length == 0 || index + length > count {
        return 0, Some(EINVAL);
      }
      var i := index;
      while i < index + length
        invariant index <= i <= index + length
        invariant data[..] == old(data[..index]) + Repeat(value, i - index) + old(data[i..])
      {
        data[i] := value;
        i := i + 1;
      }
      return 1, None;
    }

    /** mc_vector_fill: overwrites every live element; an empty vector is rejected. */
    method Fill(value: Long) returns (r: int, err: Option<Errno>)
      requires Valid()
      modifies data
      ensures count == 0 ==> r == 0 && err == Some(EINVAL) && data[..] == old(data[..])
      ensures count > 0 ==> r == 1 && err == None && Elems() == Repeat(value, count)
      ensures data[count..] == old(data[count..])
    {
      r, err := FillRange(0, count, value);
    }

    /**
     * mc_vector_resize. Up to 10, the vector returns to its inline buffer
     * (copying the first `newSize` slots back from the heap buffer, which
     * is released), its capacity becomes 10 and its count becomes
     * `newSize`, whatever it was. Above 10, the heap buffer is allocated or
     * reallocated to exactly `newSize` slots and the count is kept; a failed
     * `malloc` is reported as EINVAL, a failed `realloc` as ENOMEM.
     */
    method Resize(newSize: nat, allocFails: bool) returns (r: int, err: Option<Errno>)
      requires Owned()
      requires newSize > BUFSIZE ==> count <= newSize
      requires heapBuf != null && newSize <= BUFSIZE ==> newSize <= capacity
      modifies this, stackBuf
      ensures Owned()
      ensures newSize == 0 ==> r == 0 && err == Some(EINVAL) && unchanged(this) && unchanged(stackBuf)
      ensures 0 < newSize <= BUFSIZE ==>
        r == 1 && err == None && heapBuf == null && capacity == BUFSIZE && count == newSize &&
        Elems() == old(data[..newSize]) && stackBuf[newSize..] == old(stackBuf[newSize..])
      ensures newSize > BUFSIZE && allocFails ==>
        r == 0 && err == Some(if old(heapBuf) == null then EINVAL else ENOMEM) &&
        unchanged(this) && unchanged(stackBuf)
      ensures newSize > BUFSIZE && !allocFails ==>
        r == 1 && err == None && heapBuf != null && fresh(heapBuf) && capacity == newSize &&
        count == old(count) && Elems() == old(Elems()) && unchanged(stackBuf)
      ensures newSize > BUFSIZE && !allocFails && old(heapBuf) != null ==>
        Slots()[..Min(old(capacity), newSize)] == old(Slots())[..Min(old(capacity), newSize)]
    {
      if newSize == 0 {
        return 0, Some(EINVAL);
      } else if newSize <= BUFSIZE {
        BackToStack(newSize);
        return 1, None;
      } else {
        r, err := ResizeHeap(newSize, allocFails);
      }
    }

    /** The branch of mc_vector_resize for 0 < `newSize` <= 10. */
    method BackToStack(newSize: nat)
      requires Owned() && 0 < newSize <= BUFSIZE
      requires heapBuf != null ==> newSize <= capacity
      modifies this, stackBuf
      ensures Owned() && heapBuf == null && capacity == BUFSIZE && count == newSize
      ensures Elems() == old(data[..newSize]) && stackBuf[newSize..] == old(stackBuf[newSize..])
    {
      if data == heapBuf {
        Memory.Copy(heapBuf, 0, stackBuf, 0, newSize);
        heapBuf := null;
      }
      data := stackBuf;
      capacity := BUFSIZE;
      count := newSize;
    }

    /** The branch of mc_vector_resize for `newSize` > 10. */
    method ResizeHeap(newSize: nat, allocFails: bool) returns (r: int, err: Option<Errno>)
      requires Owned() && BUFSIZE < newSize && count <= newSize
      modifies this
      ensures Owned()
      ensures allocFails ==>
        r == 0 && err == Some(if old(heapBuf) == null then EINVAL else ENOMEM) && unchanged(this)
      ensures !allocFails ==>
        r == 1 && err == None && heapBuf != null && fresh(heapBuf) && capacity == newSize &&
        count == old(count) && Elems() == old(Elems())
      ensures !allocFails && old(heapBuf) != null ==>
        Slots()[..Min(old(capacity), newSize)] == old(Slots())[..Min(old(capacity), newSize)]
    {
      if data == heapBuf {
        if allocFails {
          return 0, Some(ENOMEM);
        }
        var temp := new Long[newSize];
        Memory.Copy(heapBuf, 0, temp, 0, Min(heapBuf.Length, newSize));
        assert temp[..Min(capacity, newSize)] == heapBuf[..Min(capacity, newSize)];
        heapBuf := temp;
      } else {
        if allocFails {
          return 0, Some(EINVAL);
        }
        var temp := new Long[newSize];
        Memory.Copy(stackBuf, 0, temp, 0, count);
        heapBuf := temp;
      }
      data := heapBuf;
      capacity := newSize;
      return 1, None;
    }

    /** mc_vector_shrink: `Resize(count)`; an empty vector is rejected. */
    method Shrink(allocFails: bool) returns (r: int, err: Option<Errno>)
      requires Owned()
      modifies this, stackBuf
      ensures Owned() && Elems() == old(Elems())
      ensures old(count) == 0 ==> r == 0 && err == Some(EINVAL) && unchanged(this)
      ensures 0 < old(count) <= BUFSIZE ==> r == 1 && err == None && heapBuf == null && capacity == BUFSIZE
      ensures old(count) > BUFSIZE && !allocFails ==> r == 1 && err == None && capacity == count
      ensures old(count) > BUFSIZE && allocFails ==> r == 0 && err == Some(ENOMEM) && unchanged(this)
      ensures 0 < old(count) <= BUFSIZE ==> stackBuf[count..] == old(stackBuf[count..])
      ensures old(count) == 0 || old(count) > BUFSIZE ==> unchanged(stackBuf)
    {
      r, err := Resize(count, allocFails);
    }

    /**
     * mc_vector_clear: empties the vector. A vector on its heap buffer
     * releases it and returns to the inline buffer with a capacity of 10; a
     * vector already on its inline buffer keeps its capacity.
     */
    method Clear() returns (r: int, err: Option<Errno>)
      requires Owned()
      modifies this
      ensures Owned() && r == 1 && err == None
      ensures count == 0 && heapBuf == null && data == stackBuf
      ensures capacity == if old(heapBuf) != null then BUFSIZE else old(capacity)
    {
      if data == heapBuf {
        heapBuf := null;
        data := stackBuf;
        capacity := BUFSIZE;
      }
      count := 0;
      return 1, None;
    }
  }

  /** mc_vector_size: the number of live elements; 0 with EFAULT for NULL. */
  function Size(v: Vector?): (r: Reply<nat>)
    reads v, if v == null then {} else {v.data}
    requires v != null ==> v.Valid()
    ensures v == null ==> r == Reply(0, Some(EFAULT))
    ensures v != null ==> r == Reply(|v.Elems()|, None)
  {
    if v == null then Reply(0, Some(EFAULT)) else Reply(v.count, None)
  }

  /** mc_vector_capacity: the number of addressable slots; 0 with EFAULT for NULL. */
  function Capacity(v: Vector?): (r: Reply<nat>)
    reads v, if v == null then {} else {v.data}
    requires v != null ==> v.Valid()
    ensures v == null ==> r == Reply(0, Some(EFAULT))
    ensures v != null ==> r == Reply(|v.Slots()|, None) && |v.Elems()| <= r.value
  {
    if v == null then Reply(0, Some(EFAULT)) else Reply(v.capacity, None)
  }

  /** mc_vector_empty: whether nothing is live; a NULL handle counts as empty. */
  function Empty(v: Vector?): (r: Reply<bool>)
    reads v, if v == null then {} else {v.data}
    requires v != null ==> v.Valid()
    ensures v == null ==> r == Reply(true, Some(EFAULT))
    ensures v != null ==> r.errno == None && (r.value <==> v.Elems() == [])
  {
    if v == null then Reply(true, Some(EFAULT)) else Reply(v.count == 0, None)
  }

  /**
   * mc_vector_is_stack: whether the buffer in use is not the heap buffer.
   * On a vector that owns its buffer this is "uses the inline buffer", and
   * a vector holding more than 10 elements never does.
   */
  function IsStack(v: Vector?): (r: Reply<bool>)
    reads v
    ensures v == null ==> r == Reply(false, Some(EFAULT))
    ensures v != null ==> r.errno == None
    ensures v != null && v.Owned() ==> (r.value <==> v.data == v.stackBuf)
    ensures v != null && v.Owned() && v.count > BUFSIZE ==> !r.value
  {
    if v == null then Reply(false, Some(EFAULT)) else Reply(v.data != v.heapBuf, None)
  }

  /**
   * mc_vector_get: reads any addressable slot (bounds are checked against
   * the capacity, not the count), so it also reads slots past the live end.
   */
  function Get(v: Vector?, index: nat): (r: Result<Long>)
    reads v, if v == null then {} else {v.data}
    requires v != null ==> v.Valid()
    ensures v == null ==> r == Err(EFAULT)
    ensures v != null ==> (r.Ok? <==> index < |v.Slots()|)
    ensures v != null && r.Ok? ==> r.value == v.Slots()[index]
    ensures v != null && r.Err? ==> r.errno == EINVAL
    ensures v != null && index < |v.Elems()| ==> r == Ok(v.Elems()[index])
  {
    if v == null then Err(EFAULT)
    else if index >= v.capacity then Err(EINVAL)
    else Ok(v.data[index])
  }

  /** mc_vector_get_unchecked: `Get`, with LONG_MAX in place of every failure. */
  function GetUnchecked(v: Vector?, index: nat): (r: Long)
    reads v, if v == null then {} else {v.data}
    requires v != null ==> v.Valid()
    ensures r == match Get(v, index) case Ok(x) => x case Err(_) => LONG_MAX
  {
    if v == null || index >= v.capacity then LONG_MAX else v.data[index]
  }

  /**
   * The block move of mc_vector_erase and mc_vector_remove on a buffer with
   * `n` live slots: `len` slots from `index + k` moved onto `index`, which
   * erases `k` elements whether it moves the tail or one slot more.
   */
  method CloseGap(a: array<Long>, n: nat, index: nat, k: nat, len: nat)
    requires index + k <= n && index + k + len <= a.Length
    requires len == n - index - k || len == n - index
    modifies a
    ensures a[..] == Memory.Moved(old(a[..]), index, index + k, len)
    ensures a[..n - k] == EraseRange(old(a[..n]), index, k)
  {
    ghost var b := a[..];
    Memory.Move(a, index, index + k, len);
    ShiftLeft(b, n, index, k, len);
    assert b[..n] == old(a[..n]);
  }

  /** The block move and the store of mc_vector_insert away from the last index, on a buffer with `n` live slots. */
  method OpenSlot(a: array<Long>, n: nat, index: nat, value: Long)
    requires index < n < a.Length
    modifies a
    ensures a[..n + 1] == InsertAt(old(a[..n]), index, value)
    ensures a[n + 1..] == old(a[n + 1..])
  {
    ghost var b := a[..];
    Memory.Move(a, index + 1, index, n - index);
    ghost var m := a[..];
    a[index] := value;
    ShiftRightThenWrite(b, m, a[..], n, index, value);
  }

  /** The two block moves of mc_vector_inserts away from the last index, on a buffer with `n` live slots. */
  method OpenRange(a: array<Long>, n: nat, index: nat, src: array<Long>, length: nat)
    requires index <= n && n + length <= a.Length
    requires src != a && length <= src.Length
    modifies a
    ensures a[..n + length] == InsertRange(old(a[..n]), index, src[..length])
    ensures a[n + length..] == old(a[n + length..])
  {
    ghost var b := a[..];
    Memory.Move(a, index + length, index, n - index);
    CopyIntoGap(a, b, n, index, src, length);
  }

  /** The copy of OpenRange once the tail of `b` has been moved `length` slots right. */
  method CopyIntoGap(a: array<Long>, ghost b: seq<Long>, n: nat, index: nat, src: array<Long>, length: nat)
    requires index <= n && n + length <= |b| == a.Length
    requires src != a && length <= src.Length
    requires a[..] == Memory.Moved(b, index + length, index, n - index)
    modifies a
    ensures a[..n + length] == InsertRange(b[..n], index, src[..length])
    ensures a[n + length..] == b[n + length..]
  {
    ghost var m := a[..];
    Memory.Copy(src, 0, a, index, length);
    ShiftRightThenCopy(b, m, a[..], n, index, src[0..length]);
    assert src[0..length] == src[..length];
  }

  /** The single copy of mc_vector_inserts at the last index `n - 1`: no shift, the last element is overwritten. */
  method CopyOver(a: array<Long>, n: nat, src: array<Long>, length: nat)
    requires 0 < n && n + length <= a.Length
    requires src != a && length <= src.Length
    modifies a
    ensures a[..n + length] == old(a[..n - 1]) + src[..length] + [old(a[n - 1 + length])]
    ensures a[n + length..] == old(a[n + length..])
  {
    ghost var b, t := a[..], src[..length];
    assert src[0..length] == t;
    Memory.Copy(src, 0, a, n - 1, length);
    CopyOverLast(b, n, t);
    assert a[..][..n + length] == a[..n + length];
  }

  /*
   * What the buffer holds after the block moves of insert, inserts, remove
   * and erase, stated on the sequence of all its slots: `b` before the
   * moves, `n` the live count before the call.
   */

  /** memmove one slot right from `i` (giving `m`), then a store at `i` (giving `w`): the insert of `x`. */
  lemma ShiftRightThenWrite<T>(b: seq<T>, m: seq<T>, w: seq<T>, n: nat, i: nat, x: T)
    requires i < n < |b|
    requires m == Memory.Moved(b, i + 1, i, n - i)
    requires w == m[i := x]
    ensures w[..n + 1] == InsertAt(b[..n], i, x)
  {
  }

  /** memmove of the tail `|t|` slots right from `i` (giving `m`), then `t` copied in at `i` (giving `w`): the insert of `t`. */
  lemma ShiftRightThenCopy<T>(b: seq<T>, m: seq<T>, w: seq<T>, n: nat, i: nat, t: seq<T>)
    requires i <= n && n + |t| <= |b|
    requires m == Memory.Moved(b, i + |t|, i, n - i)
    requires w == Memory.Written(m, i, t)
    ensures w[..n + |t|] == InsertRange(b[..n], i, t)
  {
  }

  /** `t` copied in at the last live index with no shift: the last element is overwritten. */
  lemma CopyOverLast<T>(b: seq<T>, n: nat, t: seq<T>)
    requires 0 < n && n + |t| <= |b|
    ensures Memory.Written(b, n - 1, t)[..n + |t|] == b[..n][..n - 1] + t + [b[n - 1 + |t|]]
  {
  }

  /** memmove of `len` slots from `i + k` onto `i`: the erase of `k` elements at `i`. */
  lemma ShiftLeft<T>(b: seq<T>, n: nat, i: nat, k: nat, len: nat)
    requires i + k <= n && i + k + len <= |b|
    requires len == n - i - k || len == n - i
    ensures Memory.Moved(b, i, i + k, len)[..n - k] == EraseRange(b[..n], i, k)
  {
  }
}
