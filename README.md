# mc_vector in Dafny

A model of `vector.c`, a C library for a growable vector of `long` with a
small-buffer optimisation. A vector (`struct vector_s`) has:

- a live count and a capacity;
- a 10-slot inline buffer (`MC_VECTOR_BUFSIZE`);
- an optional heap buffer;
- a field `data` that points at whichever buffer is in use.

Elements stay in the inline buffer until a push or an insert fills the
capacity. They then move to a heap buffer of twice the capacity plus the room
asked for. `resize`, `shrink` and `clear` can give the heap buffer back.

Files and modules:

- `ctypes.dfy` (`CTypes`): the element type `long` as a 64-bit newtype,
  `LONG_MIN`/`LONG_MAX`, and the truncations a `size_t` undergoes when returned
  as `short` or `int`.
- `sequences.dfy` (`SeqModel`): the meaning of every mutating operation on the
  live contents, as functions on sequences, with lemmas that relate them (an
  insert undone by a remove, a run of pushes undone by pops).
- `memory.dfy` (`Memory`): `memcpy` and `memmove` as block moves on arrays.
- `vector.dfy` (`McVector`): the vector as a class whose methods update its
  fields and buffers in place, and the read-only queries as functions.
- `scenarios.dfy` (`Scenarios`): client programs stating round trips at the
  level of the vector's state, and concrete runs that pin down edge cases.

### The model

`Vector.Elems()` is `data[..count]`, the live contents. `Vector.Slots()` is
`data[..capacity]`, every addressable slot.

- Each mutator's postcondition gives the new `Elems()` as a `SeqModel`
  function of the old one, for example `InsertAt`, `RemoveAt`, `InsertRange`
  or `EraseRange`. It also gives the new count and capacity, the return value
  and the errno code.
- Errors are the `Errno` datatype (`EFAULT`, `EINVAL`, `ENOBUFS`, `ENOMEM`),
  returned beside the result instead of being stored in a global.
- Whether `malloc`/`realloc` fails is a parameter, `allocFails`.

Two invariants are kept:

- `Valid()`: the sizes are consistent (`0 < capacity`, and
  `count <= capacity <=` the buffer's length).
- `Owned()`: `Valid()`, plus the vector uses its own buffer. That is the
  inline one when no heap buffer is attached, otherwise the heap buffer, whose
  size is the capacity.

`swap` exchanges only count, capacity and `data`, as the code does, so after a
swap only `Valid()` is guaranteed. Operations that allocate or free (push,
insert, inserts, resize, shrink, clear) require `Owned()`. The others require
`Valid()`, and keep `Owned()` when it held.

### Where the code differs from its documentation

The model follows the code.

- The header says that `mc_vector_empty(NULL)` returns 0 (vector.h:288). The
  code returns 1 (vector.c:267). `Empty` returns true.
- The file's opening comment says a capacity is never below 10
  (vector.c:9-11), but it can be:
  - `from_array` sets the capacity to exactly `2 * length`, so a 1- to
    4-element array gives a capacity of 2 to 8 on the inline buffer
    (`FromArrayBelowTen`).
  - A push on such a vector then moves it to a heap buffer of
    `2 * capacity + 1` slots, which can be as small as 5
    (`HeapCapacityBelowTen`).
- `insert` at the last index appends after the last element
  (`InsertAtLastIndexAppends`).
- `inserts` at the last index does not shift. It overwrites the last element,
  and the slot just past the copied run, which held no element, becomes the
  last live element (`InsertsAtLastIndexOverwrites`).
- Insert at the last index followed by remove at the same index does not
  restore the contents. It leaves them as before except that the old last
  element is replaced by the inserted value (`InsertAtLastThenRemove`).
- The header documents that `inserts` returns 1 on success (vector.h:360).
  The code returns `length`, narrowed to a `short` (vector.c:394).
- `erase` rejects any range that reaches the last element, so a suffix cannot
  be erased (`EraseSuffixRejected`).
- `resize(n)` with `n <= 10` sets the count to `n`, even when that exposes
  slots that held no element (`ResizeSetsCount`). With `n > 10` it keeps the
  count.
- `resize` reports a failed `malloc` as EINVAL and a failed `realloc` as
  ENOMEM.
- The header says that `shrink` makes the capacity equal to the size
  (vector.h:447-448). `shrink` is `resize(count)` (vector.c:485-487), so a
  vector with at most 10 elements ends on its inline buffer with capacity 10.
- `remove` of a last element equal to `LONG_MIN` removes it but returns 0
  with no errno (`RemoveLongMin`).
- After `swap`, `is_stack` reports on each vector whether its buffer is its
  own heap buffer, not whether it is an inline buffer
  (`SwapMisreportsBuffer`).

## Model

| member | source | states |
|---|---|---|
| `CTypes.AsShort` | vector.c:394 | the `short` a count is returned as: within 16-bit range, congruent to the count modulo 2^16, equal to it below 2^15 |
| `CTypes.AsInt` | vector.c:200 | the `int` a count is returned as: within 32-bit range, congruent modulo 2^32, equal below 2^31 |
| `SeqModel.Repeat` | vector.c:118-120 | `n` elements, every one equal to `x` |
| `SeqModel.InsertAt` | vector.c:363-366 | one element longer; prefix before `i` kept, `x` at `i`, the rest one place right |
| `SeqModel.RemoveAt` | vector.c:414-415 | one element shorter; prefix kept, everything after `i` one place left |
| `SeqModel.InsertRange` | vector.c:388-393 | longer by the length of `t`; the prefix before `i`, then `t`, then the old suffix from `i` |
| `SeqModel.EraseRange` | vector.c:432-434 | shorter by `n`; prefix kept, everything after the range `n` places left |
| `SeqModel.FillRange` | vector.c:476-478 | same length; exactly the positions in `[i, i+n)` hold `x`, all others unchanged |
| `SeqModel.Pops` | vector.c:338 | `n` pops return the elements from the end inward: the `j`-th value returned is the `j`-th element counted from the end |
| `SeqModel.PopsStep` | vector.c:338 | one pop more than `n` returns, last, the element `n` places from the end |
| `SeqModel.InsertThenRemove` | vector.c:344-369 | a remove at the index of an insert restores the original sequence |
| `SeqModel.InsertRangeThenErase` | vector.c:371-395 | erasing the elements of `t` inserted at `i` restores the original sequence |
| `SeqModel.RemoveIsEraseOfOne` | vector.c:414 | removing at `i` equals erasing a range of one at `i` |
| `SeqModel.PushesThenPops` | vector.c:312-340 | after pushing `xs`, as many pops return `xs` reversed and the contents are the original again |
| `Memory.Copy` | vector.c:391 | memcpy: the destination range holds the source range, every other destination slot unchanged |
| `Memory.Move` | vector.c:363 | memmove: the destination range holds the source range as it was before the move, even when they overlap |
| `McVector.NewCapacity` | vector.c:290-292 | growth happens when `count + len` reaches the capacity (`>=`); the capacity never shrinks, and afterwards `count + len` is strictly below it |
| `McVector.Vector.constructor` | vector.c:94-100 | an empty vector on its own inline buffer with capacity 10 |
| `McVector.Vector.Make` | vector.c:69-103 | capacity 0 gives EINVAL and allocation failure ENOBUFS; otherwise count 0, capacity `max(c, 10)`, heap buffer exactly when `c > 10` |
| `McVector.Vector.MakeFilled` | vector.c:105-124 | rejected with EINVAL unless `0 < length <= capacity`; otherwise the contents are `length` copies of `value` |
| `McVector.Vector.Clone` | vector.c:126-143 | NULL gives EFAULT; otherwise a fresh vector with the same capacity and contents, on the heap exactly when the capacity exceeds 10 |
| `McVector.Vector.FromArray` | vector.c:145-168 | NULL gives EFAULT and length 0 EINVAL; otherwise contents `src[..length]` and capacity exactly `2 * length`, on the inline buffer when that is at most 10 |
| `McVector.Vector.Extract` | vector.c:185-201 | rejects an empty or out-of-range range; otherwise the buffer starts with the live range and keeps the rest, and the length is returned as an `int` |
| `McVector.Vector.ToArray` | vector.c:181-183 | the whole contents copied out, with an empty vector rejected with EINVAL |
| `McVector.Vector.Set` | vector.c:229-242 | within the count, exactly one slot changes; otherwise EINVAL and nothing changes |
| `McVector.Vector.EnsureCapacity` | vector.c:286-309 | nothing changes below the trigger or on failure; otherwise a heap buffer of `NewCapacity` slots keeping every old slot, with `count + len` below the new capacity |
| `McVector.Vector.Push` | vector.c:312-325 | appends the value, growing by `NewCapacity` onto a heap buffer when the trigger is reached; below the trigger the same buffers, with only slot `count` written; on allocation failure ENOMEM and nothing changes; the inline buffer it leaves is untouched |
| `McVector.Vector.Pop` | vector.c:327-340 | returns and removes the last element; an empty vector gives `LONG_MIN` and ENOMEM and stays empty |
| `McVector.Vector.Insert` | vector.c:344-369 | index at or past the count gives EINVAL; at the last index the value is appended; otherwise `InsertAt`; capacity by `NewCapacity`, a heap buffer after growth and the same buffers below the trigger (slots past the new count untouched); the inline buffer it leaves is untouched |
| `McVector.Vector.Inserts` | vector.c:371-395 | bounds checked against the capacity; away from the last index the contents become `InsertRange`; at the last index the last element is overwritten and the old slot past the run becomes last; a heap buffer after growth and the same buffers below the trigger (slots past the new count untouched); the inline buffer it leaves is untouched |
| `McVector.Vector.OpenAndCopy` | vector.c:388-393 | the block moves of inserts: `InsertRange` away from the last index, overwrite of the last element at it, count up by `length`; slots from the new count on untouched |
| `McVector.OpenSlot` | vector.c:363-365 | a memmove right by one then a store: the buffer's live prefix becomes `InsertAt` of the old one; slots past the new live prefix untouched |
| `McVector.OpenRange` | vector.c:388-391 | a memmove right by `length` then a memcpy: the buffer's live prefix becomes `InsertRange` of the old one; slots past the new live prefix untouched |
| `McVector.CopyIntoGap` | vector.c:391 | the memcpy into the gap a right shift left open completes `InsertRange`; slots past the new live prefix untouched |
| `McVector.CopyOver` | vector.c:391 | a memcpy at the last index with no shift: the last element is overwritten and the slot after the run is kept; the kept slot and every slot after it untouched |
| `McVector.CopyOverLast` | vector.c:391 | a copy of `t` over the last live element leaves the prefix before it and puts `t` in its place |
| `McVector.CloseGap` | vector.c:414 | the memmove of remove and erase: the whole buffer is the old one with `len` slots moved left by `k` onto `index`, and its live prefix becomes `EraseRange` of `k` elements |
| `McVector.Vector.Remove` | vector.c:400-418 | index at or past the count gives EINVAL; otherwise `RemoveAt`, returning 0 only for a last element equal to `LONG_MIN`; the whole buffer is the old one with `count - index` slots moved left onto `index`, so the slot just past the live end moves in, and at the last index it is unchanged |
| `McVector.Vector.Erase` | vector.c:420-436 | rejected unless `0 < length` and the range ends before the last element; otherwise `EraseRange` and the length as a `short`; the whole buffer is the old one with the tail after the range moved left onto `index` |
| `McVector.Vector.Swap` | vector.c:439-458 | NULL gives EFAULT; otherwise count, capacity and buffer in use are exchanged, so the contents are exchanged, and the heap buffer pointers stay put |
| `McVector.Vector.FillRange` | vector.c:464-481 | an empty or out-of-range range gives EINVAL; otherwise the contents become `SeqModel.FillRange`, and slots past the count are untouched |
| `McVector.Vector.Fill` | vector.c:460-462 | every live element becomes the value; an empty vector gives EINVAL; slots past the count untouched |
| `McVector.Vector.Resize` | vector.c:489-545 | 0 gives EINVAL; up to 10 the vector is back on its inline buffer with capacity 10, count `n` and the first `n` slots kept; above 10 a heap buffer of exactly `n` slots, count and contents kept, malloc failure EINVAL and realloc failure ENOMEM |
| `McVector.Vector.BackToStack` | vector.c:500-512 | the small branch of resize: inline buffer, capacity 10, count `n`, first `n` slots copied |
| `McVector.Vector.ResizeHeap` | vector.c:513-542 | the large branch of resize: a fresh heap buffer of `n` slots with the contents kept and, on realloc, every slot that fits kept |
| `McVector.Vector.Shrink` | vector.c:485-487 | contents kept; an empty vector gives EINVAL; up to 10 elements back to the inline buffer with its slots past the count kept, otherwise capacity equal to the count; the inline buffer unchanged outside the small branch |
| `McVector.Vector.Clear` | vector.c:547-563 | count 0 on the inline buffer; the capacity is reset to 10 only when a heap buffer was released |
| `McVector.Size` | vector.c:246-253 | the length of the contents; 0 with EFAULT for NULL |
| `McVector.Capacity` | vector.c:255-262 | the number of addressable slots, never below the count; 0 with EFAULT for NULL |
| `McVector.Empty` | vector.c:264-271 | true exactly when the contents are empty; true with EFAULT for NULL |
| `McVector.IsStack` | vector.c:273-280 | on a vector that owns its buffer, true exactly when the inline buffer is in use, and false when more than 10 elements are live; false with EFAULT for NULL |
| `McVector.Get` | vector.c:206-219 | succeeds exactly for indices below the capacity with that slot's value, so within the count it reads the element; EINVAL past the capacity, EFAULT for NULL |
| `McVector.GetUnchecked` | vector.c:221-227 | the value `Get` would read, and `LONG_MAX` wherever `Get` fails |
| `McVector.ShiftRightThenWrite` | vector.c:363-365 | a memmove right by one from `i` followed by a store at `i` yields `InsertAt` on the live prefix |
| `McVector.ShiftRightThenCopy` | vector.c:389-391 | a memmove right by the length of `t` from `i` followed by a copy of `t` at `i` yields `InsertRange` on the live prefix |
| `McVector.ShiftLeft` | vector.c:432 | a memmove left by `k` onto `i` yields `EraseRange` of `k` elements on the live prefix, whether it moves the tail or one slot more (as remove does) |
| `Scenarios.PushThenPop` | vector.c:312-340 | a push then a pop returns the pushed value and leaves the contents as they were |
| `Scenarios.InsertThenRemoveRestores` | vector.c:344-418 | an insert before the last element, then a remove at the same index, leaves the contents as they were |
| `Scenarios.InsertsThenEraseRestores` | vector.c:371-436 | an inserts away from the last index, then an erase of the same range, leaves the contents as they were |
| `Scenarios.PushAll` | vector.c:312-325 | pushing the values of `xs` one by one, with every allocation succeeding, appends `xs` to the contents |
| `Scenarios.PopN` | vector.c:327-340 | `n` pops from a vector with at least `n` elements return `Pops` of the contents and leave all but the last `n` |
| `Scenarios.PushesThenPopsRestore` | vector.c:312-340 | pushing the values of `xs` one by one, then popping as many times, returns `xs` reversed and leaves the contents as they were |
| `Scenarios.InsertAtLastThenRemove` | vector.c:344-418 | insert at the last index followed by remove at the same index replaces the last element with the inserted value rather than restoring the contents |
| `Scenarios.GrowThenClearKeepsInline` | vector.c:296-305 | a push that moves an inline vector to the heap leaves the inline buffer untouched, so after clear every inline slot reads back its old value |
| `Scenarios.SetThenGet` | vector.c:206-242 | get reads back what set wrote, and every other slot reads as before |
| `Scenarios.SwapTwiceRestores` | vector.c:439-458 | two swaps give each vector back its own count, capacity and buffer, and ownership where it held |
| `Scenarios.FromArrayBelowTen` | vector.c:157-165 | `from_array` of three elements has capacity 6 on the inline buffer |
| `Scenarios.InsertAtLastIndexAppends` | vector.c:360-361 | insert at the last index of `[10, 20, 30]` gives `[10, 20, 30, 99]` |
| `Scenarios.InsertsAtLastIndexOverwrites` | vector.c:388-391 | inserts of two values at the last index of `[10, 20, 30]` overwrites the 30 |
| `Scenarios.InsertsInTheMiddle` | vector.c:388-393 | inserts of `[98, 97]` at index 1 of `[10, 20, 30]` gives `[10, 98, 97, 20, 30]` |
| `Scenarios.EraseSuffixRejected` | vector.c:426-429 | erasing the last two of three elements is rejected with EINVAL |
| `Scenarios.RemoveLongMin` | vector.c:411-412 | removing a sole `LONG_MIN` empties the vector yet returns 0 with no error |
| `Scenarios.HeapCapacityBelowTen` | vector.c:290-305 | a push onto a one-element `from_array` vector ends on a heap buffer of capacity 5 |
| `Scenarios.ResizeSetsCount` | vector.c:500-511 | resize to 5 of a three-element vector makes the count 5 and keeps the first three |
| `Scenarios.RemoveThenResizeExposesSlot` | vector.c:414 | after `remove(0)` on a vector on its inline buffer, a resize back to the old count makes the slot that was just past the live end the last element |
| `Scenarios.SwapMisreportsBuffer` | vector.c:439-458 | after swapping a stack vector and a heap vector, both report being on the inline buffer although neither uses its own |

## Left out

- `mc_vector_fprint`, `mc_vector_sprint` and `mc_vector_wprint` (vector.c:570-708), and the `_WIN32` shims they rely on: they do stream and string I/O.
- `mc_vector_free`: the model has no explicit deallocation. Releasing the heap buffer in `resize` and `clear` is modelled as detaching it (`heapBuf := null`).
- The NULL-vector branch of the mutators: a Dafny method receiver cannot be null. The NULL branch is modelled for the constructors, `swap` and every query.
- A NULL `out` argument of `mc_vector_get`: `Get` returns the value instead of writing it through `out`.
- `errno` as a process-wide global: each operation returns the code it would store.
- The allocator beyond success or failure: new buffers are fresh arrays, and address relocation by `realloc` is not modelled.
- `size_t` wrap-around: counts and capacities are unbounded naturals, so `2 * capacity + len` and `2 * length` never overflow, and neither do the `index + length` sums in the bounds checks of extract, inserts, erase and fill_range (vector.c:191, 380, 426, 470), which in C could wrap and let an out-of-range call through.
- Uninitialised memory: new buffers are zero-filled Dafny arrays. No contract relies on the value of a slot that was never written.
- Targets where `long` is 32 bits, such as the `_WIN32` targets that vector.c:38-40 provides for: `Long` has the 64-bit range of an LP64 target.
- The convenience macros of vector.h:62-114.
- Undefined behaviour, excluded by preconditions:
  - `inserts` with an index past the count;
  - `resize(n)` with `10 < n < count`;
  - `resize(n)` with `n <= 10` from a heap buffer smaller than `n`;
  - `remove` reading the slot past the buffer when the count equals the buffer size;
  - `to_array`, `fill` and `shrink` on NULL.
- Extract, ToArray and Inserts require the caller's buffer to differ from the vector's buffer in use. The code does not check for aliasing, and the model does not describe an aliased call.
- After `swap`, what later operations do with a vector that uses a buffer it does not own: only `Valid()` is guaranteed, and growth, `resize`, `shrink` and `clear` require `Owned()`.
