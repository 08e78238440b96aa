# Vector<T> in Dafny

This project models `Vector<T>`, a teaching-grade dynamic array. It keeps a buffer
`_elem`, a logical length `_size` and an allocated length `_capacity`. The model covers
construction (default, sized, copy, move), copy and move assignment, bounds-checked
indexing, `size`, `capacity`, `reserve`, `resize`, `push_back` and `pop_back`. It proves
each operation's effect on (elements, size, capacity), together with the laws that relate
the operations to each other.

It is organised in four modules:

- `VectorModel` (`vector_model.dfy`) is the value-level semantics. `Vec<T>` is either
  `Live(elems, capacity)` or `MovedFrom(size, capacity)`. `Live` holds the observable
  elements `[0, size)` of a vector that owns its buffer. `MovedFrom` is a vector whose
  buffer was taken by a move; it keeps its stale size and capacity fields. `Valid` is the
  class invariant `size <= capacity` of an owning vector; `Sound` admits moved-from
  vectors as well, and `Indexable` says which indices `operator[]` can test on them. The slots `[size, capacity)` are
  left out of the value: no operation reads one before writing it.
- `AsWritten` (`as_written.dfy`) holds the three code paths whose literal behaviour is
  defective (see Findings). Each comes with a concrete input that shows the defect, and
  with a lemma stating on which inputs the literal code and `VectorModel` agree.
- `VectorHeap` (`vector_heap.dfy`) is the heap object: a class with a nullable
  `array?<T>` buffer, where null is the moved-from state. The copy, reallocation and
  value-initialization loops are written out with their loop invariants. Every method
  is proved to act on its abstract value `Model()` exactly as `VectorModel` says. The
  default, sized and copy constructors and copy assignment are proved to install a
  freshly allocated buffer. `reserve`, `resize` and `push_back` are proved to keep the
  old buffer or install a fresh one. `CopiesAreIndependent` proves that a copy and its
  source do not share a buffer. No invariant over all live vectors is stated.
- `Demo` (`demo.dfy`) replays the driver's sequence on heap vectors of `int`.

`T()`, the value the container writes when it value-initializes a slot, is the explicit
parameter `init` of the operations that write it (the sized constructor and `resize`).

### Facts of the code the model keeps

- A default vector has capacity 1, and `Vector(n)` for n > 0 has capacity exactly `n`.
- `resize(0)` on an empty vector leaves capacity 0. Capacity 0 is therefore a reachable
  state, and `Valid` only requires `size <= capacity`. The corrected `push_back` grows
  such a vector to one slot.
- `operator[]` takes its index as type `T` and returns an `std::out_of_range` temporary
  as `T&`. The model implements the intended behaviour instead: a `nat` index, and an
  explicit `OutOfRange` error result (`VectorModel.Index`, `VectorModel.Store`).

## Model

| member | source | states |
|---|---|---|
| VectorModel.Empty | Vector/Vector.h:42-47 | the default vector is valid and empty, with exactly one allocated slot |
| VectorModel.WithSize | Vector/Vector.h:49-64 | `Vector(n)` is valid with size n, capacity max(n, 1), and every element equal to `T()` |
| VectorModel.SizedZeroIsDefault | Vector/Vector.h:52-56 | `Vector(0)` is the same vector as `Vector()` |
| VectorModel.Size | Vector/Vector.h:137-141 | `size()` of an owning vector never exceeds its capacity; a moved-from vector reports its stale size field |
| VectorModel.Copy | Vector/Vector.h:66-74 | a copy of an owning vector, or of a moved-from vector of size 0, is an owning vector with the source's size and capacity that reads the same as the source at every index |
| VectorModel.CopySelfIsIdentity | Vector/Vector.h:93-107 | the value a copy produces from an owning vector is that vector, so copying a value onto itself changes nothing; the `this == &rhs` short-circuit itself is stated by `VectorHeap.Vector.CopyAssign` |
| VectorModel.Move | Vector/Vector.h:76-83 | the destination takes the source's size, capacity and elements, and is itself moved-from when the source already was; the source becomes moved-from (not valid) but keeps its size and capacity fields |
| VectorModel.MoveDestinationIsCopy | Vector/Vector.h:77-83 | the destination of a move is indistinguishable from a deep copy of the source |
| VectorModel.MoveThereAndBack | Vector/Vector.h:109-123 | moving a vector out and back restores it, and leaves the intermediate holder moved-from with the original size and capacity |
| VectorModel.Index | Vector/Vector.h:126-135 | a read succeeds exactly when the index is below the size and yields that element; otherwise it is an out-of-range error, which is also what a moved-from vector gives for every index at or above its stale size |
| VectorModel.Store | Vector/Vector.h:126-135 | a write through the returned reference succeeds exactly when the index is below the size, and only on an owning vector; slot i then reads back x and every other index, the size and the capacity are unchanged; a moved-from vector gives an out-of-range error at or above its stale size |
| VectorModel.StoreWhatWasRead | Vector/Vector.h:127-131 | writing back the element just read leaves the vector unchanged |
| VectorModel.StoreTwice | Vector/Vector.h:127-131 | of two writes to the same slot only the second is visible |
| VectorModel.Reserve | Vector/Vector.h:174-189 | reserve keeps the elements and validity; the capacity becomes max(c, capacity); a request that does not exceed the capacity changes nothing |
| VectorModel.ReserveIdempotent | Vector/Vector.h:177-187 | reserving the same amount twice equals reserving it once |
| VectorModel.ReserveComposes | Vector/Vector.h:174-189 | reserve(a) then reserve(b) equals reserve(max(a, b)) |
| VectorModel.Resize | Vector/Vector.h:149-172 | after resize(n) the size is n, indices below the old size keep their elements and the new ones hold `T()`; capacity is kept when shrinking (the corrected path, see Findings) or growing within it, and is exactly n otherwise |
| VectorModel.ResizeBack | Vector/Vector.h:149-172 | growing by resize and resizing back to the old size restores the elements |
| VectorModel.GrowthTarget | Vector/Vector.h:194-197 | the capacity requested by a full push_back always leaves room for one more element: twice the size, and one slot for an empty vector (the corrected path, see Findings) |
| VectorModel.PushBack | Vector/Vector.h:191-200 | push_back appends exactly the pushed element; capacity is unchanged when there is room and is exactly twice the old size otherwise, one slot when empty (the corrected path, see Findings) |
| VectorModel.PopBack | Vector/Vector.h:202-207 | pop_back on a vector of size > 0 lowers the size by one and keeps the capacity; an owning vector stays valid and keeps every remaining element, and a moved-from one stays moved-from with its stale size decremented |
| VectorModel.PopUndoesPush | Vector/Vector.h:191-207 | after push_back(a) the element at the old size is a, and pop_back restores the old elements |
| VectorModel.PushUndoesPop | Vector/Vector.h:191-207 | pushing back the element pop_back removed restores the vector exactly, capacity included |
| VectorModel.GrownCapacity | Vector/Vector.h:194-197 | the capacity reached when n elements must fit is never below the starting capacity or n, and is the starting capacity when n already fits |
| VectorModel.PushAll | Vector/Vector.h:191-200 | any sequence of push_back calls keeps the vector valid, appends exactly the pushed elements in order, never lowers the capacity, and ends at exactly `GrownCapacity(capacity, size + count)` from any starting vector |
| VectorModel.ResizeIsRepeatedPush | Vector/Vector.h:149-200 | growing by k with resize yields the same elements as k push_backs of `T()` |
| VectorModel.PushBackKeepsTight | Vector/Vector.h:194-199 | if the capacity is the least power of two holding the elements, it still is after push_back |
| VectorModel.PushAllKeepsTight | Vector/Vector.h:191-200 | the doubling policy keeps the capacity the least power of two holding the elements across any sequence of push_backs |
| VectorModel.PushesFromEmptyAreTight | Vector/Vector.h:42-47 | from a default vector, any number of push_backs leaves the capacity at the least power of two that holds the elements |
| AsWritten.DecrementSize | Vector/Vector.h:206 | the literal `--_size` is a decrement modulo 2^64 |
| AsWritten.PopBackAsWrittenAgrees | Vector/Vector.h:203-207 | on a vector of size > 0, owning or moved-from, the literal decrement gives the size of the model's pop_back |
| AsWritten.PopBackOnEmptyUnderflows | Vector/Vector.h:206 | pop_back on a default vector sets the size to 2^64 - 1, above the capacity |
| AsWritten.CopyLoop | Vector/Vector.h:159-162 | the element-by-element copy into a new buffer succeeds exactly when the buffer has room for every copied element; it then holds them in order, and otherwise the first store out of bounds is at the buffer's length |
| AsWritten.ResizeAsWritten | Vector/Vector.h:150-172 | the literal resize writes out of bounds exactly when the new size is below the current size |
| AsWritten.ResizeAsWrittenAgrees | Vector/Vector.h:150-172 | for every new size not below the current one the literal resize and the model's resize agree |
| AsWritten.ResizeShrinkWritesOutOfBounds | Vector/Vector.h:159-161 | shrinking a two-element vector to one element stores past a one-slot buffer, where the model keeps the buffer and the first element |
| AsWritten.PushBackAsWritten | Vector/Vector.h:192-200 | the literal push_back writes out of bounds exactly when the capacity is zero |
| AsWritten.PushBackAsWrittenAgrees | Vector/Vector.h:192-200 | with at least one allocated slot the literal push_back and the model's push_back agree |
| AsWritten.PushBackAfterResizeZeroWritesOutOfBounds | Vector/Vector.h:194-198 | resize(0) on a default vector leaves capacity 0, after which the literal push_back stores past the buffer while the model's allocates one slot |
| VectorHeap.AllocFilled | Vector/Vector.h:60-62 | a fresh buffer of n slots all holding `T()` |
| VectorHeap.AllocCopy | Vector/Vector.h:70-73 | a fresh buffer of the requested length whose first count slots equal the source's |
| VectorHeap.FillRange | Vector/Vector.h:153-155 | value-initializes exactly the slots [lo, hi) and leaves every other slot as it was |
| VectorHeap.Vector.Default | Vector/Vector.h:42-47 | the default constructor yields a valid vector whose value is `VectorModel.Empty`, in a fresh buffer |
| VectorHeap.Vector.WithSize | Vector/Vector.h:49-64 | the sized constructor yields a valid vector whose value is `VectorModel.WithSize(n, T())`, in a fresh buffer |
| VectorHeap.Vector.Copy | Vector/Vector.h:66-74 | the copy constructor yields a valid vector whose value is a deep copy of the source's, in a freshly allocated buffer; a moved-from source of size 0 is accepted and its null buffer is not read |
| VectorHeap.Vector.Move | Vector/Vector.h:76-83 | the move constructor takes the source's buffer itself, with its size and capacity; the source's buffer becomes null while its size and capacity fields stay |
| VectorHeap.Vector.CopyAssign | Vector/Vector.h:93-107 | self-assignment changes nothing; otherwise the target is valid and holds a deep copy of the source's value (an owning source, or a moved-from one of size 0) in a freshly allocated buffer, and the source is untouched |
| VectorHeap.Vector.MoveAssign | Vector/Vector.h:110-123 | self-move changes nothing; otherwise the target takes the source's buffer, size and capacity, and the source's buffer becomes null while its size and capacity stay |
| VectorHeap.Vector.Size | Vector/Vector.h:137-141 | `size()` of the heap vector is the size of its abstract value, moved-from or not |
| VectorHeap.Vector.Capacity | Vector/Vector.h:143-147 | `capacity()` of the heap vector is the capacity of its abstract value, moved-from or not |
| VectorHeap.Vector.Get | Vector/Vector.h:127-135 | a read of the heap vector, owning or moved-from, is the model's Index on its value |
| VectorHeap.Vector.Set | Vector/Vector.h:127-135 | a write through the reference, on an owning or a moved-from vector, is the model's Store and keeps the buffer; out of range nothing changes |
| VectorHeap.Vector.Reserve | Vector/Vector.h:175-189 | reserve acts as the model's Reserve, reallocating into a fresh buffer exactly when growing and otherwise keeping the buffer |
| VectorHeap.Vector.Resize | Vector/Vector.h:150-172 | resize acts as the model's Resize, in place or into a fresh buffer |
| VectorHeap.Vector.PushBack | Vector/Vector.h:192-200 | push_back acts as the model's PushBack, keeping its buffer or installing a fresh one |
| VectorHeap.Vector.PopBack | Vector/Vector.h:203-207 | pop_back, on an owning or a moved-from vector, acts as the model's PopBack, keeping the buffer (null when moved-from) and every slot in it |
| VectorHeap.CopiesAreIndependent | Vector/Vector.h:67-74 | a copy's buffer is not the source's: a write into the copy and a write into the source at the same index are each seen only by the vector written |
| Demo.Scenario | Vector/main.cpp:8-20 | the driver's sequence gives (size, capacity) (4,4), (0,1), (4,4), (5,8), (4,8), the element 999 at index 4 after the push, and both vectors end as 0 0 0 0 |

The observer `capacity()` is the `capacity` field of a `Vec` at the value level. A
moved-from vector still reports its old size and capacity, as `VectorModel.Move` states.

## Left out

- `operator<<`: stream output, used only for diagnostic rendering.
- The destructor: `delete[]` and its console logging. The buffer's release is not
  modelled because Dafny's heap is garbage-collected.
- `std::move` of single elements inside `resize` and `reserve`: modelled as plain value
  assignment, because element move semantics belong to `T`.
- Amortised complexity and the number of reallocations: no line of the code promises
  them. What is proved instead is the exact capacity after any sequence of `push_back`
  calls from any valid vector (`VectorModel.PushAll`, in terms of
  `VectorModel.GrownCapacity`), and that it is the least power of two holding the
  elements from a default vector (`VectorModel.PushesFromEmptyAreTight`).
- The console output of the driver: `Demo.Scenario` returns the observations instead.
- Integer widths: sizes and capacities are unbounded `nat`s. The only exception is the
  literal `pop_back` decrement, where wrap-around is the defect. Overflow of
  `2 * _size` needs more than 2^63 elements and is not modelled.
- Allocation failure: it is fatal in the code and does not appear in the model.
- The contents of allocated but unwritten slots: they are never observed, so no value
  is given to them.
- VectorModel.Copy, VectorHeap.Vector.Copy, VectorHeap.Vector.CopyAssign: a moved-from
  source of size greater than 0 is excluded. The code would read its null buffer, which
  is undefined behaviour.
- VectorModel.Index, VectorModel.Store, VectorHeap.Vector.Get, VectorHeap.Vector.Set: an
  index below the stale size of a moved-from vector is excluded. The bounds test passes
  there and the code dereferences its null buffer, which is undefined behaviour.
- VectorModel.PopBack, VectorHeap.Vector.PopBack: a vector of size 0 is excluded; the
  code's wrap-around there is the defect modelled by `AsWritten.PopBackOnEmptyUnderflows`.
- VectorModel.Reserve: requires a vector that owns its buffer. The code also reserves on
  a moved-from vector of size 0 (it copies nothing and installs a new buffer); that case
  is not modelled.
- VectorHeap.Vector.Reserve: requires a vector that owns its buffer, for the same reason
  as `VectorModel.Reserve`.
- VectorModel.Resize: requires a vector that owns its buffer. On a moved-from vector of
  size 0, the code's reallocating branch would install a new buffer, while the in-place
  branch writes through null. Only owning vectors are modelled.
- VectorHeap.Vector.Resize: requires a vector that owns its buffer, for the same reason
  as `VectorModel.Resize`.
- VectorModel.PushBack: requires a vector that owns its buffer. On a moved-from vector
  the code either writes through the null buffer or, when it reserves first, copies
  from it, so no behaviour is modelled there.
- VectorHeap.Vector.PushBack: requires a vector that owns its buffer, for the same reason
  as `VectorModel.PushBack`.

## Findings

| source | as written | input that shows it | evidently intended | confidence | as-written member | corrected member |
|---|---|---|---|---|---|---|
| Vector/Vector.h:206 | `--_size` with no guard wraps to 2^64 - 1 on an empty vector | `Vector<T> v; v.pop_back();` gives size 2^64 - 1 with capacity 1 | pop_back is only called on a non-empty vector, and size never exceeds capacity | high (not executed) | AsWritten.PopBackOnEmptyUnderflows | VectorModel.PopBack |
| Vector/Vector.h:157-161 | a shrinking resize allocates `size` slots and copies `_size > size` elements into them | `Vector<T> v(2); v.resize(1);` stores element 1 into a one-slot buffer | shrinking only lowers the size and keeps the buffer | high (not executed) | AsWritten.ResizeShrinkWritesOutOfBounds | VectorModel.Resize |
| Vector/Vector.h:194-198 | growth by `reserve(2 * _size)` requests 0 slots when the size is 0, and then `_elem[0]` is written | `Vector<T> v; v.resize(0); v.push_back(a);` writes slot 0 of a zero-slot buffer | a full empty vector grows to at least one slot | high (not executed) | AsWritten.PushBackAfterResizeZeroWritesOutOfBounds | VectorModel.PushBack |
