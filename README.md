# advanced-vector in Dafny

A model of `advanced-vector/vector.h`, a hand-written dynamic array in two layers:

- `RawMemory` owns a block of `capacity` uninitialised slots. The block is null exactly when the
  capacity is 0. It can be moved (the source is left empty) and swapped in constant time, and its
  slots are addressed by index.
- `Vector` owns one `RawMemory` and a `size`. The first `size` slots hold the live elements. It
  offers construction (empty, `n` default values, copy, move), copy and move assignment, `Swap`,
  `Reserve`, `Resize`, `PushBack`/`EmplaceBack`/`PopBack`, element access, and positional
  `Emplace`/`Insert`/`Erase`.

The element type is fixed to `int`, whose value-initialisation gives 0. Slots of a fresh block hold
arbitrary values, standing in for uninitialised memory. Positions, which are raw pointers in the
source, are indices.

Files:

- `seq_spec.dfy` (module `SeqSpec`): what the operations do to the sequence of live elements
  (`Inserted`, `Removed`, `Resized`, `Zeros`) and lemmas relating them, such as erase undoing insert.
- `growth.dfy` (module `Growth`): the capacity policy (`Grown`, `ResizedCapacity`) and the
  capacities reached by repeated appends from empty: 1, 2, 4, …, with a logarithmic number of
  reallocations.
- `raw_memory.dfy` (module `Memory`): class `RawMemory` over `buffer: array?<int>`, plus the two
  uninitialised-memory algorithms the vector uses (`std::uninitialized_copy_n` and
  `std::uninitialized_value_construct_n`) as loops.
- `vector.dfy` (module `Vectors`): class `Vector` with fields `data: RawMemory` and `size: nat`.
  `Valid()` is the invariant `size <= capacity` on a well-formed block. `Elements()` is the live
  prefix `data.Slots()[..size]`. Every method's `ensures` gives the new `Elements()` and
  capacity in terms of the old state: positional insert, erase and resize through the `SeqSpec`
  functions `Inserted`, `Removed` and `Resized`, `PopBack` as a slice, `Set` as a sequence update,
  and `Swap` and move assignment through the other vector's old elements. Operations that do not
  reallocate also say that the buffer is kept, so positions into it stay valid. The shifts done by
  `std::move_backward` in the in-place insert, by `std::move` in `Erase` and by the element-wise
  loop in copy assignment are loops with invariants over the block.
- `scenario.dfy` (module `Scenario`): a client that relies on the contracts alone. It appends
  1, 2, 3 (capacities 1, 2, 4), inserts 99 at position 1, erases position 0, pops, resizes to 5
  (capacity 8, zero padding) and back to 1. It also copies, moves, copy-assigns and reserves.
  `AppendMany` appends `k` values to an empty vector in a loop and proves that the vector's
  capacity is then `Growth.AppendCapacity(k)` and that the block was replaced exactly
  `Growth.Reallocations(k)` times, tying the growth lemmas to `Vector.PushBack`.

The helper names in the source are the reverse of what the helpers do.
`InsertWithoutRelocation` is the path that reallocates; it is taken when `size == Capacity()`.
`InsertWithRelocation` shifts the elements in place. The model keeps the source's names.

The growth of a full insert is naturally read as `max(1, 2 * capacity)`, but the code computes it
from `size_` (line 299). The two agree because that path runs only when `size_ == Capacity()`. The model follows the code
(`InsertWithoutRelocation` ensures `Grown(old(size))`), and `Emplace` states the result in terms of
the capacity.

## Model

| member | source | states |
|---|---|---|
| `Memory.RawMemory.Empty` | advanced-vector/vector.h:13 | the default block has no buffer and capacity 0 |
| `Memory.RawMemory.constructor` | advanced-vector/vector.h:15-18 | a block of exactly `n` slots, freshly allocated; its buffer is null iff `n == 0` (through `Valid()`) |
| `Memory.RawMemory.Move` | advanced-vector/vector.h:23-27 | the new block takes over the source's buffer and capacity; the source is left with a null buffer and capacity 0 |
| `Memory.RawMemory.MoveAssign` | advanced-vector/vector.h:29-34 | for distinct objects, buffers and capacities are exchanged; self-assignment changes nothing |
| `Memory.RawMemory.Swap` | advanced-vector/vector.h:58-61 | buffer and capacity are exchanged between the two blocks; no slot is touched |
| `Memory.RawMemory.Capacity` | advanced-vector/vector.h:71-73 | the capacity is 0 exactly when the buffer is null |
| `Memory.RawMemory.Get` | advanced-vector/vector.h:53-56 | for `index < capacity`, returns the slot at `index` |
| `Memory.RawMemory.Set` | advanced-vector/vector.h:53-56 | writing through the returned reference changes slot `index` and no other |
| `Memory.RawMemory.Allocate` | advanced-vector/vector.h:76-78 | returns null iff `n == 0`, otherwise a fresh buffer of `n` slots |
| `Memory.UninitializedCopyN` | advanced-vector/vector.h:107 | `std::uninitialized_copy_n` (also used at lines 131, 271, 274, 303, 306): slots `to..to+count` of the destination get slots `from..from+count` of the source; every other destination slot keeps its value |
| `Memory.ValueConstructN` | advanced-vector/vector.h:100 | `std::uninitialized_value_construct_n` (also used at line 174): slots `from..from+count` become 0; every other slot keeps its value |
| `Vectors.Vector.Empty` | advanced-vector/vector.h:94 | a default vector has no elements, capacity 0 and no buffer |
| `Vectors.Vector.constructor` | advanced-vector/vector.h:96-101 | `Vector(n)` holds `n` zeros, with size = capacity = `n` |
| `Vectors.Vector.Copy` | advanced-vector/vector.h:103-108 | the copy's elements equal the original's, with capacity exactly the original's size |
| `Vectors.Vector.Move` | advanced-vector/vector.h:110-114 | the new vector holds the source's former elements, buffer and capacity; the source is left empty, with capacity 0 and a null buffer |
| `Vectors.Vector.CopyAssign` | advanced-vector/vector.h:116-137 | afterwards the elements equal `rhs`'s and `rhs` is unchanged; if `rhs.size` fits, the capacity and buffer are kept; otherwise the capacity becomes exactly `rhs.size` (copy-and-swap) |
| `Vectors.Vector.AssignInPlace` | advanced-vector/vector.h:122-134 | the branch of copy assignment for a `rhs` that fits: on the same block, the elements become `rhs`'s (common prefix assigned, a longer `rhs`'s extra elements copied, a longer self's tail dropped) |
| `Vectors.Vector.MoveAssign` | advanced-vector/vector.h:139-144 | for distinct vectors, elements, capacities and buffers are exchanged; self-assignment keeps the elements, the capacity and the buffer |
| `Vectors.Vector.Swap` | advanced-vector/vector.h:150-153 | buffers, capacities, sizes and thus element sequences are exchanged |
| `Vectors.Vector.Reserve` | advanced-vector/vector.h:155-163 | with `n <= capacity`, nothing changes, buffer included; otherwise the capacity becomes exactly `n` in a fresh buffer; size and elements never change |
| `Vectors.Vector.Resize` | advanced-vector/vector.h:165-177 | the elements become `Resized(old, n)`: the first min(n, size) are kept and any new trailing ones are 0; the capacity becomes `ResizedCapacity(old capacity, n)`; when `n` fits the buffer is kept |
| `Vectors.Vector.PushBack` | advanced-vector/vector.h:179-182 | the value is appended; the capacity follows the insert rule; a vector with spare room keeps its buffer |
| `Vectors.Vector.PopBack` | advanced-vector/vector.h:184-188 | requires a non-empty vector; drops only the last element; capacity unchanged |
| `Vectors.Vector.EmplaceBack` | advanced-vector/vector.h:190-193 | the value is appended; the returned index is the old size and holds the value; the capacity follows the insert rule; a vector with spare room keeps its buffer |
| `Vectors.Vector.Size` | advanced-vector/vector.h:195-197 | the size is the number of live elements |
| `Vectors.Vector.Capacity` | advanced-vector/vector.h:199-201 | the capacity is never below the size |
| `Vectors.Vector.Get` | advanced-vector/vector.h:207-210 | for `index < size`, returns element `index` |
| `Vectors.Vector.Set` | advanced-vector/vector.h:207-210 | writing through `operator[]` changes element `index` and no other |
| `Vectors.Vector.Emplace` | advanced-vector/vector.h:236-247 | for `pos <= size`, the elements become `old[..pos] + [v] + old[pos..]` and the result is `pos`; a vector with spare room keeps its buffer and capacity; a full one gets capacity 1 if it was 0 and twice the capacity otherwise |
| `Vectors.Vector.Erase` | advanced-vector/vector.h:249-255 | for `pos < size`, the elements become `old[..pos] + old[pos+1..]` and the result is `pos`; buffer and capacity are unchanged |
| `Vectors.Vector.Insert` | advanced-vector/vector.h:257-263 | same effect as `Emplace` with the value |
| `Vectors.Vector.FillNewData` | advanced-vector/vector.h:269-276 | the first `count` slots of the new block get the first `count` elements; its other slots keep their values |
| `Vectors.Vector.InsertWithRelocation` | advanced-vector/vector.h:279-295 | in-place path (`size < capacity`): on the same buffer, slots `0..size+1` become `Inserted(old elements, pos, v)` via the tail move, the backward shift and the final assignment |
| `Vectors.Vector.InsertWithoutRelocation` | advanced-vector/vector.h:298-310 | reallocating path: a fresh block of `Grown(size)` slots whose first `size + 1` slots are `Inserted(old elements, pos, v)` replaces the old one |
| `SeqSpec.Zeros` | advanced-vector/vector.h:174 | `n` value-initialised elements: length `n`, every element 0 |
| `SeqSpec.Inserted` | advanced-vector/vector.h:237-246 | the result is one longer, holds `v` at `p`, agrees with the input before `p`, and holds the input moved one place right after `p` |
| `SeqSpec.InsertedPointwise` | advanced-vector/vector.h:279-310 | a block holding the old elements before `p`, `v` at `p` and the old elements one slot right after `p` has `Inserted(old, p, v)` as its first `size + 1` slots; both insert paths end in this state |
| `SeqSpec.Removed` | advanced-vector/vector.h:249-254 | the result is one shorter, agrees with the input before `p`, and holds the input moved one place left from `p` on |
| `SeqSpec.Resized` | advanced-vector/vector.h:165-177 | the result has length `n`, keeps the input's first min(n, length) elements and is 0 beyond the input's length |
| `SeqSpec.RemovedInserted` | advanced-vector/vector.h:249-255 | erasing at the position just inserted at gives back the original sequence |
| `SeqSpec.InsertedRemoved` | advanced-vector/vector.h:237-247 | re-inserting an erased element at its position gives back the original sequence |
| `SeqSpec.InsertedAtEnd` | advanced-vector/vector.h:190-193 | inserting at the end position is appending, as `EmplaceBack` uses it |
| `SeqSpec.RemovedLast` | advanced-vector/vector.h:184-188 | erasing the last position drops the last element, as `PopBack` does |
| `SeqSpec.ResizedSame` | advanced-vector/vector.h:165-177 | resizing to the current length changes nothing |
| `SeqSpec.ResizedTwice` | advanced-vector/vector.h:165-177 | two resizes act as the second alone unless the first shrank below the second's length: growing loses nothing, shrinking loses the tail |
| `Growth.Grown` | advanced-vector/vector.h:299 | the grown capacity has room for one more element, is at least 1 and at least double, and exactly double when non-zero |
| `Growth.Max` | advanced-vector/vector.h:171 | the larger of the two arguments |
| `Growth.ResizedCapacity` | advanced-vector/vector.h:170-172 | the capacity after `Resize(n)` is at least `n`, never below the old one, equal to it when `n` fits, otherwise `n` or double the old capacity, whichever is larger |
| `Growth.AppendCapacity` | advanced-vector/vector.h:239-244 | the capacity after `k` appends from empty is at least `k` |
| `Growth.Reallocations` | advanced-vector/vector.h:239-240 | the number of reallocating appends among `k` is at most `k` |
| `Growth.AppendCapacityIsPowerOfTwo` | advanced-vector/vector.h:299 | after `k >= 1` appends from empty, the capacity is 2^(number of reallocations − 1), at least `k` and below `2k`: the capacities run 1, 2, 4, … |
| `Growth.ReallocationsAreLogarithmic` | advanced-vector/vector.h:299 | `k` appends from empty reallocate `r` times with 2^r < 4k, so at most log2(k) + 2 times |
| `Scenario.AppendThenInsert` | advanced-vector/vector.h:179-193 | client: appending 1, 2, 3 to an empty vector gives capacities 1, 2, 4; inserting 99 at 1 gives `[1, 99, 2, 3]` without reallocating |
| `Scenario.EraseThenPop` | advanced-vector/vector.h:249-255 | client: erasing position 0 of `[1, 99, 2, 3]` and then popping gives `[99, 2]`, capacity still 4 |
| `Scenario.AppendMany` | advanced-vector/vector.h:179-193 | client: `k` appends to an empty vector with no block leave size `k` and capacity exactly `AppendCapacity(k)`, which lies in `[k, 2k)` for `k >= 1`; the block is replaced exactly `Reallocations(k)` times, and `2^Reallocations(k) < 4k` |
| `Scenario.ResizeUpThenDown` | advanced-vector/vector.h:165-177 | client: `Resize(5)` on `[99, 2]` at capacity 4 gives `[99, 2, 0, 0, 0]` at capacity 8; `Resize(1)` then gives `[99]` and keeps capacity 8 |

## Left out

- Exceptions and rollback are not modelled, because Dafny has no exceptions. This covers the try/catch in the in-place insert (lines 280-294) and the strong/basic guarantee split. Two questionable spots in that code are therefore not modelled either: the catch block frees `end()`, a pointer that was never allocated (line 292), and the element placed at line 300 is never destroyed if relocating the prefix throws.
- The move-versus-copy relocation branch on type traits (lines 270-275, 302-307) is not modelled: for `int` both branches leave the same values, so relocation is a plain copy.
- Allocation failure, `operator new`/`delete`, `Deallocate`, placement new, `destroy_n`/`destroy_at` and the destructors (lines 36-38, 80-82, 146-148) are not modelled. Memory is a fresh Dafny array and is garbage-collected. Destroying an element only means its slot stops being live.
- Templates and argument forwarding are not modelled: the element type is `int`. The two `Insert` overloads (by copy and by move) have the same effect, so they are one method.
- The const overloads, `const_cast` forwarding, `operator+`, `GetAddress` and the iterator functions `begin`/`end`/`cbegin`/`cend` are not modelled (lines 40-51, 63-69, 203-205, 212-234). Positions are indices.
- Debug `assert`s become `requires` clauses (index < size, size > 0, pos < size). `Emplace` requires `pos <= size`, the range of a valid iterator.
- `Vectors.Vector.CopyAssign`: the zero-length copy at line 131 is a no-op. In the source, both `&data_[pos]` and `&rhs.data_[pos]` index one past the end when the copy count is 0: the first trips the debug assert at line 54 when this vector is full, the second when `rhs` is full and the sizes are equal, both including two empty vectors.
- `Vectors.Vector.Swap`, `Vectors.Vector.CopyAssign` and `Vectors.Vector.MoveAssign` require the two vectors to be the same object or to own disjoint objects. Partial aliasing between two distinct vectors, which the source's ownership rules exclude, is left out.
- `Vectors.Vector.Resize`: does not model `size_t` overflow of `Capacity() * 2`. The same holds for `size_ * 2` in `Vectors.Vector.InsertWithoutRelocation`. Such sizes cannot be allocated anyway, and integers here are unbounded.
- Concurrency is out of scope, as in the source.
