/** Vector: one RawMemory block plus `size`, the count of live elements, which occupy the
    first `size` slots (advanced-vector/vector.h:88-311). Positions (the source's iterators,
    raw pointers into the block) are indices. */
module Vectors {
  import opened SeqSpec
  import opened Growth
  import opened Memory

  class Vector {
    var data: RawMemory
    var size: nat

    /** The block is well formed and the live elements fit in it. */
    ghost predicate Valid()
      reads this, data
    {
      data.Valid() && size <= data.capacity
    }

    /** The objects this vector owns. */
    ghost function Repr(): set<object>
      reads this, data
    {
      {this} + data.Footprint()
    }

    /** The live elements, in order. */
    ghost function Elements(): (s: seq<int>)
      reads this, data, data.buffer
      requires Valid()
      ensures |s| == size
    {
      data.Slots()[..size]
    }

    /** `Vector()`: empty, nothing allocated. */
    constructor Empty()
      ensures Valid() && fresh(data)
      ensures Elements() == [] && Capacity() == 0 && data.buffer == null
    {
      data := new RawMemory.Empty();
      size := 0;
    }

    /** `Vector(size)`: `n` value-initialised elements in a block of exactly `n` slots. */
    constructor (n: nat)
      ensures Valid() && fresh(data.Footprint())
      ensures Elements() == Zeros(n) && Capacity() == n
    {
      data := new RawMemory(n);
      size := n;
      new;
      ValueConstructN(data, 0, n);
      assert Elements() == Zeros(n) by {
        forall j | 0 <= j < n ensures Elements()[j] == Zeros(n)[j] {
        }
      }
    }

    /** Copy construction: an element-wise copy of `other` in a block of exactly `other.size` slots. */
    constructor Copy(other: Vector)
      requires other.Valid()
      ensures Valid() && fresh(data.Footprint())
      ensures Elements() == other.Elements() && Capacity() == other.size
    {
      data := new RawMemory(other.size);
      size := other.size;
      new;
      UninitializedCopyN(other.data, 0, size, data, 0);
      assert Elements() == other.Elements() by {
        forall j | 0 <= j < size ensures Elements()[j] == other.Elements()[j] {
        }
      }
    }

    /** Move construction: takes over `other`'s block and elements, leaving `other` empty
        with no block. */
    constructor Move(other: Vector)
      requires other.Valid()
      modifies other, other.data
      ensures Valid() && other.Valid() && fresh(data)
      ensures Elements() == old(other.Elements()) && Capacity() == old(other.Capacity())
      ensures data.buffer == old(other.data.buffer)
      ensures other.Elements() == [] && other.Capacity() == 0 && other.data.buffer == null
      ensures other.data == old(other.data)
    {
      data := new RawMemory.Move(other.data);
      size := other.size;
      new;
      other.size := 0;
    }

    /** Copy assignment: afterwards this vector holds `rhs`'s elements. When they fit, the block
        is kept and written over in place; otherwise a copy of `rhs` is built and swapped in,
        so the capacity becomes exactly `rhs.size`. */
    method CopyAssign(rhs: Vector)
      requires Valid() && rhs.Valid()
      requires this == rhs || Repr() !! rhs.Repr()
      modifies this, data, data.buffer
      ensures Valid() && rhs.Valid()
      ensures Elements() == old(rhs.Elements())
      ensures rhs.Elements() == old(rhs.Elements())
      ensures Capacity() == if old(rhs.size) > old(Capacity()) then old(rhs.size) else old(Capacity())
      ensures old(rhs.size) <= old(Capacity()) ==> data == old(data) && data.buffer == old(data.buffer)
      ensures fresh(Repr() - old(Repr()))
    {
      if this != rhs {
        if rhs.size > data.capacity {
          var copied := new Vector.Copy(rhs);
          Swap(copied);
        } else {
          AssignInPlace(rhs);
        }
      }
    }

    /** The branch of copy assignment for a `rhs` that fits: the common prefix is assigned
        element by element, the extra elements of a longer `rhs` are copied into the free
        slots, and the size becomes `rhs.size`, all on the same block. */
    method AssignInPlace(rhs: Vector)
      requires Valid() && rhs.Valid() && Repr() !! rhs.Repr()
      requires rhs.size <= Capacity()
      modifies this, data.buffer
      ensures Valid() && data == old(data) && Elements() == rhs.Elements()
    {
      ghost var r := rhs.Elements();
      var pos := 0;
      var common := if size < rhs.size then size else rhs.size;
      while pos < common
        modifies data.buffer
        invariant 0 <= pos <= common
        invariant data.Valid()
        invariant forall j :: 0 <= j < pos ==> data.Slots()[j] == r[j]
      {
        var x := rhs.data.Get(pos);
        data.Set(pos, x);
        pos := pos + 1;
      }
      if size > rhs.size {
        // The trailing live elements are destroyed: for `int` the slots are simply no longer live.
      } else {
        UninitializedCopyN(rhs.data, pos, rhs.size - size, data, pos);
      }
      size := rhs.size;
      assert Elements() == r by {
        forall j | 0 <= j < size ensures Elements()[j] == r[j] {
        }
      }
    }

    /** Move assignment: an exchange of contents with `rhs`, skipped for self-assignment. */
    method MoveAssign(rhs: Vector)
      requires Valid() && rhs.Valid()
      requires this == rhs || Repr() !! rhs.Repr()
      modifies this, data, rhs, rhs.data
      ensures Valid() && rhs.Valid()
      ensures this != rhs ==> Elements() == old(rhs.Elements()) && rhs.Elements() == old(Elements())
      ensures this != rhs ==> Capacity() == old(rhs.Capacity()) && rhs.Capacity() == old(Capacity())
      ensures Elements() == old(if this == rhs then Elements() else rhs.Elements())
      ensures this == rhs ==> Capacity() == old(Capacity()) && data.buffer == old(data.buffer)
      ensures this != rhs ==> data.buffer == old(rhs.data.buffer) && rhs.data.buffer == old(data.buffer)
      ensures data == old(data) && rhs.data == old(rhs.data)
    {
      if this != rhs {
        Swap(rhs);
      }
    }

    /** Exchanges blocks and sizes with `other`; no element is touched. */
    method Swap(other: Vector)
      requires Valid() && other.Valid()
      requires this == other || Repr() !! other.Repr()
      modifies this, data, other, other.data
      ensures Valid() && other.Valid()
      ensures data == old(data) && other.data == old(other.data)
      ensures data.buffer == old(other.data.buffer) && other.data.buffer == old(data.buffer)
      ensures size == old(other.size) && other.size == old(size)
      ensures Capacity() == old(other.Capacity()) && other.Capacity() == old(Capacity())
      ensures Elements() == old(other.Elements()) && other.Elements() == old(Elements())
    {
      data.Swap(other.data);
      var s := size;
      size := other.size;
      other.size := s;
    }

    /** `Reserve(n)`: nothing happens unless `n` exceeds the capacity; then the elements move to
        a fresh block of exactly `n` slots. Size and elements never change. */
    method Reserve(newCapacity: nat)
      requires Valid()
      modifies data
      ensures Valid() && data == old(data) && size == old(size)
      ensures Elements() == old(Elements())
      ensures Capacity() == if newCapacity <= old(Capacity()) then old(Capacity()) else newCapacity
      ensures newCapacity <= old(Capacity()) ==> data.buffer == old(data.buffer)
      ensures fresh(Repr() - old(Repr()))
    {
      if newCapacity <= data.capacity {
        return;
      }
      ghost var s0 := Elements();
      var newData := new RawMemory(newCapacity);
      FillNewData(newData, size);
      ghost var filled := newData.Slots();
      // The originals are destroyed here; for `int` that leaves nothing to do.
      data.Swap(newData);
      assert data.Slots() == filled;
      assert Elements() == s0 by {
        forall j | 0 <= j < size ensures Elements()[j] == s0[j] {
        }
      }
    }

    /** `Resize(n)`: keeps the first min(n, size) elements and value-initialises the rest up to
        `n`. Shrinking keeps the capacity; growing past it reserves max(2 * capacity, n). */
    method Resize(newSize: nat)
      requires Valid()
      modifies this, data, data.buffer
      ensures Valid() && data == old(data)
      ensures Elements() == Resized(old(Elements()), newSize)
      ensures Capacity() == ResizedCapacity(old(Capacity()), newSize)
      ensures newSize <= old(Capacity()) ==> data.buffer == old(data.buffer)
      ensures fresh(Repr() - old(Repr()))
    {
      ghost var s0 := Elements();
      if newSize < size {
        // The trailing elements are destroyed: for `int` the slots are simply no longer live.
      } else {
        if newSize > data.capacity {
          Reserve(Max(data.capacity * 2, newSize));
        }
        ValueConstructN(data, size, newSize - size);
      }
      size := newSize;
      assert Elements() == Resized(s0, newSize) by {
        forall j | 0 <= j < newSize ensures Elements()[j] == Resized(s0, newSize)[j] {
        }
      }
    }

    /** `PushBack(value)`: `EmplaceBack` with the value. */
    method PushBack(value: int)
      requires Valid()
      modifies this, data, data.buffer
      ensures Valid() && data == old(data)
      ensures Elements() == old(Elements()) + [value]
      ensures Capacity() == if old(size) == old(Capacity()) then Grown(old(Capacity())) else old(Capacity())
      ensures old(size) < old(Capacity()) ==> data.buffer == old(data.buffer)
      ensures fresh(Repr() - old(Repr()))
    {
      var _ := EmplaceBack(value);
    }

    /** `PopBack()`: drops the last element; the block is untouched. */
    method PopBack()
      requires Valid() && size > 0
      modifies this
      ensures Valid() && data == old(data)
      ensures Elements() == old(Elements())[..old(size) - 1]
      ensures Capacity() == old(Capacity())
    {
      size := size - 1;
    }

    /** `EmplaceBack(args)`: `Emplace` at the end position; the result is the new element's index. */
    method EmplaceBack(value: int) returns (it: nat)
      requires Valid()
      modifies this, data, data.buffer
      ensures Valid() && data == old(data)
      ensures Elements() == old(Elements()) + [value]
      ensures it == old(size) && Elements()[it] == value
      ensures Capacity() == if old(size) == old(Capacity()) then Grown(old(Capacity())) else old(Capacity())
      ensures old(size) < old(Capacity()) ==> data.buffer == old(data.buffer)
      ensures fresh(Repr() - old(Repr()))
    {
      it := Emplace(size, value);
      InsertedAtEnd(old(Elements()), value);
    }

    /** `Size()`: the number of live elements. */
    function Size(): (n: nat)
      reads this, data, data.buffer
      requires Valid()
      ensures n == |Elements()|
    {
      size
    }

    /** `Capacity()`: the number of slots, never below the size. */
    function Capacity(): (c: nat)
      reads this, data
      requires Valid()
      ensures c >= size
    {
      data.Capacity()
    }

    /** `operator[]` read: the element at `index`, which must be live. */
    method Get(index: nat) returns (v: int)
      requires Valid() && index < size
      ensures v == Elements()[index]
    {
      v := data.Get(index);
    }

    /** `operator[]` write through the returned reference: only element `index` changes. */
    method Set(index: nat, v: int)
      requires Valid() && index < size
      modifies data.buffer
      ensures Valid()
      ensures Elements() == old(Elements())[index := v]
    {
      data.Set(index, v);
    }

    /** `Emplace(pos, args)`: the element goes in at `pos` and everything from `pos` on moves
        one place right; the result is `pos`. A full vector reallocates to `Grown(capacity)`
        slots, any other vector keeps its block and capacity. */
    method Emplace(pos: nat, value: int) returns (it: nat)
      requires Valid() && pos <= size
      modifies this, data, data.buffer
      ensures Valid() && data == old(data)
      ensures Elements() == Inserted(old(Elements()), pos, value)
      ensures it == pos
      ensures Capacity() == if old(size) == old(Capacity()) then Grown(old(Capacity())) else old(Capacity())
      ensures old(size) < old(Capacity()) ==> data.buffer == old(data.buffer)
      ensures fresh(Repr() - old(Repr()))
    {
      if size == data.capacity {
        InsertWithoutRelocation(pos, value);
      } else {
        InsertWithRelocation(pos, value);
      }
      size := size + 1;
      it := pos;
    }

    /** `Erase(pos)`: the element at `pos` goes and every later element moves one place left;
        the block and capacity stay; the result is `pos`. */
    method Erase(pos: nat) returns (it: nat)
      requires Valid() && pos < size
      modifies this, data.buffer
      ensures Valid() && data == old(data) && data.buffer == old(data.buffer)
      ensures Elements() == Removed(old(Elements()), pos)
      ensures Capacity() == old(Capacity())
      ensures it == pos
    {
      ghost var s0 := Elements();
      var b := data.buffer;
      var i := pos;
      while i + 1 < size
        modifies b
        invariant pos <= i < size
        invariant forall j :: 0 <= j < pos ==> b[j] == s0[j]
        invariant forall j :: pos <= j < i ==> b[j] == s0[j + 1]
        invariant forall j :: i <= j < size ==> b[j] == s0[j]
      {
        b[i] := b[i + 1];
        i := i + 1;
      }
      PopBack();
      assert Elements() == Removed(s0, pos) by {
        forall j | 0 <= j < size ensures Elements()[j] == Removed(s0, pos)[j] {
        }
      }
      it := pos;
    }

    /** `Insert(pos, value)`: `Emplace` with the value. */
    method Insert(pos: nat, value: int) returns (it: nat)
      requires Valid() && pos <= size
      modifies this, data, data.buffer
      ensures Valid() && data == old(data)
      ensures Elements() == Inserted(old(Elements()), pos, value)
      ensures it == pos
      ensures Capacity() == if old(size) == old(Capacity()) then Grown(old(Capacity())) else old(Capacity())
      ensures old(size) < old(Capacity()) ==> data.buffer == old(data.buffer)
      ensures fresh(Repr() - old(Repr()))
    {
      it := Emplace(pos, value);
    }

    /** Relocates the first `count` elements into the first `count` slots of `newData`,
        whose other slots stay as they were. */
    method FillNewData(newData: RawMemory, count: nat)
      requires Valid() && newData.Valid()
      requires count <= size && count <= newData.capacity
      requires count > 0 ==> newData.buffer != data.buffer
      modifies newData.buffer
      ensures newData.Valid()
      ensures forall j :: 0 <= j < count ==> newData.Slots()[j] == Elements()[j]
      ensures forall j :: count <= j < newData.capacity ==> newData.Slots()[j] == old(newData.Slots())[j]
    {
      UninitializedCopyN(data, 0, count, newData, 0);
    }

    /** The in-place path of `Emplace`, taken when a free slot remains: the tail moves one slot
        right and the element lands at `pos`. The size is left to the caller. */
    method InsertWithRelocation(pos: nat, value: int)
      requires Valid() && pos <= size < data.capacity
      modifies data.buffer
      ensures data.Valid()
      ensures data.Slots()[..size + 1] == Inserted(old(Elements()), pos, value)
    {
      ghost var s0 := Elements();
      var b := data.buffer;
      if pos != size {
        var temporary := value;
        b[size] := b[size - 1];
        var k := size - 1;
        while k > pos
          invariant pos <= k <= size - 1
          invariant forall j :: 0 <= j <= k ==> b[j] == s0[j]
          invariant forall j :: k < j <= size ==> b[j] == s0[j - 1]
        {
          b[k] := b[k - 1];
          k := k - 1;
        }
        b[pos] := temporary;
      } else {
        b[size] := value;
      }
      InsertedPointwise(b[..], s0, pos, value);
    }

    /** The reallocating path of `Emplace`, taken when the vector is full: a fresh block of
        `Grown(size)` slots gets the element at `pos`, then the prefix before it and the suffix
        after it, and replaces the old block. The size is left to the caller. */
    method InsertWithoutRelocation(pos: nat, value: int)
      requires Valid() && pos <= size
      modifies data
      ensures data.Valid() && data.capacity == Grown(old(size))
      ensures data.Slots()[..size + 1] == Inserted(old(Elements()), pos, value)
      ensures fresh(data.Footprint() - {data})
    {
      ghost var s0 := Elements();
      var newData := new RawMemory(if size == 0 then 1 else size * 2);
      newData.Set(pos, value);
      FillNewData(newData, pos);
      UninitializedCopyN(data, pos, size - pos, newData, pos + 1);
      ghost var filled := newData.Slots();
      InsertedPointwise(filled, s0, pos, value);
      // The originals are destroyed here; for `int` that leaves nothing to do.
      data.Swap(newData);
      assert data.Slots() == filled;
    }
  }
}
