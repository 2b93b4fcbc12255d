/** RawMemory: an owned block of `capacity` uninitialised slots (advanced-vector/vector.h:10-86),
    and the uninitialised-memory algorithms the vector runs over such blocks. */
module Memory {

  class RawMemory {
    /** The block; null exactly when nothing was allocated. */
    var buffer: array?<int>
    var capacity: nat

    /** A block holds exactly `capacity` slots, and there is a block iff `capacity > 0`. */
    ghost predicate Valid()
      reads this
    {
      (buffer == null <==> capacity == 0) &&
      (buffer != null ==> buffer.Length == capacity)
    }

    /** The contents of every slot, live or not. */
    ghost function Slots(): (s: seq<int>)
      reads this, buffer
      requires Valid()
      ensures |s| == capacity
    {
      if buffer == null then [] else buffer[..]
    }

    /** The objects this block owns. */
    ghost function Footprint(): set<object>
      reads this
    {
      {this} + (if buffer == null then {} else {buffer})
    }

    /** `RawMemory()`: no block. */
    constructor Empty()
      ensures Valid() && buffer == null && capacity == 0
    {
      buffer := null;
      capacity := 0;
    }

    /** `RawMemory(capacity)`: a fresh block of `n` slots, or none when `n` is 0. */
    constructor (n: nat)
      ensures Valid() && capacity == n
      ensures fresh(Footprint())
    {
      var b := RawMemory.Allocate(n);
      buffer := b;
      capacity := n;
    }

    /** Move construction: takes the block over and leaves `other` empty. */
    constructor Move(other: RawMemory)
      requires other.Valid()
      modifies other
      ensures Valid() && other.Valid()
      ensures buffer == old(other.buffer) && capacity == old(other.capacity)
      ensures other.buffer == null && other.capacity == 0
    {
      buffer := other.buffer;
      capacity := other.capacity;
      new;
      other.buffer := null;
      other.capacity := 0;
    }

    /** `Allocate(n)`: no block for 0 slots, a fresh block of `n` slots otherwise.
        Allocation failure is not modelled. */
    static method Allocate(n: nat) returns (b: array?<int>)
      ensures (b == null) == (n == 0)
      ensures b != null ==> fresh(b) && b.Length == n
    {
      if n != 0 {
        b := new int[n];
      } else {
        b := null;
      }
    }

    /** Move assignment: an exchange of blocks with `rhs`, skipped for self-assignment. */
    method MoveAssign(rhs: RawMemory)
      modifies this, rhs
      ensures this != rhs ==> buffer == old(rhs.buffer) && capacity == old(rhs.capacity)
      ensures this != rhs ==> rhs.buffer == old(buffer) && rhs.capacity == old(capacity)
      ensures this == rhs ==> buffer == old(buffer) && capacity == old(capacity)
    {
      if this != rhs {
        Swap(rhs);
      }
    }

    /** Exchanges the blocks and capacities of two RawMemory objects; no slot is touched. */
    method Swap(other: RawMemory)
      modifies this, other
      ensures buffer == old(other.buffer) && capacity == old(other.capacity)
      ensures other.buffer == old(buffer) && other.capacity == old(capacity)
    {
      var b, c := buffer, capacity;
      buffer, capacity := other.buffer, other.capacity;
      other.buffer, other.capacity := b, c;
    }

    /** `Capacity()`: zero exactly when there is no block. */
    function Capacity(): (c: nat)
      reads this
      requires Valid()
      ensures (c == 0) == (buffer == null)
    {
      capacity
    }

    /** `operator[]` read: the slot at `index`, which must lie inside the block. */
    method Get(index: nat) returns (v: int)
      requires Valid() && index < capacity
      ensures v == Slots()[index]
    {
      v := buffer[index];
    }

    /** `operator[]` write through the returned reference: only slot `index` changes. */
    method Set(index: nat, v: int)
      requires Valid() && index < capacity
      modifies buffer
      ensures Valid()
      ensures Slots() == old(Slots())[index := v]
    {
      buffer[index] := v;
    }
  }

  /** `std::uninitialized_copy_n` (and `uninitialized_move_n`, which for `int` leaves the same
      values): slots `to .. to + count` of `dst` receive slots `from .. from + count` of `src`;
      every other slot of `dst` keeps its value. */
  method UninitializedCopyN(src: RawMemory, from: nat, count: nat, dst: RawMemory, to: nat)
    requires src.Valid() && dst.Valid()
    requires from + count <= src.capacity && to + count <= dst.capacity
    requires count > 0 ==> src.buffer != dst.buffer
    modifies dst.buffer
    ensures dst.Valid()
    ensures forall j :: to <= j < to + count ==> dst.Slots()[j] == src.Slots()[from + j - to]
    ensures forall j :: 0 <= j < dst.capacity && !(to <= j < to + count) ==> dst.Slots()[j] == old(dst.Slots())[j]
  {
    if count == 0 {
      return;
    }
    var s, d := src.buffer, dst.buffer;
    var i := 0;
    while i < count
      invariant 0 <= i <= count
      invariant forall j :: 0 <= j < d.Length && !(to <= j < to + i) ==> d[j] == old(d[j])
      invariant forall j :: to <= j < to + i ==> d[j] == s[from + j - to]
    {
      d[to + i] := s[from + i];
      i := i + 1;
    }
  }

  /** `std::uninitialized_value_construct_n`: slots `from .. from + count` become 0;
      every other slot keeps its value. */
  method ValueConstructN(mem: RawMemory, from: nat, count: nat)
    requires mem.Valid() && from + count <= mem.capacity
    modifies mem.buffer
    ensures mem.Valid()
    ensures forall j :: from <= j < from + count ==> mem.Slots()[j] == 0
    ensures forall j :: 0 <= j < mem.capacity && !(from <= j < from + count) ==> mem.Slots()[j] == old(mem.Slots())[j]
  {
    if count == 0 {
      return;
    }
    var d := mem.buffer;
    var i := 0;
    while i < count
      invariant 0 <= i <= count
      invariant forall j :: 0 <= j < d.Length && !(from <= j < from + i) ==> d[j] == old(d[j])
      invariant forall j :: from <= j < from + i ==> d[j] == 0
    {
      d[from + i] := 0;
      i := i + 1;
    }
  }
}
