/** A client of Vector that relies only on the contracts: appends, a positional insert and
    erase, a pop, and resizes up and down, with the capacities the growth policy gives. */
module Scenario {
  import opened SeqSpec
  import opened Growth
  import opened Vectors

  method AppendInsertEraseResize() {
    var v := new Vector.Empty();
    AppendThenInsert(v);
    EraseThenPop(v);
    ResizeUpThenDown(v);
    var x := v.Get(0);
    assert x == 99;
  }

  /** Three appends walk the capacities 1, 2, 4; the insert fits without reallocating. */
  method AppendThenInsert(v: Vector)
    requires v.Valid() && v.Elements() == [] && v.Capacity() == 0
    modifies v, v.data, v.data.buffer
    ensures v.Valid() && v.Elements() == [1, 99, 2, 3] && v.Capacity() == 4
    ensures v.data == old(v.data) && fresh(v.Repr() - old(v.Repr()))
  {
    v.PushBack(1);
    assert v.Elements() == [1] && v.Capacity() == 1;
    v.PushBack(2);
    assert v.Elements() == [1, 2] && v.Capacity() == 2;
    v.PushBack(3);
    assert v.Elements() == [1, 2, 3] && v.Capacity() == 4;
    var it := v.Insert(1, 99);
    assert it == 1;
  }

  method EraseThenPop(v: Vector)
    requires v.Valid() && v.Elements() == [1, 99, 2, 3] && v.Capacity() == 4
    modifies v, v.data.buffer
    ensures v.Valid() && v.Elements() == [99, 2] && v.Capacity() == 4
    ensures v.data == old(v.data) && fresh(v.Repr() - old(v.Repr()))
  {
    var it := v.Erase(0);
    assert it == 0;
    assert v.Elements() == [99, 2, 3];
    v.PopBack();
  }

  /** Growing from capacity 4 to 5 elements doubles to 8; shrinking keeps 8. */
  method ResizeUpThenDown(v: Vector)
    requires v.Valid() && v.Elements() == [99, 2] && v.Capacity() == 4
    modifies v, v.data, v.data.buffer
    ensures v.Valid() && v.Elements() == [99] && v.Capacity() == 8
  {
    v.Resize(5);
    assert v.Elements() == [99, 2, 0, 0, 0] by {
      assert Zeros(3) == [0, 0, 0];
    }
    assert v.Capacity() == 8;
    v.Resize(1);
  }

  /** `k` appends to an empty vector with no block leave exactly `AppendCapacity(k)` slots, and
      the block is replaced exactly `Reallocations(k)` times, so the growth lemmas of module
      Growth (capacities 1, 2, 4, ..., logarithmically many reallocations) hold of the vector
      itself. `swaps` counts the appends after which the vector holds a different block. */
  method AppendMany(v: Vector, k: nat) returns (ghost swaps: nat)
    requires v.Valid() && v.size == 0 && v.Capacity() == 0
    modifies v, v.data, v.data.buffer
    ensures v.Valid() && v.size == k && v.Capacity() == AppendCapacity(k)
    ensures k >= 1 ==> k <= v.Capacity() < 2 * k
    ensures swaps == Reallocations(k) && (k >= 1 ==> Pow2(swaps) < 4 * k)
  {
    swaps := 0;
    var i := 0;
    while i < k
      invariant 0 <= i <= k
      invariant v.Valid() && v.data == old(v.data) && fresh(v.Repr() - old(v.Repr()))
      invariant v.size == i && v.Capacity() == AppendCapacity(i)
      invariant swaps == Reallocations(i)
    {
      ghost var before := v.data.buffer;
      v.PushBack(i);
      if v.data.buffer != before {
        swaps := swaps + 1;
      }
      i := i + 1;
    }
    if k >= 1 {
      AppendCapacityIsPowerOfTwo(k);
      ReallocationsAreLogarithmic(k);
    }
  }

  /** Copies are equal and sized to fit; a move empties its source; copy assignment keeps a
      block that is large enough and replaces one that is not. */
  method CopyAndMove() {
    var a := new Vector(2);
    a.Set(1, 7);
    assert a.Elements() == [0, 7];
    var b := new Vector.Copy(a);
    assert b.Elements() == [0, 7] && b.Capacity() == 2;
    var c := new Vector.Move(b);
    assert c.Elements() == [0, 7] && b.Elements() == [] && b.Capacity() == 0;
    AssignAndReserve(b, c);
  }

  method AssignAndReserve(b: Vector, c: Vector)
    requires b.Valid() && c.Valid() && b.Repr() !! c.Repr()
    requires b.Elements() == [] && b.Capacity() == 0 && c.Elements() == [0, 7]
    modifies b, b.data, b.data.buffer
  {
    var d := new Vector(5);
    d.CopyAssign(c);
    assert d.Elements() == [0, 7] && d.Capacity() == 5;
    b.CopyAssign(d);
    assert b.Elements() == [0, 7] && b.Capacity() == 2;
    d.Reserve(3);
    assert d.Capacity() == 5;
    d.Reserve(9);
    assert d.Capacity() == 9 && d.Elements() == [0, 7];
  }
}
