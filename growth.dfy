/** The capacity policy of the vector: how much room a reallocation asks for. */
module Growth {

  /** Capacity a full vector reallocates to when one element is inserted
      (advanced-vector/vector.h:299, taken only when size equals capacity). */
  function Grown(capacity: nat): (r: nat)
    ensures r > capacity && r >= 1
    ensures r >= 2 * capacity
    ensures capacity > 0 ==> r <= 2 * capacity
  {
    if capacity == 0 then 1 else 2 * capacity
  }

  function Max(a: nat, b: nat): (r: nat)
    ensures r >= a && r >= b && (r == a || r == b)
  {
    if a >= b then a else b
  }

  /** Capacity after `Resize(n)` (advanced-vector/vector.h:165-177): kept while `n` fits,
      otherwise the larger of double the old capacity and `n`. */
  function ResizedCapacity(capacity: nat, n: nat): (r: nat)
    ensures r >= n && r >= capacity
    ensures n <= capacity ==> r == capacity
    ensures n > capacity ==> r >= 2 * capacity && (r == n || r == 2 * capacity)
  {
    if n <= capacity then capacity else Max(2 * capacity, n)
  }

  /** Capacity of a vector built by `k` appends starting from the empty vector:
      an append reallocates exactly when size equals capacity. */
  function AppendCapacity(k: nat): (c: nat)
    ensures c >= k
  {
    if k == 0 then 0
    else
      var prev := AppendCapacity(k - 1);
      if k - 1 == prev then Grown(prev) else prev
  }

  /** How many of those `k` appends reallocated. */
  function Reallocations(k: nat): (n: nat)
    ensures n <= k
  {
    if k == 0 then 0
    else Reallocations(k - 1) + (if k - 1 == AppendCapacity(k - 1) then 1 else 0)
  }

  function Pow2(e: nat): (r: nat)
    ensures r >= 1
  {
    if e == 0 then 1 else 2 * Pow2(e - 1)
  }

  /** Appending one at a time from empty walks the capacities 1, 2, 4, 8, ...:
      after `k >= 1` appends the capacity is a power of two, at least `k` and below `2k`,
      and it is two to the number of reallocations so far, minus one. */
  lemma {:induction false} AppendCapacityIsPowerOfTwo(k: nat)
    requires k >= 1
    ensures Reallocations(k) >= 1
    ensures AppendCapacity(k) == Pow2(Reallocations(k) - 1)
    ensures k <= AppendCapacity(k) < 2 * k
  {
    if k > 1 {
      AppendCapacityIsPowerOfTwo(k - 1);
    }
  }

  /** The number of reallocations grows logarithmically: 2 to their count is below `4k`,
      so `k` appends reallocate at most log2(k) + 2 times. */
  lemma {:induction false} ReallocationsAreLogarithmic(k: nat)
    requires k >= 1
    ensures Pow2(Reallocations(k)) < 4 * k
  {
    AppendCapacityIsPowerOfTwo(k);
    assert Pow2(Reallocations(k)) == 2 * Pow2(Reallocations(k) - 1);
  }
}
