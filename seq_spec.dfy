/** What the vector operations do to the sequence of live elements, stated on values.
    The class `Vector` in vector.dfy is proved against these functions. */
module SeqSpec {

  /** `n` value-initialised elements: what `std::uninitialized_value_construct_n`
      leaves in the slots it constructs (an `int` value-initialises to 0). */
  function Zeros(n: nat): (r: seq<int>)
    ensures |r| == n
    ensures forall i :: 0 <= i < n ==> r[i] == 0
  {
    if n == 0 then [] else [0] + Zeros(n - 1)
  }

  /** The sequence with `v` placed at position `p`, every element from `p` on moved one place right. */
  function Inserted(s: seq<int>, p: nat, v: int): (r: seq<int>)
    requires p <= |s|
    ensures |r| == |s| + 1
    ensures r[p] == v
    ensures forall i :: 0 <= i < p ==> r[i] == s[i]
    ensures forall i :: p < i < |r| ==> r[i] == s[i - 1]
  {
    s[..p] + [v] + s[p..]
  }

  /** The characterisation of `Inserted` is complete: a sequence that holds the input before `p`,
      `v` at `p` and the input moved one place right after `p` starts with `Inserted(s, p, v)`. */
  lemma InsertedPointwise(t: seq<int>, s: seq<int>, p: nat, v: int)
    requires p <= |s| < |t|
    requires t[p] == v
    requires forall j :: 0 <= j < p ==> t[j] == s[j]
    requires forall j :: p < j <= |s| ==> t[j] == s[j - 1]
    ensures t[..|s| + 1] == Inserted(s, p, v)
  {
    forall j | 0 <= j <= |s| ensures t[..|s| + 1][j] == Inserted(s, p, v)[j] {
    }
  }

  /** The sequence without its element at position `p`, every later element moved one place left. */
  function Removed(s: seq<int>, p: nat): (r: seq<int>)
    requires p < |s|
    ensures |r| == |s| - 1
    ensures forall i :: 0 <= i < p ==> r[i] == s[i]
    ensures forall i :: p <= i < |r| ==> r[i] == s[i + 1]
  {
    s[..p] + s[p + 1..]
  }

  /** The sequence cut to, or padded with value-initialised elements up to, length `n`. */
  function Resized(s: seq<int>, n: nat): (r: seq<int>)
    ensures |r| == n
    ensures forall i :: 0 <= i < n && i < |s| ==> r[i] == s[i]
    ensures forall i :: |s| <= i < n ==> r[i] == 0
  {
    if n <= |s| then s[..n] else s + Zeros(n - |s|)
  }

  /** Erasing at the position just inserted at gives the original sequence back. */
  lemma RemovedInserted(s: seq<int>, p: nat, v: int)
    requires p <= |s|
    ensures Removed(Inserted(s, p, v), p) == s
  {
    var r := Removed(Inserted(s, p, v), p);
    assert |r| == |s|;
    forall i | 0 <= i < |s| ensures r[i] == s[i] {
      if i >= p {
        assert r[i] == Inserted(s, p, v)[i + 1];
      }
    }
  }

  /** Re-inserting an erased element at its old position gives the original sequence back. */
  lemma InsertedRemoved(s: seq<int>, p: nat)
    requires p < |s|
    ensures Inserted(Removed(s, p), p, s[p]) == s
  {
    var r := Inserted(Removed(s, p), p, s[p]);
    assert |r| == |s|;
    forall i | 0 <= i < |s| ensures r[i] == s[i] {
      if i > p {
        assert r[i] == Removed(s, p)[i - 1];
      }
    }
  }

  /** Inserting at the end position is appending. */
  lemma InsertedAtEnd(s: seq<int>, v: int)
    ensures Inserted(s, |s|, v) == s + [v]
  {
    assert Inserted(s, |s|, v)[..|s|] == s;
  }

  /** Erasing the last element is dropping it. */
  lemma RemovedLast(s: seq<int>)
    requires |s| > 0
    ensures Removed(s, |s| - 1) == s[..|s| - 1]
  {
  }

  /** Resizing to the current length changes nothing. */
  lemma ResizedSame(s: seq<int>)
    ensures Resized(s, |s|) == s
  {
  }

  /** Two resizes act as the second one alone, unless the first cut away elements the second
      would have kept: a shrink loses the tail, a grow followed by any resize loses nothing. */
  lemma ResizedTwice(s: seq<int>, m: nat, n: nat)
    requires n <= m || |s| <= m
    ensures Resized(Resized(s, m), n) == Resized(s, n)
  {
    var r, t := Resized(Resized(s, m), n), Resized(s, n);
    assert |r| == |t|;
    forall i | 0 <= i < n ensures r[i] == t[i] {
      if i < |s| {
        assert i < m;
      }
    }
  }
}
