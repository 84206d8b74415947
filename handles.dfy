/** Handles as the pool hands them out, and lookup of a handle in a dense id array. */
module Handles {

  /** An unsigned 32-bit value, as `u32`/`uint32_t` in the engine. */
  type u32 = x: int | 0 <= x < 0x1_0000_0000

  const U32_MAX: u32 := 0xFFFF_FFFF

  datatype Option<T> = None | Some(value: T)

  /** A handle names a slot of the pool's indirection table and the generation the
      slot had when the handle was issued. */
  datatype Handle = Handle(index: u32, generation: u32)

  /** The reserved "no object / no parent" handle. The pool never issues slot index
      U32_MAX, so this handle never resolves. */
  const NULL_HANDLE: Handle := Handle(U32_MAX, U32_MAX)

  /** Positions i and j of s hold the same value. */
  ghost predicate SameAt<X>(s: seq<X>, i: int, j: int)
    requires 0 <= i < |s| && 0 <= j < |s|
  {
    s[i] == s[j]
  }

  /** No value occurs twice in s. The quantifier fires only where a proof names the
      two positions it compares, through SameAt. */
  ghost predicate Distinct<X>(s: seq<X>)
  {
    forall i, j {:trigger SameAt(s, i, j)} :: 0 <= i < j < |s| ==> !SameAt(s, i, j)
  }

  /** The position of `h` in the dense id array, if it is there. */
  function Find(ids: seq<Handle>, h: Handle): (r: Option<nat>)
    ensures r.Some? ==> r.value < |ids| && ids[r.value] == h
    ensures r.None? <==> h !in ids
  {
    if |ids| == 0 then None
    else if ids[0] == h then Some(0)
    else match Find(ids[1..], h)
      case None => None
      case Some(k) => Some(k + 1)
  }

  /** Two different positions of a repetition-free sequence hold different values. */
  lemma DistinctAt<X>(s: seq<X>, i: nat, j: nat)
    requires Distinct(s) && i < |s| && j < |s| && i != j
    ensures s[i] != s[j]
  {
    if i < j {
      assert !SameAt(s, i, j);
    } else {
      assert !SameAt(s, j, i);
    }
  }

  lemma DistinctTail<X>(s: seq<X>)
    requires Distinct(s) && |s| > 0
    ensures Distinct(s[1..])
  {
    forall i, j | 0 <= i < j < |s| - 1 ensures !SameAt(s[1..], i, j) {
      DistinctAt(s, i + 1, j + 1);
    }
  }

  lemma DistinctPrefix<X>(s: seq<X>, n: nat)
    requires Distinct(s) && n <= |s|
    ensures Distinct(s[..n])
  {
    forall i, j | 0 <= i < j < n ensures !SameAt(s[..n], i, j) {
      DistinctAt(s, i, j);
    }
  }

  lemma DistinctAppend<X>(s: seq<X>, x: X)
    requires Distinct(s) && x !in s
    ensures Distinct(s + [x])
  {
    forall i, j | 0 <= i < j < |s| + 1 ensures !SameAt(s + [x], i, j) {
      if j < |s| {
        DistinctAt(s, i, j);
      } else {
        assert (s + [x])[i] == s[i];
      }
    }
  }

  /** In an array without repetitions, an id is found exactly where it is. */
  lemma {:induction false} FindDistinct(ids: seq<Handle>, k: nat)
    requires Distinct(ids) && k < |ids|
    ensures Find(ids, ids[k]) == Some(k)
  {
    if k > 0 {
      DistinctAt(ids, 0, k);
      DistinctTail(ids);
      FindDistinct(ids[1..], k - 1);
    }
  }

  /** In a repetition-free sequence, every value occurs at most once. */
  lemma {:induction false} DistinctMultiplicity<X>(s: seq<X>, x: X)
    requires Distinct(s)
    ensures multiset(s)[x] <= 1
  {
    if |s| > 0 {
      assert s == [s[0]] + s[1..];
      DistinctTail(s);
      DistinctMultiplicity(s[1..], x);
      if x == s[0] {
        assert x !in s[1..] by {
          forall k | 0 <= k < |s[1..]| ensures s[1..][k] != x {
            DistinctAt(s, 0, k + 1);
          }
        }
      }
    }
  }

  /** A value that occurs at two positions occurs at least twice. */
  lemma RepeatedMultiplicity<X>(s: seq<X>, i: nat, j: nat)
    requires i < j < |s| && s[i] == s[j]
    ensures multiset(s)[s[i]] >= 2
  {
    assert s == s[..j] + [s[j]] + s[j + 1..];
    assert s[i] in s[..j];
    assert multiset(s) == multiset(s[..j]) + multiset{s[j]} + multiset(s[j + 1..]);
  }

  /** Reordering a repetition-free sequence keeps it repetition-free. */
  lemma DistinctPermutation<X>(s: seq<X>, r: seq<X>)
    requires Distinct(s) && multiset(s) == multiset(r)
    ensures Distinct(r)
  {
    forall i, j | 0 <= i < j < |r| ensures !SameAt(r, i, j) {
      if r[i] == r[j] {
        RepeatedMultiplicity(r, i, j);
        DistinctMultiplicity(s, r[i]);
        assert false;
      }
    }
  }

  /** Swap-with-last removal on a dense array: the last entry takes position d and
      the array shrinks by one. */
  function SwapRemove<V>(s: seq<V>, d: nat): (r: seq<V>)
    requires d < |s|
    ensures |r| == |s| - 1
    ensures d < |r| ==> r[d] == s[|s| - 1]
    ensures forall k :: 0 <= k < |r| && k != d ==> r[k] == s[k]
  {
    s[d := s[|s| - 1]][..|s| - 1]
  }

  /** Exchanging the entries at positions i and j. */
  function SwapAt<V>(s: seq<V>, i: nat, j: nat): (r: seq<V>)
    requires i < |s| && j < |s|
    ensures |r| == |s| && r[i] == s[j] && r[j] == s[i]
    ensures forall k :: 0 <= k < |s| && k != i && k != j ==> r[k] == s[k]
    ensures multiset(r) == multiset(s)
  {
    s[i := s[j]][j := s[i]]
  }
}
