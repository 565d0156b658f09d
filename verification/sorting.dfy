/** In-place sorting by a key, standing in for the library's `sort.Slice`
    (whose contract promises order and permutation, but not stability). */
module Sorting {

  /** `s` is in non-decreasing order of `key`. */
  ghost predicate SortedByKey<T>(s: seq<T>, key: T -> real)
  {
    forall p, q :: 0 <= p < q < |s| ==> key(s[p]) <= key(s[q])
  }

  /** The first `n` elements of `a` are in non-decreasing order of `key`. */
  ghost predicate SortedPrefix<T>(a: array<T>, n: int, key: T -> real)
    requires n <= a.Length
    reads a
  {
    forall p, q :: 0 <= p < q < n ==> key(a[p]) <= key(a[q])
  }

  /** Sorts `a` by `key`, rearranging its elements and nothing else. */
  method SortByKey<T>(a: array<T>, key: T -> real)
    modifies a
    ensures SortedByKey(a[..], key)
    ensures multiset(a[..]) == old(multiset(a[..]))
  {
    var i := 0;
    while i < a.Length
      invariant 0 <= i <= a.Length
      invariant SortedPrefix(a, i, key)
      invariant multiset(a[..]) == old(multiset(a[..]))
    {
      Insert(a, i, key);
      i := i + 1;
    }
  }

  /** Moves `a[i]` down into the sorted run `a[..i]`, leaving `a[..i + 1]`
      sorted and the elements of `a` as they were. */
  method Insert<T>(a: array<T>, i: int, key: T -> real)
    requires 0 <= i < a.Length && SortedPrefix(a, i, key)
    modifies a
    ensures SortedPrefix(a, i + 1, key)
    ensures multiset(a[..]) == old(multiset(a[..]))
    ensures a[i + 1..] == old(a[i + 1..])
  {
    var j := i;
    while j > 0 && key(a[j - 1]) > key(a[j])
      invariant 0 <= j <= i
      invariant forall p, q :: 0 <= p < q <= i && p != j && q != j ==> key(a[p]) <= key(a[q])
      invariant forall q :: j < q <= i ==> key(a[j]) <= key(a[q])
      invariant multiset(a[..]) == old(multiset(a[..]))
      invariant a[i + 1..] == old(a[i + 1..])
    {
      Swap(a, j);
      j := j - 1;
    }
    forall p, q | 0 <= p < q <= i
      ensures key(a[p]) <= key(a[q])
    {
      if q == j && p < j - 1 {
        assert key(a[p]) <= key(a[j - 1]);
      }
    }
  }

  /** Exchanges `a[j - 1]` and `a[j]`. */
  method Swap<T>(a: array<T>, j: int)
    requires 0 < j < a.Length
    modifies a
    ensures a[..] == old(a[..])[j - 1 := old(a[j])][j := old(a[j - 1])]
    ensures multiset(a[..]) == old(multiset(a[..]))
  {
    a[j - 1], a[j] := a[j], a[j - 1];
  }
}
