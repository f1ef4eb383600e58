/** In-place partial selection by a key, largest first. It stands for the library orderings the
    engine calls (std::nth_element, std::sort, cv::sortIdx): none of them is stable, so the
    contracts promise only a permutation and the order of the keys. */
module Sorting {

  /** The first n entries of s carry the n largest keys in non-increasing order. */
  ghost predicate LargestFirst<T>(s: seq<T>, key: T -> int, n: nat)
    requires n <= |s|
  {
    && (forall i, j :: 0 <= i < j < n ==> key(s[i]) >= key(s[j]))
    && (forall i, j :: 0 <= i < n <= j < |s| ==> key(s[i]) >= key(s[j]))
  }

  method Swap<T>(a: array<T>, i: nat, j: nat)
    requires i < a.Length && j < a.Length
    modifies a
    ensures a[i] == old(a[j]) && a[j] == old(a[i])
    ensures forall k :: 0 <= k < a.Length && k != i && k != j ==> a[k] == old(a[k])
    ensures multiset(a[..]) == old(multiset(a[..]))
  {
    a[i], a[j] := a[j], a[i];
  }

  /** The position of the first largest key in a[from..]. */
  method MaxFrom<T>(a: array<T>, key: T -> int, from: nat) returns (m: nat)
    requires from < a.Length
    ensures from <= m < a.Length
    ensures forall k :: from <= k < a.Length ==> key(a[k]) <= key(a[m])
  {
    m := from;
    var j := from + 1;
    while j < a.Length
      invariant from <= m < j <= a.Length
      invariant forall k :: from <= k < j ==> key(a[k]) <= key(a[m])
    {
      if key(a[j]) > key(a[m]) {
        m := j;
      }
      j := j + 1;
    }
  }

  /** Moves the n largest keys, largest first, to the front of a; the array stays a
      permutation of itself. n == a.Length sorts the whole array. */
  method SelectLargest<T>(a: array<T>, key: T -> int, n: nat)
    requires n <= a.Length
    modifies a
    ensures multiset(a[..]) == old(multiset(a[..]))
    ensures LargestFirst(a[..], key, n)
  {
    var i := 0;
    while i < n
      invariant 0 <= i <= n
      invariant multiset(a[..]) == old(multiset(a[..]))
      invariant LargestFirst(a[..], key, i)
    {
      ghost var s := a[..];
      var m := MaxFrom(a, key, i);
      Swap(a, i, m);
      SelectStep(s, a[..], key, i, m);
      i := i + 1;
    }
  }

  /** Swapping the largest key of s[i..] into position i extends the sorted prefix by one. */
  lemma SelectStep<T>(s: seq<T>, s': seq<T>, key: T -> int, i: nat, m: nat)
    requires i <= m < |s| && LargestFirst(s, key, i)
    requires forall k :: i <= k < |s| ==> key(s[k]) <= key(s[m])
    requires |s'| == |s| && s'[i] == s[m] && s'[m] == s[i]
    requires forall k :: 0 <= k < |s| && k != i && k != m ==> s'[k] == s[k]
    ensures LargestFirst(s', key, i + 1)
  {
  }
}
