/**
 * Ascending order on integer lists, a reference (functional) sort, and the
 * in-place sort that stands in for `ArrayList.sort(null)` (natural order).
 *
 * The library sort is only known through its contract: the result is ascending
 * and is a permutation of the original. `Sort` below is an independent
 * reference definition of "the" sorted permutation; `SortedPermutationUnique`
 * shows there is only one, so any in-place algorithm meeting the contract
 * computes exactly `Sort` of its input.
 */
module Sorting {

  /** Ascending (non-decreasing) order, as `Comparable.compareTo` gives for integers. */
  predicate Sorted(s: seq<int>) {
    forall i, j :: 0 <= i < j < |s| ==> s[i] <= s[j]
  }

  /** Places `x` into the sorted list `s` before the first element not smaller than it. */
  function Insert(x: int, s: seq<int>): (r: seq<int>)
    requires Sorted(s)
    ensures Sorted(r)
    ensures multiset(r) == multiset(s) + multiset{x}
    ensures |r| == |s| + 1
    ensures r[0] == x || (s != [] && r[0] == s[0])
  {
    if s == [] || x <= s[0] then
      [x] + s
    else
      assert s == [s[0]] + s[1..];
      [s[0]] + Insert(x, s[1..])
  }

  /** Reference sort: the ascending permutation of `s`. */
  function Sort(s: seq<int>): (r: seq<int>)
    ensures Sorted(r)
    ensures multiset(r) == multiset(s)
    ensures |r| == |s|
  {
    if s == [] then
      []
    else
      assert s == [s[0]] + s[1..];
      Insert(s[0], Sort(s[1..]))
  }

  /** The first element of an ascending list is its least element. */
  lemma HeadIsLeast(a: seq<int>, x: int)
    requires Sorted(a) && x in multiset(a)
    ensures a[0] <= x
  {
  }

  /** Dropping the head of a non-empty list removes one occurrence of it and keeps the order. */
  lemma Tail(a: seq<int>)
    requires a != []
    ensures multiset(a[1..]) == multiset(a) - multiset{a[0]}
    ensures Sorted(a) ==> Sorted(a[1..])
  {
    assert a == [a[0]] + a[1..];
  }

  /** Two ascending lists with the same elements (counted with multiplicity) are equal. */
  lemma {:induction false} SortedPermutationUnique(a: seq<int>, b: seq<int>)
    requires Sorted(a) && Sorted(b)
    requires multiset(a) == multiset(b)
    ensures a == b
  {
    assert |a| == |b| by {
      assert |a| == |multiset(a)| && |b| == |multiset(b)|;
    }
    if a != [] {
      assert a[0] == b[0] by {
        HeadIsLeast(b, a[0]);
        HeadIsLeast(a, b[0]);
      }
      assert a[1..] == b[1..] by {
        Tail(a);
        Tail(b);
        SortedPermutationUnique(a[1..], b[1..]);
      }
      assert a == [a[0]] + a[1..] && b == [b[0]] + b[1..];
    }
  }

  /** `Sort(s)` is exactly the ascending permutation of `s`: the library contract determines it. */
  lemma SortIsTheSortedPermutation(s: seq<int>, r: seq<int>)
    ensures r == Sort(s) <==> Sorted(r) && multiset(r) == multiset(s)
  {
    if Sorted(r) && multiset(r) == multiset(s) {
      SortedPermutationUnique(r, Sort(s));
    }
  }

  /** The sorted result depends on the elements only, not on their order in the input. */
  lemma SortDependsOnlyOnElements(s: seq<int>, t: seq<int>)
    ensures Sort(s) == Sort(t) <==> multiset(s) == multiset(t)
  {
    if multiset(s) == multiset(t) {
      SortedPermutationUnique(Sort(s), Sort(t));
    }
  }

  /** Sorting leaves a list unchanged exactly when it is already ascending. */
  lemma SortFixesExactlySorted(s: seq<int>)
    ensures Sort(s) == s <==> Sorted(s)
  {
    if Sorted(s) {
      SortedPermutationUnique(s, Sort(s));
    }
  }

  /** Two lists with the same elements and the same suffix from `n` on have the same elements before `n`. */
  lemma PrefixMultiset(s: seq<int>, t: seq<int>, n: nat)
    requires n <= |s| == |t|
    requires multiset(s) == multiset(t) && s[n..] == t[n..]
    ensures multiset(s[..n]) == multiset(t[..n])
  {
    assert s == s[..n] + s[n..] && t == t[..n] + t[n..];
    assert multiset(s[..n]) == multiset(s) - multiset(s[n..]);
    assert multiset(t[..n]) == multiset(t) - multiset(t[n..]);
  }

  /** Swaps `a[i]` and `a[j]`, leaving every other element in place. */
  method Swap(a: array<int>, i: nat, j: nat)
    requires i < a.Length && j < a.Length
    modifies a
    ensures a[..] == old(a[..])[i := old(a[j])][j := old(a[i])]
    ensures multiset(a[..]) == old(multiset(a[..]))
  {
    a[i], a[j] := a[j], a[i];
  }

  /**
   * The loop of one insertion step: `a[..i]` is ascending; swaps `a[i]` left
   * past every larger element, so that `a[..i + 1]` becomes ascending and
   * nothing after index `i` moves.
   */
  method SiftLeft(a: array<int>, i: nat)
    requires i < a.Length
    requires Sorted(a[..i])
    modifies a
    ensures Sorted(a[..i + 1])
    ensures forall k :: i < k < a.Length ==> a[k] == old(a[k])
    ensures multiset(a[..]) == old(multiset(a[..]))
  {
    var j := i;
    while j > 0 && a[j - 1] > a[j]
      invariant 0 <= j <= i
      invariant forall p, q :: 0 <= p < q <= i && p != j && q != j ==> a[p] <= a[q]
      invariant forall q :: j < q <= i ==> a[j] < a[q]
      invariant forall k :: i < k < a.Length ==> a[k] == old(a[k])
      invariant multiset(a[..]) == old(multiset(a[..]))
    {
      Swap(a, j - 1, j);
      j := j - 1;
    }
  }

  /**
   * One insertion step: with `a[..i]` ascending, rearranges the prefix
   * `a[..i + 1]` into ascending order and leaves the rest of the array alone.
   */
  method InsertIntoPrefix(a: array<int>, i: nat)
    requires i < a.Length
    requires Sorted(a[..i])
    modifies a
    ensures Sorted(a[..i + 1])
    ensures multiset(a[..i + 1]) == old(multiset(a[..i + 1]))
    ensures forall k :: i < k < a.Length ==> a[k] == old(a[k])
    ensures multiset(a[..]) == old(multiset(a[..]))
  {
    SiftLeft(a, i);
    assert a[i + 1..] == old(a[i + 1..]);
    PrefixMultiset(a[..], old(a[..]), i + 1);
    assert a[..][..i + 1] == a[..i + 1];
  }

  /** In-place insertion sort: afterwards `a` holds the ascending permutation of its old contents. */
  method InsertionSort(a: array<int>)
    modifies a
    ensures Sorted(a[..])
    ensures multiset(a[..]) == old(multiset(a[..]))
    ensures a[..] == Sort(old(a[..]))
  {
    var i := 0;
    while i < a.Length
      invariant 0 <= i <= a.Length
      invariant Sorted(a[..i])
      invariant multiset(a[..]) == old(multiset(a[..]))
    {
      InsertIntoPrefix(a, i);
      i := i + 1;
    }
    assert a[..a.Length] == a[..];
    SortIsTheSortedPermutation(old(a[..]), a[..]);
  }
}
