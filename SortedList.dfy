/**
 * The sortedness capability: an object that copies the list it is given,
 * sorts the copy once, and from then on only hands out fresh copies of it.
 * Possessing a `SortedList` certifies that its contents are the ascending
 * permutation of the list it was built from.
 */
module SortedLists {
  import opened Sorting

  class SortedList {
    /** The private storage (`_list`): allocated by the constructor, never handed out. */
    const list: array<int>
    /** The list passed to the constructor, as it was at construction time. */
    ghost const Input: seq<int>
    /** The objects this capability owns: only its storage. */
    ghost const Repr: set<object>

    /** Object invariant: the storage is ascending and a permutation of the input. */
    ghost predicate Valid()
      reads Repr
    {
      Repr == {list} && Sorted(list[..]) && multiset(list[..]) == multiset(Input)
    }

    /** The abstract value: the stored elements in order. */
    ghost function Contents(): seq<int>
      reads Repr
      requires Valid()
    {
      list[..]
    }

    /** Copies `input` into new storage and sorts the copy; cannot fail. */
    constructor (input: array<int>)
      ensures Valid()
      ensures Input == input[..]
      ensures Contents() == Sort(input[..])
      ensures fresh(Repr)
      ensures unchanged(input)
    {
      var copy := new int[input.Length](k reads input requires 0 <= k < input.Length => input[k]);
      assert copy[..] == input[..];
      InsertionSort(copy);
      list := copy;
      Input := input[..];
      Repr := {copy};
    }

    /** The invariant pins the contents down completely: they are `Sort` of the input. */
    lemma ContentsAreSortedInput()
      requires Valid()
      ensures Contents() == Sort(Input)
    {
      SortIsTheSortedPermutation(Input, list[..]);
    }

    /** Returns a defensive copy of the storage; the object itself is not changed. */
    method Get() returns (r: array<int>)
      requires Valid()
      ensures fresh(r)
      ensures r[..] == Contents()
      ensures Valid()
    {
      var storage := list;
      r := new int[storage.Length](k reads storage requires 0 <= k < storage.Length => storage[k]);
    }
  }

  /**
   * Changing the input list after construction does not reach the object:
   * its contents stay the sorted version of the input as it was.
   */
  method UpdateInputAfterConstruction(input: array<int>, i: nat, v: int) returns (s: SortedList)
    requires i < input.Length
    modifies input
    ensures s.Valid() && s.Contents() == Sort(old(input[..]))
    ensures input[..] == old(input[..])[i := v]
  {
    s := new SortedList(input);
    input[i] := v;
  }

  /**
   * Changing a list returned by `Get` does not reach the object: a later `Get`
   * still returns the stored contents.
   */
  method UpdateCopy(s: SortedList, i: nat, v: int) returns (changed: array<int>, later: array<int>)
    requires s.Valid() && i < |s.Contents()|
    ensures s.Valid()
    ensures changed[..] == s.Contents()[i := v]
    ensures later[..] == s.Contents()
  {
    changed := s.Get();
    changed[i] := v;
    later := s.Get();
  }

  /**
   * Writing to any list the object does not own (the constructor's input, a
   * result of `Get`, or anything else outside `Repr`) leaves the object valid
   * and its contents as they were.
   */
  method UpdateUnownedList(s: SortedList, other: array<int>, i: nat, v: int)
    requires s.Valid() && other !in s.Repr && i < other.Length
    modifies other
    ensures s.Valid() && s.Contents() == old(s.Contents())
    ensures other[..] == old(other[..])[i := v]
  {
    other[i] := v;
  }

  /** Two successive `Get` calls return equal contents in two distinct lists. */
  method GetTwice(s: SortedList) returns (first: array<int>, second: array<int>)
    requires s.Valid()
    ensures first != second
    ensures first[..] == second[..] == s.Contents()
    ensures Sorted(second[..])
  {
    first := s.Get();
    second := s.Get();
  }

  /** The ascending permutation of [3, 1, 2]. */
  lemma SortOfThreeOneTwo()
    ensures Sort([3, 1, 2]) == [1, 2, 3]
  {
    assert Sorted([1, 2, 3]);
    assert multiset([1, 2, 3]) == multiset([3, 1, 2]);
    SortIsTheSortedPermutation([3, 1, 2], [1, 2, 3]);
  }

  /** Constructing from [3, 1, 2] and reading back gives [1, 2, 3]. */
  method SortThreeOneTwo() returns (r: array<int>)
    ensures r[..] == [1, 2, 3]
  {
    var input := new int[3] [3, 1, 2];
    assert input[..] == [3, 1, 2];
    var s := new SortedList(input);
    r := s.Get();
    SortOfThreeOneTwo();
  }
}
