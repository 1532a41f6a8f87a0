# SortedList: a sortedness capability, modelled in Dafny

`SortedList<A extends Comparable<A>>` is a tiny "kernel of trust". It has one
private field `_list`. Its only constructor copies the list it is given into a
new `ArrayList` and sorts that copy in natural ascending order with
`_list.sort(null)`. Its only accessor, `get()`, returns a clone of the storage.
Because the storage is never handed out, holding a `SortedList` certifies
that its contents are sorted. That guarantee is set up once, at construction.
Writing to the input list afterwards, or writing into a list that `get()`
returned, does not change the storage. Both copies are shallow, though: the
element objects themselves are shared (see "Left out").

The model has two modules:

- `Sorting` (`Sorting.dfy`) defines ascending order (`Sorted`) and a
  reference sort written as functions (`Insert`, `Sort`). It proves that an
  ascending list with a given multiset of elements is unique, so `Sort(s)` is
  *the* ascending permutation of `s`. It also gives the in-place
  `InsertionSort` over an `array<int>`, which stands in for the library call
  `ArrayList.sort(null)`. The method is proved to leave exactly `Sort` of the
  array's old contents in the array.
- `SortedLists` (`SortedList.dfy`) holds the class `SortedList`, with the
  storage as an `array<int>` field `list` and a ghost field `Input` that
  records the constructor's argument. The object invariant `Valid()` says
  that the storage is ascending and is a permutation of `Input`. The
  constructor allocates fresh storage, copies the input into it and sorts
  it. `Get` allocates and returns a fresh copy. A ghost field `Repr` names
  the objects the capability owns (only its storage). Client methods beside
  the class cover four cases: writing to the input after construction,
  writing into a `get()` result, writing to any array outside `Repr`, and
  calling `get()` twice. An example shows that constructing from `[3, 1, 2]`
  and reading back gives `[1, 2, 3]`.

Elements are specialised to `int`, ordered by `<=` (what `compareTo` gives for
integers). Java `List` arguments and results are modelled as `array<int>`:
they are mutable, reference-typed lists of fixed length, which is all this
class does with them.

## Model

| member | source | states |
|---|---|---|
| `Sorting.Insert` | SortedList.java:9 | inserting into an ascending list yields an ascending list one longer with exactly one more occurrence of the new element; its head is the new element or the old head |
| `Sorting.Sort` | SortedList.java:9 | the reference result of `sort(null)`: ascending, same multiset of elements, same length as the input (so empty input gives empty output) |
| `Sorting.SortedPermutationUnique` | SortedList.java:9 | two ascending lists with the same multiset of elements are equal, so the sort contract (ascending + permutation) determines the result |
| `Sorting.SortIsTheSortedPermutation` | SortedList.java:9 | a list equals `Sort(s)` if and only if it is ascending and a permutation of `s` |
| `Sorting.SortDependsOnlyOnElements` | SortedList.java:9 | two inputs sort to the same list if and only if they hold the same elements with the same multiplicities |
| `Sorting.SortFixesExactlySorted` | SortedList.java:9 | sorting leaves a list unchanged if and only if it is already ascending |
| `Sorting.Swap` | SortedList.java:9 | exchanges two array elements, changes nothing else, and keeps the multiset of elements |
| `Sorting.SiftLeft` | SortedList.java:9 | the loop of one insertion step: given an ascending prefix `a[..i]`, leaves `a[..i+1]` ascending, every element after index `i` in place, and the array a permutation of what it was |
| `Sorting.InsertIntoPrefix` | SortedList.java:9 | one insertion step: `a[..i+1]` becomes an ascending permutation of the old `a[..i+1]`; every element after index `i` stays in place; the whole array keeps its multiset |
| `Sorting.InsertionSort` | SortedList.java:9 | the in-place sort leaves the array ascending and a permutation of its old contents, that is, exactly `Sort` of them |
| `SortedLists.SortedList.constructor` | SortedList.java:8-10 | construction always succeeds; the owned storage (`Repr`) is freshly allocated, so it never aliases the input; the input is unchanged; the invariant holds; contents are `Sort` of the input |
| `SortedLists.SortedList.ContentsAreSortedInput` | SortedList.java:5-10 | the object invariant alone fixes the contents: they are `Sort` of the constructor's input |
| `SortedLists.SortedList.Get` | SortedList.java:12-15 | returns a freshly allocated list whose contents equal the stored sorted list; the object is not modified and stays valid |
| `SortedLists.UpdateInputAfterConstruction` | SortedList.java:8-10 | writing to the input list after construction leaves the object valid, with the contents sorted from the input as it was at construction |
| `SortedLists.UpdateCopy` | SortedList.java:12-15 | writing into a list returned by `get()` changes only that copy; a later `get()` still returns the stored contents |
| `SortedLists.UpdateUnownedList` | SortedList.java:5 | because the field is private, writing to any list the object does not own leaves it valid with the same contents |
| `SortedLists.GetTwice` | SortedList.java:12-15 | two successive `get()` calls return two distinct lists with equal, ascending contents |
| `SortedLists.SortOfThreeOneTwo` | SortedList.java:9 | the ascending permutation of `[3, 1, 2]` is `[1, 2, 3]` |
| `SortedLists.SortThreeOneTwo` | SortedList.java:8-15 | constructing from `[3, 1, 2]` and then calling `get()` yields `[1, 2, 3]` |

## Left out

- Generic elements and `Comparable<A>` dispatch: elements are `int` with `<=`. A user-defined `compareTo` that is not a total order is outside the model.
- The internals of `ArrayList.sort` (TimSort): only its contract, ascending order and permutation, is modelled, through `InsertionSort`. Stability is not claimed; with `int` elements, equal elements cannot be told apart.
- `null`: a `null` input list, or `null` elements that `compareTo` would reject, raise `NullPointerException` in Java. Dafny's non-null `array<int>` and `int` rule both out, so these exception paths are not modelled.
- The unchecked cast in `get()` (SortedList.java:13-14) exists only for Java's type system and has no behaviour.
- Element aliasing: `new ArrayList<>(list)` (SortedList.java:9) and `_list.clone()` (SortedList.java:14) are shallow copies. The element objects are shared between the input, the storage and every `get()` result. With a mutable `Comparable` element (a `java.util.Date`, say), changing an element after construction can leave the storage out of order. The model's `int` elements are values, so it does not capture this case: sortedness is guaranteed only for elements that are never mutated.
- Java's `private` modifier: the field `list` can be named from Dafny code. What privacy achieves is modelled instead through allocation. The storage (the ghost footprint `Repr`) is `fresh` at construction and every `get()` result is `fresh`, so no caller holds a reference to the storage, and writes through the caller's references cannot change it.
- Growth of `ArrayList` (capacity, resizing) is not modelled, because this class never adds or removes elements. The storage is a fixed-length array.
- Concurrent modification of the input list while it is being copied is not modelled; the model is sequential.
