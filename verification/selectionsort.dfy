/** `SelectionSort::sort` from 4_sort: for every position, find the first
    minimum of the unsorted suffix and swap it into place. The slice is a
    sequence held in a local variable; each `slice.swap` rebinds it. */
module SelectionSort {
  import opened Sorting

  /** `smallest_in_rest`: the index of the FIRST minimal element of
      `slice[unsorted..]`, offset by `unsorted` (`min_by_key` keeps the
      earliest of equal minima). */
  function SmallestInRest(slice: seq<int>, unsorted: nat): (k: nat)
    requires unsorted < |slice|
    ensures unsorted <= k < |slice|
    ensures forall j :: unsorted <= j < |slice| ==> slice[k] <= slice[j]
    ensures forall j :: unsorted <= j < k ==> slice[j] > slice[k]
    decreases |slice| - unsorted
  {
    if unsorted == |slice| - 1 then unsorted
    else
      var k := SmallestInRest(slice, unsorted + 1);
      if slice[k] < slice[unsorted] then k else unsorted
  }

  /** The whole sort: a sorted permutation of the input. */
  method Sort(input: seq<int>) returns (slice: seq<int>)
    ensures Sorted(slice)
    ensures multiset(slice) == multiset(input)
  {
    slice := input;
    for unsorted := 0 to |slice|
      invariant |slice| == |input|
      invariant multiset(slice) == multiset(input)
      invariant forall i, j :: 0 <= i < j < unsorted ==> slice[i] <= slice[j]
      invariant forall i, j :: 0 <= i < unsorted <= j < |slice| ==> slice[i] <= slice[j]
    {
      var smallestInRest := SmallestInRest(slice, unsorted);
      if unsorted != smallestInRest {
        slice := Swap(slice, unsorted, smallestInRest);
      }
    }
  }

  /** The unit test `it_works`. */
  method ItWorks() returns (things: seq<int>)
    ensures things == [1, 2, 3, 4, 5]
  {
    things := Sort([4, 2, 5, 3, 1]);
    assert multiset([4, 2, 5, 3, 1]) == multiset([1, 2, 3, 4, 5]);
    SortedPermutationUnique(things, [1, 2, 3, 4, 5]);
  }
}
