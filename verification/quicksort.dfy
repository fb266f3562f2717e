/** `quicksort` from 4_sort: a hand-written Hoare-style partition around the
    first element, then recursion on the two sides. Slices are sequences;
    `split_first_mut`/`split_at_mut` become sub-sequences and the recursive
    calls' results are put back in place by concatenation. */
module QuickSort {
  import opened Sorting

  /** The partition loop (lines 19-43) over `rest`, the slice without its
      first element `pivot`: `left` walks up over items `<= pivot`, `right`
      walks down over items `> pivot`, and a misplaced pair is swapped. On
      exit, `left` splits `rest` into the items at most the pivot and the
      items above it. */
  method PartitionLoop(pivot: int, input: seq<int>) returns (rest: seq<int>, left: nat)
    requires |input| >= 2
    ensures |rest| == |input| && multiset(rest) == multiset(input)
    ensures left <= |rest|
    ensures forall i :: 0 <= i < left ==> rest[i] <= pivot
    ensures forall i :: left <= i < |rest| ==> rest[i] > pivot
  {
    rest := input;
    left := 0;
    var right: nat := |rest| - 1;
    while left <= right
      invariant |rest| == |input|
      invariant multiset(rest) == multiset(input)
      invariant left <= right + 1 && right < |rest|
      invariant forall i :: 0 <= i < left ==> rest[i] <= pivot
      invariant forall i :: right < i < |rest| ==> rest[i] > pivot
      decreases |rest| - left + right
    {
      if rest[left] <= pivot {
        left := left + 1;
      } else if rest[right] > pivot {
        if right == 0 {
          break;
        }
        right := right - 1;
      } else {
        rest := Swap(rest, left, right);
        left := left + 1;
        if right == 0 {
          break;
        }
        right := right - 1;
      }
    }
  }

  /** Lines 45-49: the pivot goes back in front of `rest` and is swapped
      with the last item at most the pivot, at index `left`. */
  function PlacePivot(pivot: int, rest: seq<int>, left: nat): (r: seq<int>)
    requires left <= |rest|
    requires forall i :: 0 <= i < left ==> rest[i] <= pivot
    requires forall i :: left <= i < |rest| ==> rest[i] > pivot
    ensures |r| == |rest| + 1 && multiset(r) == multiset([pivot] + rest)
    ensures r[left] == pivot
    ensures forall i :: 0 <= i < left ==> r[i] <= pivot
    ensures forall i :: left < i < |r| ==> r[i] > pivot
  {
    var aligned := left + 1;
    Swap([pivot] + rest, 0, aligned - 1)
  }

  /** The partition step (lines 18-52): returns the rearranged slice and the
      pivot's final index. */
  method Partition(slice: seq<int>) returns (r: seq<int>, mid: nat)
    requires |slice| >= 3
    ensures |r| == |slice| && multiset(r) == multiset(slice)
    ensures mid < |r| && r[mid] == slice[0]
    ensures forall i :: 0 <= i < mid ==> r[i] <= r[mid]
    ensures forall i :: mid < i < |r| ==> r[i] > r[mid]
  {
    var pivot := slice[0];
    var rest, left := PartitionLoop(pivot, slice[1..]);
    assert slice == [pivot] + slice[1..];
    assert multiset([pivot] + rest) == multiset(slice);
    r := PlacePivot(pivot, rest, left);
    mid := left;
  }

  /** `quicksort(slice)`: sorts the slice, as a permutation of its input. */
  method Quicksort(slice: seq<int>) returns (r: seq<int>)
    ensures Sorted(r)
    ensures multiset(r) == multiset(slice)
    ensures |slice| <= 1 ==> r == slice
    ensures |slice| == 2 && slice[0] <= slice[1] ==> r == slice
    ensures |slice| == 2 && slice[0] > slice[1] ==> r == [slice[1], slice[0]]
    decreases |slice|
  {
    if |slice| <= 1 {
      return slice;
    }
    if |slice| == 2 {
      if slice[0] > slice[1] {
        r := Swap(slice, 0, 1);
        return r;
      }
      return slice;
    }
    var parted, mid := Partition(slice);
    var lower, pivot, upper := parted[..mid], parted[mid], parted[mid + 1..];
    assert parted == lower + [pivot] + upper;
    // The Rust `assert!` that the pivot's left neighbour is at most the
    // pivot never fails.
    assert mid > 0 ==> parted[mid - 1] <= parted[mid];
    assert AllAtMost(lower, pivot);
    assert AllAbove(upper, pivot);
    var sortedLower := Quicksort(lower);
    var sortedUpper := Quicksort(upper);
    AtMostPermutation(lower, sortedLower, pivot);
    AbovePermutation(upper, sortedUpper, pivot);
    SortedAroundPivot(sortedLower, pivot, sortedUpper);
    r := sortedLower + [pivot] + sortedUpper;
  }

  /** `QuickSort::sort`, and its unit test `it_works`. */
  method ItWorks() returns (things: seq<int>)
    ensures things == [1, 2, 3, 4, 5, 6, 7, 8, 9]
  {
    var input := [4, 2, 5, 3, 1, 6, 7, 8, 9];
    things := Quicksort(input);
    TestInputPermutation();
    TestOutputSorted();
    SortedPermutationUnique(things, [1, 2, 3, 4, 5, 6, 7, 8, 9]);
  }

  lemma TestInputPermutation()
    ensures multiset([4, 2, 5, 3, 1, 6, 7, 8, 9]) == multiset([1, 2, 3, 4, 5, 6, 7, 8, 9])
  {
    assert [4, 2, 5, 3, 1, 6, 7, 8, 9] == [4, 2, 5, 3, 1] + [6, 7, 8, 9];
    assert [1, 2, 3, 4, 5, 6, 7, 8, 9] == [1, 2, 3, 4, 5] + [6, 7, 8, 9];
    assert multiset([4, 2, 5, 3, 1]) == multiset([1, 2, 3, 4, 5]);
  }

  lemma TestOutputSorted()
    ensures Sorted([1, 2, 3, 4, 5, 6, 7, 8, 9])
  {
    var s := [1, 2, 3, 4, 5, 6, 7, 8, 9];
    assert forall i :: 0 <= i < |s| ==> s[i] == i + 1;
  }
}
