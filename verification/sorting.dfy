/** Shared vocabulary of the two sorters in 4_sort: what "sorted" means, the
    `slice.swap` primitive they mutate with, and the fact that a sorted
    permutation of a slice is unique. */
module Sorting {

  /** Non-decreasing order, the order `T: Ord` gives the sorters. */
  predicate Sorted(s: seq<int>) {
    forall i, j :: 0 <= i < j < |s| ==> s[i] <= s[j]
  }

  /** Every element of `s` is at most `p`. */
  predicate AllAtMost(s: seq<int>, p: int) {
    forall i :: 0 <= i < |s| ==> s[i] <= p
  }

  /** Every element of `s` is strictly greater than `p`. */
  predicate AllAbove(s: seq<int>, p: int) {
    forall i :: 0 <= i < |s| ==> s[i] > p
  }

  /** `slice.swap(i, j)`: exchanges two positions and touches nothing else. */
  function Swap<T>(s: seq<T>, i: nat, j: nat): (r: seq<T>)
    requires i < |s| && j < |s|
    ensures |r| == |s| && r[i] == s[j] && r[j] == s[i]
    ensures forall k :: 0 <= k < |s| && k != i && k != j ==> r[k] == s[k]
    ensures multiset(r) == multiset(s)
  {
    s[i := s[j]][j := s[i]]
  }

  /** A bound on every element survives a permutation. */
  lemma AtMostPermutation(a: seq<int>, b: seq<int>, p: int)
    requires multiset(a) == multiset(b) && AllAtMost(a, p)
    ensures AllAtMost(b, p)
  {
    forall i | 0 <= i < |b|
      ensures b[i] <= p
    {
      assert b[i] in multiset(b);
      assert b[i] in a;
    }
  }

  /** A strict lower bound on every element survives a permutation. */
  lemma AbovePermutation(a: seq<int>, b: seq<int>, p: int)
    requires multiset(a) == multiset(b) && AllAbove(a, p)
    ensures AllAbove(b, p)
  {
    forall i | 0 <= i < |b|
      ensures b[i] > p
    {
      assert b[i] in multiset(b);
      assert b[i] in a;
    }
  }

  /** Sorted pieces around a pivot that separates them make a sorted whole. */
  lemma SortedAroundPivot(a: seq<int>, p: int, b: seq<int>)
    requires Sorted(a) && Sorted(b) && AllAtMost(a, p) && AllAbove(b, p)
    ensures Sorted(a + [p] + b)
  {
    var s := a + [p] + b;
    forall i, j | 0 <= i < j < |s|
      ensures s[i] <= s[j]
    {
      if j < |a| {
        assert s[i] == a[i] && s[j] == a[j];
      } else if i > |a| {
        assert s[i] == b[i - |a| - 1] && s[j] == b[j - |a| - 1];
      } else if i == |a| {
        assert s[j] == b[j - |a| - 1];
      } else {
        assert s[i] == a[i];
        if j > |a| {
          assert s[j] == b[j - |a| - 1];
        }
      }
    }
  }

  /** There is only one sorted arrangement of a multiset of integers, so a
      sorter's two postconditions determine its output completely. */
  lemma {:induction false} SortedPermutationUnique(a: seq<int>, b: seq<int>)
    requires Sorted(a) && Sorted(b) && multiset(a) == multiset(b)
    ensures a == b
  {
    if |a| == 0 {
      assert |multiset(b)| == 0;
    } else {
      assert |b| == |multiset(b)| == |multiset(a)| == |a|;
      assert a[0] in multiset(b);
      assert a[0] in b;
      assert b[0] in multiset(a);
      assert b[0] in a;
      assert a[0] == b[0];
      assert multiset(a) == multiset([a[0]]) + multiset(a[1..]) by {
        assert a == [a[0]] + a[1..];
      }
      assert multiset(b) == multiset([b[0]]) + multiset(b[1..]) by {
        assert b == [b[0]] + b[1..];
      }
      assert multiset(a[1..]) == multiset(a) - multiset([a[0]]);
      assert multiset(b[1..]) == multiset(b) - multiset([b[0]]);
      SortedPermutationUnique(a[1..], b[1..]);
    }
  }
}
