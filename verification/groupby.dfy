/** `group_by` / `GroupBy::next` from 10_fat_pointers_dispatch: split a
    stream into maximal runs of consecutive items with equal keys. The
    iterator is the sequence of items it has still to yield; the grouper is
    a pure key function. */
module GroupBy {
  import opened Optional

  /** The peek loop (lines 188-198): how many leading items of `xs` have key `k`. */
  function Span<T, K(==)>(xs: seq<T>, key: T -> K, k: K): (n: nat)
    ensures n <= |xs|
    ensures forall i :: 0 <= i < n ==> key(xs[i]) == k
    ensures n < |xs| ==> key(xs[n]) != k
  {
    if |xs| == 0 || key(xs[0]) != k then 0 else 1 + Span(xs[1..], key, k)
  }

  /** Every item of `g` has the key of its first item. */
  predicate Homogeneous<T, K(==)>(g: seq<T>, key: T -> K)
    requires |g| > 0
  {
    forall i :: 0 <= i < |g| ==> key(g[i]) == key(g[0])
  }

  /** `GroupBy::next`: `None` when the input is exhausted, otherwise the next
      group together with the items left for later calls. */
  function Next<T, K(==)>(xs: seq<T>, key: T -> K): (r: Option<(seq<T>, seq<T>)>)
    ensures r.None? <==> |xs| == 0
    ensures r.Some? ==> |r.value.0| > 0 && r.value.0 + r.value.1 == xs
    ensures r.Some? ==> Homogeneous(r.value.0, key)
    ensures r.Some? && |r.value.1| > 0 ==> key(r.value.1[0]) != key(r.value.0[0])
  {
    if |xs| == 0 then None
    else
      var n := 1 + Span(xs[1..], key, key(xs[0]));
      assert xs[..n] + xs[n..] == xs;
      Some((xs[..n], xs[n..]))
  }

  /** The iterator returned by `group_by`: every group it yields, in order,
      until `next` returns `None`. The groups partition the input: each is
      non-empty and key-homogeneous, consecutive groups have different keys,
      and concatenated in order they give the input back. */
  function Groups<T, K(==)>(xs: seq<T>, key: T -> K): (gs: seq<seq<T>>)
    ensures IsGrouping(gs, key, xs)
    decreases |xs|
  {
    match Next(xs, key)
    case None => []
    case Some((g, rest)) =>
      var tail := Groups(rest, key);
      GroupingCons(g, tail, key, rest);
      [g] + tail
  }

  /** Concatenation of a sequence of groups. */
  function Flatten<T>(gs: seq<seq<T>>): seq<T> {
    if |gs| == 0 then [] else gs[0] + Flatten(gs[1..])
  }

  /** What a correct grouping of `xs` is: non-empty, key-homogeneous groups,
      neighbours with different keys, concatenating back to `xs`. */
  ghost predicate IsGrouping<T, K>(gs: seq<seq<T>>, key: T -> K, xs: seq<T>) {
    && (forall i :: 0 <= i < |gs| ==> |gs[i]| > 0 && Homogeneous(gs[i], key))
    && (forall i :: 0 < i < |gs| ==> key(gs[i][0]) != key(gs[i - 1][0]))
    && Flatten(gs) == xs
  }

  /** A first group in front of a grouping of the rest is a grouping of the
      whole, when the rest starts on a different key. */
  lemma GroupingCons<T, K>(g: seq<T>, tail: seq<seq<T>>, key: T -> K, rest: seq<T>)
    requires |g| > 0 && Homogeneous(g, key)
    requires IsGrouping(tail, key, rest)
    requires |rest| > 0 ==> key(rest[0]) != key(g[0])
    ensures IsGrouping([g] + tail, key, g + rest)
  {
    var gs := [g] + tail;
    assert gs[1..] == tail;
    if |tail| > 0 {
      assert Flatten(tail) == tail[0] + Flatten(tail[1..]);
      assert rest[0] == tail[0][0];
    }
  }

  /** In any correct grouping, the first group is the one `next` yields:
      the maximal run of equal keys at the front of the input. */
  lemma FirstGroupIsNext<T, K>(gs: seq<seq<T>>, key: T -> K, xs: seq<T>)
    requires IsGrouping(gs, key, xs) && |gs| > 0
    ensures Next(xs, key) == Some((gs[0], Flatten(gs[1..])))
  {
    var g := gs[0];
    var tail := gs[1..];
    assert xs == g + Flatten(tail);
    var k := key(xs[0]);
    assert key(g[0]) == k;
    forall i | 0 <= i < |g| - 1
      ensures key(xs[1..][i]) == k
    {
      assert xs[1..][i] == g[i + 1];
    }
    if |tail| > 0 {
      assert Flatten(tail) == tail[0] + Flatten(tail[1..]);
      assert xs[|g|] == tail[0][0];
      assert key(xs[1..][|g| - 1]) != k;
    }
    assert Span(xs[1..], key, k) == |g| - 1;
  }

  /** The grouping is unique: any correct grouping of `xs` is the one the
      iterator produces. */
  lemma {:induction false} GroupingUnique<T, K>(gs: seq<seq<T>>, key: T -> K, xs: seq<T>)
    requires IsGrouping(gs, key, xs)
    ensures gs == Groups(xs, key)
    decreases |gs|
  {
    if |gs| == 0 {
      assert xs == [];
    } else {
      FirstGroupIsNext(gs, key, xs);
      var tail := gs[1..];
      assert IsGrouping(tail, key, Flatten(tail));
      GroupingUnique(tail, key, Flatten(tail));
    }
  }
}
