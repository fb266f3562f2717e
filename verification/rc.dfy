/** The hand-rolled `Rc` of vid3: a heap allocation holding a value and a
    reference count, shared by interchangeable handles. The heap is a
    sequence of allocation records (an index is an address) with a `freed`
    flag for `Box::from_raw`; the live handles are a multiset of addresses.
    The count's `Cell` is a plain field. */
module RefCount {

  type Ptr = nat

  /** `SharedValue<T>`, plus whether its box has been freed. */
  datatype SharedValue<T> = SharedValue(value: T, refcount: nat, freed: bool)

  datatype Heap<T> = Heap(allocs: seq<SharedValue<T>>, handles: multiset<Ptr>)

  /** Every handle points at an allocation; an allocation that is not freed
      has a count equal to its number of live handles, and at least one; a
      freed one has no handle left. */
  ghost predicate Valid<T>(h: Heap<T>) {
    && (forall p :: p in h.handles ==> p < |h.allocs|)
    && (forall p :: 0 <= p < |h.allocs| ==>
          if h.allocs[p].freed then h.handles[p] == 0
          else h.allocs[p].refcount == h.handles[p] && h.handles[p] >= 1)
  }

  /** `Rc::new`: a fresh allocation holding `v` with count 1, and one handle to it. */
  function New<T>(h: Heap<T>, v: T): (r: (Heap<T>, Ptr))
    ensures r.1 == |h.allocs| && |r.0.allocs| == |h.allocs| + 1
    ensures r.0.allocs[r.1] == SharedValue(v, 1, false)
    ensures r.0.allocs[..|h.allocs|] == h.allocs
    ensures r.0.handles == h.handles + multiset{r.1}
    ensures Valid(h) ==> Valid(r.0)
  {
    var p := |h.allocs|;
    (Heap(h.allocs + [SharedValue(v, 1, false)], h.handles + multiset{p}), p)
  }

  /** `Rc::clone`: one more handle to the same allocation. */
  function Clone<T>(h: Heap<T>, p: Ptr): (r: Heap<T>)
    requires Valid(h) && p in h.handles
    ensures |r.allocs| == |h.allocs|
    ensures r.allocs[p].refcount == h.allocs[p].refcount + 1
    ensures r.allocs[p].value == h.allocs[p].value && !r.allocs[p].freed
    ensures forall q :: 0 <= q < |h.allocs| && q != p ==> r.allocs[q] == h.allocs[q]
    ensures r.handles == h.handles + multiset{p}
    ensures Valid(r)
  {
    var inner := h.allocs[p];
    var c := inner.refcount;
    Heap(h.allocs[p := inner.(refcount := c + 1)], h.handles + multiset{p})
  }

  /** `Drop for Rc`: the last handle frees the allocation, any other one
      only decrements the count. */
  function Drop<T>(h: Heap<T>, p: Ptr): (r: Heap<T>)
    requires Valid(h) && p in h.handles
    ensures |r.allocs| == |h.allocs|
    ensures r.allocs[p].freed <==> h.allocs[p].refcount == 1
    ensures h.allocs[p].refcount > 1 ==> r.allocs[p].refcount == h.allocs[p].refcount - 1
    ensures r.allocs[p].value == h.allocs[p].value
    ensures forall q :: 0 <= q < |h.allocs| && q != p ==> r.allocs[q] == h.allocs[q]
    ensures r.handles == h.handles - multiset{p}
    ensures Valid(r)
  {
    var inner := h.allocs[p];
    var c := inner.refcount;
    if c == 1 then
      Heap(h.allocs[p := inner.(freed := true)], h.handles - multiset{p})
    else
      Heap(h.allocs[p := inner.(refcount := c - 1)], h.handles - multiset{p})
  }

  /** `Deref for Rc`: the value stored in the (necessarily live) allocation. */
  function Deref<T>(h: Heap<T>, p: Ptr): (v: T)
    requires Valid(h) && p in h.handles
    ensures !h.allocs[p].freed && v == h.allocs[p].value
  {
    h.allocs[p].value
  }

  /** A handle keeps reading the value it was created with while other
      handles are created, cloned and dropped. */
  lemma DerefStable<T>(h: Heap<T>, p: Ptr, q: Ptr, v: T)
    requires Valid(h) && p in h.handles && q in h.handles
    ensures Deref(New(h, v).0, p) == Deref(h, p)
    ensures Deref(Clone(h, q), p) == Deref(h, p)
    ensures p in Drop(h, q).handles ==> Deref(Drop(h, q), p) == Deref(h, p)
  {
  }

  /** The allocation is freed exactly when its last handle is dropped, and
      not before: while a handle remains, so does the allocation. */
  lemma FreedExactlyAtLastHandle<T>(h: Heap<T>, p: Ptr)
    requires Valid(h) && p in h.handles
    ensures Drop(h, p).allocs[p].freed <==> Drop(h, p).handles[p] == 0
  {
  }

  /** `new`, then `clone`, then dropping both handles frees the value only
      at the second drop. */
  lemma Lifecycle<T>(v: T)
    ensures var (h1, p) := New(Heap([], multiset{}), v);
      var h2 := Clone(h1, p);
      && Deref(h2, p) == v
      && h2.allocs[p].refcount == 2
      && !Drop(h2, p).allocs[p].freed
      && Drop(Drop(h2, p), p).allocs[p].freed
  {
  }
}
