/** The intrusive counter of `RefCountedBase` (BLI_shared.hpp), over an abstract heap.

    Objects are named by identities; the heap records the counter of every
    live object and the set of objects already deleted. Deletion of an object
    only removes it from the heap: a derived type's destructor is not modelled. */
module RefCount {

  /** Identity of a reference-counted object. It is not an address: an
      identity is never reused after its object is deleted. */
  type ObjId = nat

  /** `counts` holds `m_refcount` of every live object, `destroyed` the objects
      on which `delete this` has run, `next` the first identity never handed out. */
  datatype Heap = Heap(counts: map<ObjId, int>, destroyed: set<ObjId>, next: ObjId)

  const EmptyHeap: Heap := Heap(map[], {}, 0)

  predicate Live(h: Heap, o: ObjId) {
    o in h.counts
  }

  /** The counter of `o`, and 0 once it has been deleted or before it exists. */
  function CountOf(h: Heap, o: ObjId): int {
    if o in h.counts then h.counts[o] else 0
  }

  /** The assertion of `decref` holds for `o`: decrementing it cannot go negative. */
  predicate Decrementable(h: Heap, o: ObjId) {
    o in h.counts && h.counts[o] >= 1
  }

  /** Heap invariant: live objects have a positive counter, deleted objects are
      never live again, and every identity in use lies below `next`. */
  ghost predicate Valid(h: Heap) {
    && (forall o :: o in h.counts ==> 1 <= h.counts[o] && o < h.next)
    && (forall o :: o in h.destroyed ==> o < h.next && o !in h.counts)
  }

  /** `RefCountedBase()`: a fresh object whose counter starts at 1. */
  function Construct(h: Heap): (r: (Heap, ObjId))
    requires Valid(h)
    ensures !Live(h, r.1) && r.1 !in h.destroyed
    ensures Live(r.0, r.1) && CountOf(r.0, r.1) == 1
    ensures forall p :: p != r.1 ==> CountOf(r.0, p) == CountOf(h, p) && (Live(r.0, p) <==> Live(h, p))
    ensures r.0.destroyed == h.destroyed
    ensures Valid(r.0)
  {
    (Heap(h.counts[h.next := 1], h.destroyed, h.next + 1), h.next)
  }

  /** `incref`: adds one to the counter of a live object. */
  function Incref(h: Heap, o: ObjId): (r: Heap)
    requires Live(h, o)
    ensures CountOf(r, o) == CountOf(h, o) + 1
    ensures forall p :: p != o ==> CountOf(r, p) == CountOf(h, p)
    ensures r.counts.Keys == h.counts.Keys && r.destroyed == h.destroyed
    ensures Valid(h) ==> Valid(r)
  {
    Heap(h.counts[o := h.counts[o] + 1], h.destroyed, h.next)
  }

  /** `decref`: subtracts one; when the new value is 0 the object is deleted.
      The second requires is the assertion that the new value is not negative. */
  function Decref(h: Heap, o: ObjId): (r: Heap)
    requires Live(h, o)
    requires h.counts[o] - 1 >= 0
    ensures CountOf(r, o) == CountOf(h, o) - 1
    ensures Live(r, o) <==> h.counts[o] - 1 != 0
    ensures r.destroyed == if h.counts[o] - 1 == 0 then h.destroyed + {o} else h.destroyed
    ensures forall p :: p != o ==> CountOf(r, p) == CountOf(h, p) && (Live(r, p) <==> Live(h, p))
    ensures Valid(h) ==> Valid(r)
  {
    var newValue := h.counts[o] - 1;
    if newValue == 0 then
      Heap(h.counts - {o}, h.destroyed + {o}, h.next)
    else
      Heap(h.counts[o := newValue], h.destroyed, h.next)
  }

  /** `refcount()`: the current counter, which is positive in a valid heap. */
  function Refcount(h: Heap, o: ObjId): (r: int)
    requires Live(h, o)
    ensures r == CountOf(h, o)
    ensures Valid(h) ==> r >= 1
  {
    h.counts[o]
  }

  /** An object is deleted at most once: once deleted it is never live, so no
      further `decref` can reach it, and it stays deleted across `Incref`,
      `Decref` and `Construct`. */
  lemma DeletedStaysDeleted(h: Heap, o: ObjId, p: ObjId)
    requires Valid(h) && o in h.destroyed
    ensures !Live(h, o)
    ensures Live(h, p) ==> o in Incref(h, p).destroyed && !Live(Incref(h, p), o)
    ensures Decrementable(h, p) ==> o in Decref(h, p).destroyed && !Live(Decref(h, p), o)
    ensures o in Construct(h).0.destroyed && !Live(Construct(h).0, o)
  {
  }
}
