/** The owning handle `AutoRefCount<T>` (BLI_shared.hpp), modelled sequentially.

    A program state is a heap of reference-counted objects plus the handle
    variables in scope. A handle variable is a slot: `Vacant` before it is
    constructed or after its destructor ran, `Holds(ptr)` while alive, where
    `ptr` is `m_object` (`None` is `nullptr`). A constructor appends a slot;
    the slot index plays the role of the variable's address, so `this == &other`
    is index equality. */
module AutoRef {
  import opened Wrappers
  import opened RefCount

  /** The raw pointer `m_object`. */
  type Ptr = Option<ObjId>

  datatype Slot = Vacant | Holds(ptr: Ptr)

  datatype World = World(heap: Heap, slots: seq<Slot>)

  /** 1 when the slot is a live handle pointing at `o`. */
  function Points(s: Slot, o: ObjId): nat {
    if s == Holds(Some(o)) then 1 else 0
  }

  /** Number of live, non-null handles that point at `o`. */
  function HandleCount(slots: seq<Slot>, o: ObjId): nat
    decreases |slots|
  {
    if |slots| == 0 then 0
    else HandleCount(slots[..|slots| - 1], o) + Points(slots[|slots| - 1], o)
  }

  /** References to `o` that no live handle accounts for. The central invariant
      of the handle is that this is 0 for every object. */
  function Excess(w: World, o: ObjId): int {
    CountOf(w.heap, o) - HandleCount(w.slots, o)
  }

  /** Each live object's counter equals the number of live handles to it, and
      no handle points at a deleted or never-created object. */
  ghost predicate Balanced(w: World) {
    Valid(w.heap) && forall o: ObjId :: Excess(w, o) == 0
  }

  predicate IsHandle(w: World, i: nat) {
    i < |w.slots| && w.slots[i].Holds?
  }

  /** A pointer the handle may release: null, or an object whose `decref`
      is allowed. */
  predicate Owned(h: Heap, p: Ptr) {
    p.Some? ==> Decrementable(h, p.value)
  }

  /** `ptr()` and `operator->`: the handle's raw pointer. */
  function PtrOf(w: World, i: nat): Ptr
    requires IsHandle(w, i)
  {
    w.slots[i].ptr
  }

  // ---------------------------------------------------------------------------
  // Counting lemmas

  lemma HandleCountAppend(slots: seq<Slot>, x: Slot, o: ObjId)
    ensures HandleCount(slots + [x], o) == HandleCount(slots, o) + Points(x, o)
  {
  }

  lemma {:induction false} HandleCountUpdate(slots: seq<Slot>, i: nat, x: Slot, o: ObjId)
    requires i < |slots|
    ensures HandleCount(slots[i := x], o) == HandleCount(slots, o) - Points(slots[i], o) + Points(x, o)
    decreases |slots|
  {
    var n := |slots| - 1;
    if i == n {
      assert slots[i := x][..n] == slots[..n];
    } else {
      HandleCountUpdate(slots[..n], i, x, o);
      assert slots[i := x][..n] == slots[..n][i := x];
    }
  }

  /** A live handle to `o` is counted. */
  lemma {:induction false} HandleCountPositive(slots: seq<Slot>, i: nat, o: ObjId)
    requires i < |slots| && slots[i] == Holds(Some(o))
    ensures HandleCount(slots, o) >= 1
    decreases |slots|
  {
    var n := |slots| - 1;
    if i < n {
      HandleCountPositive(slots[..n], i, o);
    }
  }

  /** In a balanced state every live non-null handle points at a live object
      whose `decref` is allowed, so no use-after-free can happen. */
  lemma BalancedHandlesAreOwned(w: World, i: nat)
    requires Balanced(w) && IsHandle(w, i)
    ensures Owned(w.heap, PtrOf(w, i))
    ensures PtrOf(w, i).Some? ==> Live(w.heap, PtrOf(w, i).value)
  {
    if PtrOf(w, i).Some? {
      var o := PtrOf(w, i).value;
      HandleCountPositive(w.slots, i, o);
      assert Excess(w, o) == 0;
    }
  }

  // ---------------------------------------------------------------------------
  // Construction

  /** `AutoRefCount()` and `New(args...)`: a new object, owned only by the new handle. */
  function New(w: World): (r: World)
    requires Valid(w.heap)
    ensures |r.slots| == |w.slots| + 1 && r.slots[..|w.slots|] == w.slots
    ensures r.slots[|w.slots|].Holds? && r.slots[|w.slots|].ptr.Some?
    ensures var o := r.slots[|w.slots|].ptr.value;
      && !Live(w.heap, o) && o !in w.heap.destroyed
      && CountOf(r.heap, o) == 1
      && HandleCount(r.slots, o) == 1 + HandleCount(w.slots, o)
      && (Balanced(w) ==> HandleCount(r.slots, o) == 1)
      && (forall p :: p != o ==> CountOf(r.heap, p) == CountOf(w.heap, p))
    ensures r.heap.destroyed == w.heap.destroyed && Valid(r.heap)
  {
    var (heap, o) := Construct(w.heap);
    HandleCountAppend(w.slots, Holds(Some(o)), o);
    assert Balanced(w) ==> Excess(w, o) == 0;
    assert (w.slots + [Holds(Some(o))])[..|w.slots|] == w.slots;
    World(heap, w.slots + [Holds(Some(o))])
  }

  /** `FromPointer(object)`: adopts the pointer without touching any counter. */
  function FromPointer(w: World, p: Ptr): (r: World)
    requires p.Some? ==> Live(w.heap, p.value)
    ensures r.heap == w.heap
    ensures |r.slots| == |w.slots| + 1 && r.slots[..|w.slots|] == w.slots && r.slots[|w.slots|] == Holds(p)
  {
    assert (w.slots + [Holds(p)])[..|w.slots|] == w.slots;
    World(w.heap, w.slots + [Holds(p)])
  }

  /** The copy constructor: the new handle shares the source's object, whose
      counter goes up by one. The source must not be null. */
  function CopyConstruct(w: World, i: nat): (r: World)
    requires IsHandle(w, i) && PtrOf(w, i).Some? && Live(w.heap, PtrOf(w, i).value)
    ensures |r.slots| == |w.slots| + 1 && r.slots[..|w.slots|] == w.slots
    ensures r.slots[|w.slots|] == w.slots[i]
    ensures CountOf(r.heap, PtrOf(w, i).value) == CountOf(w.heap, PtrOf(w, i).value) + 1
    ensures forall p :: p != PtrOf(w, i).value ==> CountOf(r.heap, p) == CountOf(w.heap, p)
    ensures r.heap.destroyed == w.heap.destroyed
    ensures Valid(w.heap) ==> Valid(r.heap)
  {
    assert (w.slots + [w.slots[i]])[..|w.slots|] == w.slots;
    World(Incref(w.heap, PtrOf(w, i).value), w.slots + [w.slots[i]])
  }

  /** The move constructor: the new handle takes the source's pointer and the
      source becomes null; no counter changes. */
  function MoveConstruct(w: World, i: nat): (r: World)
    requires IsHandle(w, i)
    ensures r.heap == w.heap
    ensures |r.slots| == |w.slots| + 1
    ensures r.slots[|w.slots|] == w.slots[i] && r.slots[i] == Holds(None)
    ensures forall j :: 0 <= j < |w.slots| && j != i ==> r.slots[j] == w.slots[j]
  {
    World(w.heap, w.slots[i := Holds(None)] + [w.slots[i]])
  }

  /** The destructor: a null handle releases nothing; otherwise its object is
      decremented once (and deleted if that was the last reference). */
  function Destruct(w: World, i: nat): (r: World)
    requires IsHandle(w, i) && Owned(w.heap, PtrOf(w, i))
    ensures r.slots == w.slots[i := Vacant]
    ensures PtrOf(w, i).None? ==> r.heap == w.heap
    ensures PtrOf(w, i).Some? ==>
      var o := PtrOf(w, i).value;
      && CountOf(r.heap, o) == CountOf(w.heap, o) - 1
      && (o in r.heap.destroyed - w.heap.destroyed <==> o !in w.heap.destroyed && CountOf(w.heap, o) == 1)
      && (forall p :: p != o ==> CountOf(r.heap, p) == CountOf(w.heap, p))
    ensures r.heap.destroyed ==
      if PtrOf(w, i).Some? && CountOf(w.heap, PtrOf(w, i).value) == 1
      then w.heap.destroyed + {PtrOf(w, i).value}
      else w.heap.destroyed
    ensures Valid(w.heap) ==> Valid(r.heap)
  {
    var slots := w.slots[i := Vacant];
    match PtrOf(w, i)
    case None => World(w.heap, slots)
    case Some(o) => World(Decref(w.heap, o), slots)
  }

  // ---------------------------------------------------------------------------
  // Assignment, as written

  /** When copy assignment does not dereference a null pointer: the distinct
      branch releases the destination and increments the source's object. */
  predicate CopyAssignDefined(w: World, d: nat, s: nat) {
    && IsHandle(w, d) && IsHandle(w, s)
    && (d != s && PtrOf(w, d) != PtrOf(w, s) ==>
          && PtrOf(w, d).Some? && Decrementable(w.heap, PtrOf(w, d).value)
          && PtrOf(w, s).Some? && Live(w.heap, PtrOf(w, s).value))
  }

  /** `operator=(const AutoRefCount &)`. Self-assignment and assignment between
      handles sharing an object change nothing; otherwise the old object is
      decremented, the destination takes the source's pointer, and the new
      object is incremented. */
  function CopyAssign(w: World, d: nat, s: nat): (r: World)
    requires CopyAssignDefined(w, d, s)
    ensures (d == s || PtrOf(w, d) == PtrOf(w, s)) ==> r == w
    ensures r.slots == w.slots[d := w.slots[s]]
    ensures d != s && PtrOf(w, d) != PtrOf(w, s) ==>
      var old_ := PtrOf(w, d).value;
      var new_ := PtrOf(w, s).value;
      && CountOf(r.heap, old_) == CountOf(w.heap, old_) - 1
      && CountOf(r.heap, new_) == CountOf(w.heap, new_) + 1
      && (forall p :: p != old_ && p != new_ ==> CountOf(r.heap, p) == CountOf(w.heap, p))
      && r.heap.destroyed == (if CountOf(w.heap, old_) == 1 then w.heap.destroyed + {old_} else w.heap.destroyed)
    ensures Valid(w.heap) ==> Valid(r.heap)
  {
    if d == s then w
    else if PtrOf(w, d) == PtrOf(w, s) then w
    else
      var released := Decref(w.heap, PtrOf(w, d).value);
      World(Incref(released, PtrOf(w, s).value), w.slots[d := w.slots[s]])
  }

  /** When move assignment does not dereference a null pointer: the distinct
      branch releases the destination. */
  predicate MoveAssignDefined(w: World, d: nat, s: nat) {
    && IsHandle(w, d) && IsHandle(w, s)
    && (d != s && PtrOf(w, d) != PtrOf(w, s) ==>
          PtrOf(w, d).Some? && Decrementable(w.heap, PtrOf(w, d).value))
  }

  /** `operator=(AutoRefCount &&)`. Self-assignment changes nothing. When both
      handles already share a pointer the source is nulled WITHOUT releasing
      its reference. Otherwise the old object is decremented, the destination
      takes the source's pointer, and the source is nulled. */
  function MoveAssign(w: World, d: nat, s: nat): (r: World)
    requires MoveAssignDefined(w, d, s)
    ensures d == s ==> r == w
    ensures d != s ==> r.slots == w.slots[d := w.slots[s]][s := Holds(None)]
    ensures d != s && PtrOf(w, d) == PtrOf(w, s) ==> r.heap == w.heap
    ensures d != s && PtrOf(w, d) != PtrOf(w, s) ==>
      var old_ := PtrOf(w, d).value;
      && CountOf(r.heap, old_) == CountOf(w.heap, old_) - 1
      && (forall p :: p != old_ ==> CountOf(r.heap, p) == CountOf(w.heap, p))
      && r.heap.destroyed == (if CountOf(w.heap, old_) == 1 then w.heap.destroyed + {old_} else w.heap.destroyed)
    ensures Valid(w.heap) ==> Valid(r.heap)
  {
    if d == s then w
    else if PtrOf(w, d) == PtrOf(w, s) then
      World(w.heap, w.slots[s := Holds(None)])
    else
      World(Decref(w.heap, PtrOf(w, d).value), w.slots[d := w.slots[s]][s := Holds(None)])
  }

  // ---------------------------------------------------------------------------
  // Identity

  /** `operator==`: two handles are equal exactly when they hold the same
      pointer, both null or both naming the same object. */
  function Equal(w: World, a: nat, b: nat): (r: bool)
    requires IsHandle(w, a) && IsHandle(w, b)
    ensures r <==>
      || (PtrOf(w, a).None? && PtrOf(w, b).None?)
      || (PtrOf(w, a).Some? && PtrOf(w, b).Some? && PtrOf(w, a).value == PtrOf(w, b).value)
  {
    PtrOf(w, a) == PtrOf(w, b)
  }

  /** `operator!=`: the negation of `operator==`. */
  function NotEqual(w: World, a: nat, b: nat): (r: bool)
    requires IsHandle(w, a) && IsHandle(w, b)
    ensures r <==> !Equal(w, a, b)
    ensures r <==> PtrOf(w, a) != PtrOf(w, b)
  {
    !(Equal(w, a, b))
  }
}
