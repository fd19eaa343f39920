/** The ownership invariant of `AutoRefCount<T>`: how every handle operation
    moves the counters relative to the live handles, the one operation that
    breaks the balance, and assignments that keep it. */
module Ownership {
  import opened Wrappers
  import opened RefCount
  import opened AutoRef

  // ---------------------------------------------------------------------------
  // Every operation as written, against the invariant

  /** A new handle owns the one reference its fresh object starts with. */
  lemma NewKeepsExcess(w: World)
    requires Valid(w.heap)
    ensures forall o :: Excess(New(w), o) == Excess(w, o)
  {
  }

  /** Adopting a pointer claims one reference nobody accounted for: `FromPointer`
      keeps the balance only when given an object carrying its initial
      reference, such as one just built by `Construct`. */
  lemma FromPointerClaimsOne(w: World, p: Ptr)
    requires p.Some? ==> Live(w.heap, p.value)
    ensures forall o :: Excess(FromPointer(w, p), o) == Excess(w, o) - Points(Holds(p), o)
  {
  }

  /** `New` is `FromPointer` applied to a freshly constructed object. */
  lemma NewIsAdoptConstructed(w: World)
    requires Valid(w.heap)
    ensures var (heap, o) := Construct(w.heap);
            New(w) == FromPointer(World(heap, w.slots), Some(o))
  {
  }

  lemma CopyConstructKeepsExcess(w: World, i: nat)
    requires IsHandle(w, i) && PtrOf(w, i).Some? && Live(w.heap, PtrOf(w, i).value)
    ensures forall o :: Excess(CopyConstruct(w, i), o) == Excess(w, o)
  {
  }

  lemma {:induction false} MoveConstructKeepsExcess(w: World, i: nat)
    requires IsHandle(w, i)
    ensures forall o :: Excess(MoveConstruct(w, i), o) == Excess(w, o)
  {
    var r := MoveConstruct(w, i);
    var moved := w.slots[i := Holds(None)];
    assert r.slots == moved + [w.slots[i]];
    forall o
      ensures Excess(r, o) == Excess(w, o)
    {
      HandleCountUpdate(w.slots, i, Holds(None), o);
      HandleCountAppend(moved, w.slots[i], o);
    }
  }

  lemma {:induction false} DestructKeepsExcess(w: World, i: nat)
    requires IsHandle(w, i) && Owned(w.heap, PtrOf(w, i))
    ensures forall o :: Excess(Destruct(w, i), o) == Excess(w, o)
  {
    forall o
      ensures Excess(Destruct(w, i), o) == Excess(w, o)
    {
      HandleCountUpdate(w.slots, i, Vacant, o);
    }
  }

  lemma {:induction false} CopyAssignKeepsExcess(w: World, d: nat, s: nat)
    requires CopyAssignDefined(w, d, s)
    ensures forall o :: Excess(CopyAssign(w, d, s), o) == Excess(w, o)
  {
    forall o
      ensures Excess(CopyAssign(w, d, s), o) == Excess(w, o)
    {
      HandleCountUpdate(w.slots, d, w.slots[s], o);
    }
  }

  /** Move assignment keeps every balance except in one case: between two
      distinct handles that already share an object, that object is left with
      one reference no handle accounts for. */
  lemma {:induction false} MoveAssignExcess(w: World, d: nat, s: nat)
    requires MoveAssignDefined(w, d, s)
    ensures forall o ::
      Excess(MoveAssign(w, d, s), o) ==
      Excess(w, o) + (if d != s && PtrOf(w, d) == PtrOf(w, s) then Points(w.slots[s], o) else 0)
  {
    forall o
      ensures Excess(MoveAssign(w, d, s), o) ==
        Excess(w, o) + (if d != s && PtrOf(w, d) == PtrOf(w, s) then Points(w.slots[s], o) else 0)
    {
      if d != s {
        var mid := w.slots[d := w.slots[s]];
        HandleCountUpdate(w.slots, d, w.slots[s], o);
        if PtrOf(w, d) == PtrOf(w, s) {
          HandleCountUpdate(w.slots, s, Holds(None), o);
        } else {
          HandleCountUpdate(mid, s, Holds(None), o);
        }
      }
    }
  }

  /** In a balanced state the last handle's destructor deletes the object,
      and any other handle's destructor does not. */
  lemma LastOwnerDeletes(w: World, i: nat)
    requires Balanced(w) && IsHandle(w, i) && PtrOf(w, i).Some?
    ensures Owned(w.heap, PtrOf(w, i))
    ensures var o := PtrOf(w, i).value;
            o in Destruct(w, i).heap.destroyed <==> HandleCount(w.slots, o) == 1
  {
    BalancedHandlesAreOwned(w, i);
    var o := PtrOf(w, i).value;
    assert Excess(w, o) == 0;
  }

  /** A copy compares equal to its source, and after a copy assignment the
      two handles compare equal. */
  lemma CopiesCompareEqual(w: World, i: nat, d: nat)
    requires IsHandle(w, i)
    ensures PtrOf(w, i).Some? && Live(w.heap, PtrOf(w, i).value) ==>
      Equal(CopyConstruct(w, i), |w.slots|, i)
    ensures CopyAssignDefined(w, d, i) ==> Equal(CopyAssign(w, d, i), d, i)
  {
  }

  // ---------------------------------------------------------------------------
  // Findings: the as-written assignments against the intended behaviour

  /** Two handles to one object, then `a = std::move(b)`, then both destroyed:
      the object is never deleted although no handle refers to it. */
  lemma MoveAssignSameTargetLeaks()
    ensures
      var w1 := New(World(EmptyHeap, []));
      var w2 := CopyConstruct(w1, 0);
      var w3 := MoveAssign(w2, 0, 1);
      var w4 := Destruct(w3, 0);
      var w5 := Destruct(w4, 1);
      && w5.slots == [Vacant, Vacant]
      && Live(w5.heap, 0) && CountOf(w5.heap, 0) == 1
      && HandleCount(w5.slots, 0) == 0
      && 0 !in w5.heap.destroyed
  {
  }

  /** A moved-from handle, the destination of `c = b` or `c = std::move(b)`,
      makes both assignments dereference a null pointer. */
  lemma AssignIntoMovedFromIsUndefined()
    ensures
      var w1 := New(World(EmptyHeap, []));
      var w2 := MoveConstruct(w1, 0);
      var w3 := New(w2);
      && PtrOf(w3, 0).None? && PtrOf(w3, 2).Some?
      && !CopyAssignDefined(w3, 0, 2)
      && !MoveAssignDefined(w3, 0, 2)
  {
  }

  // ---------------------------------------------------------------------------
  // Corrected assignments

  /** Copy assignment that tolerates null on either side: it releases the
      destination only when non-null and increments the source's object only
      when non-null. */
  function CopyAssignFixed(w: World, d: nat, s: nat): (r: World)
    requires IsHandle(w, d) && IsHandle(w, s)
    requires d != s && PtrOf(w, d) != PtrOf(w, s) ==> Owned(w.heap, PtrOf(w, d))
    requires d != s && PtrOf(w, d) != PtrOf(w, s) && PtrOf(w, s).Some? ==> Live(w.heap, PtrOf(w, s).value)
    ensures r.slots == w.slots[d := w.slots[s]]
    ensures forall o :: Excess(r, o) == Excess(w, o)
    ensures Valid(w.heap) ==> Valid(r.heap)
  {
    if d == s || PtrOf(w, d) == PtrOf(w, s) then
      w
    else
      var released := match PtrOf(w, d)
        case None => w.heap
        case Some(o) => Decref(w.heap, o);
      var heap := match PtrOf(w, s)
        case None => released
        case Some(o) => Incref(released, o);
      var r := World(heap, w.slots[d := w.slots[s]]);
      assert forall o :: Excess(r, o) == Excess(w, o) by {
        forall o
          ensures Excess(r, o) == Excess(w, o)
        {
          HandleCountUpdate(w.slots, d, w.slots[s], o);
        }
      }
      r
  }

  /** Move assignment that releases the destination's reference whenever the
      destination is non-null, including when the source shares its object,
      and tolerates a null destination. */
  function MoveAssignFixed(w: World, d: nat, s: nat): (r: World)
    requires IsHandle(w, d) && IsHandle(w, s)
    requires d != s ==> Owned(w.heap, PtrOf(w, d))
    ensures d == s ==> r == w
    ensures d != s ==> r.slots == w.slots[d := w.slots[s]][s := Holds(None)]
    ensures forall o :: Excess(r, o) == Excess(w, o)
    ensures Valid(w.heap) ==> Valid(r.heap)
  {
    if d == s then
      w
    else
      var heap := match PtrOf(w, d)
        case None => w.heap
        case Some(o) => Decref(w.heap, o);
      var mid := w.slots[d := w.slots[s]];
      var r := World(heap, mid[s := Holds(None)]);
      assert forall o :: Excess(r, o) == Excess(w, o) by {
        forall o
          ensures Excess(r, o) == Excess(w, o)
        {
          HandleCountUpdate(w.slots, d, w.slots[s], o);
          HandleCountUpdate(mid, s, Holds(None), o);
        }
      }
      r
  }

  /** Wherever the as-written copy assignment is defined, the corrected one
      does the same. */
  lemma CopyAssignFixedAgrees(w: World, d: nat, s: nat)
    requires CopyAssignDefined(w, d, s)
    ensures CopyAssignFixed(w, d, s) == CopyAssign(w, d, s)
  {
  }

  /** Wherever the as-written move assignment is defined, the corrected one
      does the same except in the leaking case. */
  lemma MoveAssignFixedAgrees(w: World, d: nat, s: nat)
    requires MoveAssignDefined(w, d, s)
    requires d == s || PtrOf(w, d) != PtrOf(w, s)
    ensures MoveAssignFixed(w, d, s) == MoveAssign(w, d, s)
  {
  }

  /** The leaking scenario with the corrected move assignment deletes the object. */
  lemma MoveAssignFixedReleases()
    ensures
      var w1 := New(World(EmptyHeap, []));
      var w2 := CopyConstruct(w1, 0);
      var w3 := MoveAssignFixed(w2, 0, 1);
      var w4 := Destruct(w3, 0);
      var w5 := Destruct(w4, 1);
      && w5.slots == [Vacant, Vacant]
      && !Live(w5.heap, 0) && 0 in w5.heap.destroyed
  {
  }
}
