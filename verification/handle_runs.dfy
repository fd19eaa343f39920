/** Programs over handles: any sequence of constructions, copies, moves,
    destructions and assignments, run with the corrected assignments, keeps
    every object's counter equal to the number of live handles to it. */
module HandleRuns {
  import opened Wrappers
  import opened RefCount
  import opened AutoRef
  import opened Ownership

  /** One statement on handle variables, named by slot index. */
  datatype Op =
    | Create                          // AutoRefCount<T> h; or New(...)
    | Copy(src: nat)                  // AutoRefCount<T> h(src);
    | Move(src: nat)                  // AutoRefCount<T> h(std::move(src));
    | Destroy(h: nat)                 // end of h's scope
    | CopyInto(dst: nat, src: nat)    // dst = src;
    | MoveInto(dst: nat, src: nat)    // dst = std::move(src);

  /** Whether the statement only names live handles (and copies a non-null one). */
  predicate WellScoped(w: World, op: Op) {
    match op
    case Create => true
    case Copy(i) => IsHandle(w, i) && PtrOf(w, i).Some?
    case Move(i) => IsHandle(w, i)
    case Destroy(i) => IsHandle(w, i)
    case CopyInto(d, s) => IsHandle(w, d) && IsHandle(w, s)
    case MoveInto(d, s) => IsHandle(w, d) && IsHandle(w, s)
  }

  /** Runs one statement; `None` when it would touch a dead handle, a null
      pointer or a deleted object. */
  function Step(w: World, op: Op): (r: Option<World>)
    requires Valid(w.heap)
    ensures r.Some? ==> WellScoped(w, op)
    ensures r.Some? ==> Valid(r.value.heap) && w.heap.destroyed <= r.value.heap.destroyed
  {
    match op
    case Create => Some(New(w))
    case Copy(i) =>
      if IsHandle(w, i) && PtrOf(w, i).Some? && Live(w.heap, PtrOf(w, i).value)
      then Some(CopyConstruct(w, i)) else None
    case Move(i) =>
      if IsHandle(w, i) then Some(MoveConstruct(w, i)) else None
    case Destroy(i) =>
      if IsHandle(w, i) && Owned(w.heap, PtrOf(w, i)) then Some(Destruct(w, i)) else None
    case CopyInto(d, s) =>
      if IsHandle(w, d) && IsHandle(w, s) && Owned(w.heap, PtrOf(w, d))
         && (PtrOf(w, s).Some? ==> Live(w.heap, PtrOf(w, s).value))
      then
        var r := CopyAssignFixed(w, d, s);
        assert w.heap.destroyed <= r.heap.destroyed by {
          if d != s && PtrOf(w, d) != PtrOf(w, s) && PtrOf(w, d).Some? {
            var o := PtrOf(w, d).value;
            assert forall p :: p in w.heap.destroyed ==> p in Decref(w.heap, o).destroyed;
          }
        }
        Some(r)
      else None
    case MoveInto(d, s) =>
      if IsHandle(w, d) && IsHandle(w, s) && Owned(w.heap, PtrOf(w, d))
      then Some(MoveAssignFixed(w, d, s)) else None
  }

  /** Runs statements in order; `None` as soon as one is not well defined. */
  function Exec(w: World, ops: seq<Op>): (r: Option<World>)
    requires Valid(w.heap)
    ensures r.Some? ==> Valid(r.value.heap) && w.heap.destroyed <= r.value.heap.destroyed
    decreases |ops|
  {
    if |ops| == 0 then Some(w)
    else
      match Step(w, ops[0])
      case None => None
      case Some(next) => Exec(next, ops[1..])
  }

  /** A statement leaves every object's unaccounted references unchanged. */
  lemma StepKeepsExcess(w: World, op: Op)
    requires Valid(w.heap) && Step(w, op).Some?
    ensures forall o :: Excess(Step(w, op).value, o) == Excess(w, o)
  {
    match op
    case Create => NewKeepsExcess(w);
    case Copy(i) => CopyConstructKeepsExcess(w, i);
    case Move(i) => MoveConstructKeepsExcess(w, i);
    case Destroy(i) => DestructKeepsExcess(w, i);
    case CopyInto(d, s) =>
    case MoveInto(d, s) =>
  }

  /** In a balanced state a statement runs exactly when it is well scoped:
      the balance alone rules out every use of a deleted object. */
  lemma BalancedStepDefined(w: World, op: Op)
    requires Balanced(w)
    ensures Step(w, op).Some? <==> WellScoped(w, op)
  {
    match op
    case Create =>
    case Copy(i) =>
      if IsHandle(w, i) { BalancedHandlesAreOwned(w, i); }
    case Move(i) =>
    case Destroy(i) =>
      if IsHandle(w, i) { BalancedHandlesAreOwned(w, i); }
    case CopyInto(d, s) =>
      if IsHandle(w, d) && IsHandle(w, s) {
        BalancedHandlesAreOwned(w, d);
        BalancedHandlesAreOwned(w, s);
      }
    case MoveInto(d, s) =>
      if IsHandle(w, d) { BalancedHandlesAreOwned(w, d); }
  }

  /** Any program run from a balanced state ends balanced: each live object's
      counter equals its live handles, no handle dangles, and every object
      deleted along the way stays deleted. */
  lemma {:induction false} ExecKeepsBalance(w: World, ops: seq<Op>)
    requires Balanced(w) && Exec(w, ops).Some?
    ensures Balanced(Exec(w, ops).value)
    ensures w.heap.destroyed <= Exec(w, ops).value.heap.destroyed
    decreases |ops|
  {
    if |ops| > 0 {
      var next := Step(w, ops[0]).value;
      StepKeepsExcess(w, ops[0]);
      assert Balanced(next);
      ExecKeepsBalance(next, ops[1..]);
    }
  }

  /** The empty program state is balanced. */
  lemma EmptyWorldBalanced()
    ensures Balanced(World(EmptyHeap, []))
  {
    forall o: ObjId
      ensures Excess(World(EmptyHeap, []), o) == 0
    {
    }
  }
}
