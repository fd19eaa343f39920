# Intrusive reference counting and the lazy compiled-body cache

A Dafny model of two pieces of Blender's function runtime:

- `BLI::RefCountedBase` and the owning handle `BLI::AutoRefCount<T>`
  (`source/blender/blenlib/BLI_shared.hpp`). The model is a sequential state
  machine. An abstract heap maps object identities to their counters and records
  the deleted objects. Handle variables are slots holding a nullable pointer.
  There is one pure function per C++ operation.
- `FN::try_ensure_CompiledLLVMBody`, the shape of `compile_llvm_body` and the
  ownership pairing of `FN::CompiledLLVMBody`
  (`source/blender/functions/backends/llvm/compiled_body.cpp`). A function is a
  map from body kind to attached body. The IR generator is an uninterpreted
  function from argument values to output values. LLVM execution engines are a
  registry of live engine identities.

Files:

- `wrappers.dfy` (`Wrappers`): `Option` and `Result`.
- `refcount.dfy` (`RefCount`): the heap, `Construct`, `Incref`, `Decref`, `Refcount`.
- `autoref.dfy` (`AutoRef`): handles, constructors, destructor, assignments, equality.
- `ownership.dfy` (`Ownership`): the counting invariant, the findings below and corrected assignments.
- `handle_runs.dfy` (`HandleRuns`): arbitrary sequences of handle statements.
- `compiled_body.dfy` (`CompiledBody`): the compiled-body cache and the compilation driver's shape.

The central invariant is about `Excess(w, o)`. This is the counter of `o` minus
the number of live non-null handles pointing at `o`; a deleted object counts 0.
The invariant `Balanced` says the excess is 0 for every object. Every handle
operation leaves every excess unchanged, with two exceptions:

- `FromPointer` lowers the adopted object's excess by one. It consumes the
  initial reference of a freshly built object.
- Move assignment between two distinct handles that already share an object
  nulls the source without a `decref`. That object's excess goes up by one.

Null dereferences in the source are preconditions in the model:

- the copy constructor's `incref`;
- the distinct branch of copy assignment, which does a `decref` on the
  destination and an `incref` on the source;
- the distinct branch of move assignment, which does a `decref` on the
  destination.

The assertion in `decref` that the new value is not negative is also a
precondition (`Decrementable`). A valid heap always meets it.

## Model

| member | source | states |
|---|---|---|
| RefCount.Construct | source/blender/blenlib/BLI_shared.hpp:16-17 | a new object is fresh (never live, never deleted), starts at count 1, and no other object's count or liveness changes |
| RefCount.Incref | source/blender/blenlib/BLI_shared.hpp:20-23 | the object's count goes up by exactly 1; no other count, no liveness and no deletion changes |
| RefCount.Decref | source/blender/blenlib/BLI_shared.hpp:25-32 | requires the new value to be non-negative (the assertion); the count goes down by exactly 1; the object is deleted exactly when the new value is 0; nothing else changes; heap validity is kept |
| RefCount.Refcount | source/blender/blenlib/BLI_shared.hpp:34-37 | returns the live object's counter, which is at least 1 in a valid heap |
| RefCount.DeletedStaysDeleted | source/blender/blenlib/BLI_shared.hpp:29-31 | a deleted object is never live again and stays deleted under construct, incref and decref, so it is deleted at most once |
| AutoRef.BalancedHandlesAreOwned | source/blender/blenlib/BLI_shared.hpp:48-56 | in a balanced state every non-null handle points at a live object whose decref is allowed (no use after free) |
| AutoRef.New | source/blender/blenlib/BLI_shared.hpp:59-67 | the default constructor and `New` append one handle to a fresh object with count 1; from a balanced state it is that object's only handle; other counts are unchanged |
| AutoRef.FromPointer | source/blender/blenlib/BLI_shared.hpp:69-72 | adopting a pointer (null allowed) appends a handle holding it and leaves the heap untouched: no increment |
| AutoRef.CopyConstruct | source/blender/blenlib/BLI_shared.hpp:74-78 | requires a non-null live source; the new handle holds the source's pointer; the target's count rises by 1; other counts and deletions are unchanged |
| AutoRef.MoveConstruct | source/blender/blenlib/BLI_shared.hpp:80-84 | the heap is unchanged; the new handle holds the source's old pointer; the source becomes null; other handles are unchanged |
| AutoRef.Destruct | source/blender/blenlib/BLI_shared.hpp:86-92 | a null handle leaves the heap unchanged; a non-null one decrements its target exactly once, deleting it exactly when it was the last count; no other object is deleted and other counts are unchanged |
| AutoRef.CopyAssign | source/blender/blenlib/BLI_shared.hpp:94-108 | self-assignment and same-target assignment change nothing; otherwise the old target loses 1 (deleted iff it was at 1), the new target gains 1, other counts are unchanged, and the destination holds the source's pointer |
| AutoRef.MoveAssign | source/blender/blenlib/BLI_shared.hpp:110-125 | self-assignment changes nothing; with a shared target the source is nulled and the heap is untouched; otherwise only the old target loses 1 (deleted iff it was at 1), the destination takes the pointer and the source is nulled |
| AutoRef.Equal | source/blender/blenlib/BLI_shared.hpp:137-140 | handles are equal iff both are null or both name the same object |
| AutoRef.NotEqual | source/blender/blenlib/BLI_shared.hpp:142-145 | `!=` is exactly the negation of `==`, i.e. the pointers differ |
| Ownership.NewKeepsExcess | source/blender/blenlib/BLI_shared.hpp:59-67 | creating a handle with a new object keeps every object's count equal to its handles plus the prior excess |
| Ownership.FromPointerClaimsOne | source/blender/blenlib/BLI_shared.hpp:69-72 | adopting a pointer lowers the adopted object's excess by exactly one and no other: it claims the object's initial reference |
| Ownership.NewIsAdoptConstructed | source/blender/blenlib/BLI_shared.hpp:59-72 | `New` is the same as constructing an object and then adopting it with `FromPointer` |
| Ownership.CopyConstructKeepsExcess | source/blender/blenlib/BLI_shared.hpp:74-78 | the copy constructor keeps every object's balance of count against handles |
| Ownership.MoveConstructKeepsExcess | source/blender/blenlib/BLI_shared.hpp:80-84 | the move constructor keeps every object's balance of count against handles |
| Ownership.DestructKeepsExcess | source/blender/blenlib/BLI_shared.hpp:86-92 | the destructor keeps every object's balance, including when it deletes the object |
| Ownership.CopyAssignKeepsExcess | source/blender/blenlib/BLI_shared.hpp:94-108 | copy assignment keeps every object's balance in all three branches |
| Ownership.MoveAssignExcess | source/blender/blenlib/BLI_shared.hpp:110-125 | move assignment keeps every balance except that, between distinct handles sharing an object, that object's excess rises by one |
| Ownership.LastOwnerDeletes | source/blender/blenlib/BLI_shared.hpp:86-92 | in a balanced state, destroying a handle deletes its object iff it was the object's only handle |
| Ownership.CopiesCompareEqual | source/blender/blenlib/BLI_shared.hpp:74-78 | a copy compares equal to its source, and after a copy assignment the destination compares equal to the source |
| Ownership.MoveAssignSameTargetLeaks | source/blender/blenlib/BLI_shared.hpp:115-117 | copy a handle, move one copy onto the other, destroy both: the object stays live with count 1 and no handle |
| Ownership.AssignIntoMovedFromIsUndefined | source/blender/blenlib/BLI_shared.hpp:103-105 | assigning into a moved-from handle is outside both assignments' defined behaviour (null dereference) |
| Ownership.CopyAssignFixed | source/blender/blenlib/BLI_shared.hpp:94-108 | corrected copy assignment tolerates null on both sides and keeps every object's balance |
| Ownership.MoveAssignFixed | source/blender/blenlib/BLI_shared.hpp:110-125 | corrected move assignment releases the destination's reference whenever it is non-null and keeps every object's balance |
| Ownership.CopyAssignFixedAgrees | source/blender/blenlib/BLI_shared.hpp:94-108 | wherever the original copy assignment is defined, the corrected one gives the same result |
| Ownership.MoveAssignFixedAgrees | source/blender/blenlib/BLI_shared.hpp:110-125 | outside the leaking case, the corrected move assignment gives the same result as the original |
| Ownership.MoveAssignFixedReleases | source/blender/blenlib/BLI_shared.hpp:110-125 | in the leaking scenario the corrected move assignment lets the object be deleted |
| HandleRuns.Step | source/blender/blenlib/BLI_shared.hpp:59-125 | with the corrected assignments (Ownership.CopyAssignFixed, Ownership.MoveAssignFixed), a statement runs only when it names live handles; it keeps the heap valid and never un-deletes an object |
| HandleRuns.Exec | source/blender/blenlib/BLI_shared.hpp:59-125 | with the corrected assignments (Ownership.CopyAssignFixed, Ownership.MoveAssignFixed), a run of statements keeps the heap valid and the deleted set only grows |
| HandleRuns.StepKeepsExcess | source/blender/blenlib/BLI_shared.hpp:59-125 | every statement, with the corrected assignments, keeps every object's balance |
| HandleRuns.BalancedStepDefined | source/blender/blenlib/BLI_shared.hpp:74-125 | with the corrected assignments (Ownership.CopyAssignFixed, Ownership.MoveAssignFixed), in a balanced state a statement is defined exactly when it names live handles (and copies a non-null one) |
| HandleRuns.ExecKeepsBalance | source/blender/blenlib/BLI_shared.hpp:59-125 | with the corrected assignments (Ownership.CopyAssignFixed, Ownership.MoveAssignFixed), any program from a balanced state ends balanced: each live object's count equals its live handles, and deleted objects stay deleted; the as-written move assignment does not keep this (Ownership.MoveAssignSameTargetLeaks) |
| CompiledBody.EntryArguments | source/blender/functions/backends/llvm/compiled_body.cpp:69-72 | one argument value per declared input, the i-th being argument i |
| CompiledBody.InsertValues | source/blender/functions/backends/llvm/compiled_body.cpp:85-87 | the insertion loop from position i fills slot j with output j for every j from i on, and keeps every other slot |
| CompiledBody.Pack | source/blender/functions/backends/llvm/compiled_body.cpp:84-88 | the returned aggregate has one slot per output, and slot i holds output value i |
| CompiledBody.UnpackPack | source/blender/functions/backends/llvm/compiled_body.cpp:84-88 | reading the aggregate back gives exactly the generator's outputs |
| CompiledBody.BuildModule | source/blender/functions/backends/llvm/compiled_body.cpp:51-88 | requires an IR-generating body; fails exactly when the output count differs from the declared one; otherwise the entry function has the inputs as parameters, the outputs as result, its arguments bound in order, and returns output i in slot i |
| CompiledBody.FromIR | source/blender/functions/backends/llvm/compiled_body.cpp:25-45 | a new engine becomes live and is paired with the module's entry function; in a valid engine registry it is distinct from every live one and the registry stays valid |
| CompiledBody.FreeSelf | source/blender/functions/backends/llvm/compiled_body.cpp:14-23 | deleting a compiled body deletes exactly its engine |
| CompiledBody.FreeSelfUndoesFromIR | source/blender/functions/backends/llvm/compiled_body.cpp:14-45 | a fresh body's entry is valid, freeing it invalidates the entry, and exactly the earlier engines remain |
| CompiledBody.CompileBody | source/blender/functions/backends/llvm/compiled_body.cpp:47-92 | requires an IR-generating body; fails iff module building fails; otherwise one new engine is live, holding the built entry function |
| CompiledBody.AttachCompiled | source/blender/functions/backends/llvm/compiled_body.cpp:103 | attaching adds the compiled kind and keeps every other attached body and the signature |
| CompiledBody.TryEnsure | source/blender/functions/backends/llvm/compiled_body.cpp:94-108 | with a compiled body: true, nothing changes; with only a generator: fails iff the output count mismatches, else true with exactly one compiled body added and nothing else changed; with neither: false, nothing changes |
| CompiledBody.TryEnsureIdempotent | source/blender/functions/backends/llvm/compiled_body.cpp:98-105 | after a call returned true, a second call returns true and changes nothing |
| CompiledBody.TryEnsureCompilesAtMostOnce | source/blender/functions/backends/llvm/compiled_body.cpp:98-105 | a successful call creates exactly one engine when it compiled and none otherwise |

## Findings

| source | as written | input that shows it | evidently intended | confidence | as-written member | corrected member |
|---|---|---|---|---|---|---|
| source/blender/blenlib/BLI_shared.hpp:115-117 | move assignment between two handles sharing an object nulls the source without `decref` | `auto b = a; a = std::move(b);` then both go out of scope: the object keeps count 1 and is never deleted | the source's reference is released, as in the distinct branch | high (not executed) | Ownership.MoveAssignSameTargetLeaks | Ownership.MoveAssignFixed |
| source/blender/blenlib/BLI_shared.hpp:103 | copy assignment calls `decref` on the destination without a null check | `AutoRefCount<T> c(std::move(a)); a = b;` dereferences the null `a` | the destructor's comment at line 88 expects moved-from (null) handles, and a moved-from C++ object is normally still assignable; a null destination should be skipped as the destructor skips it | medium (not executed) | Ownership.AssignIntoMovedFromIsUndefined | Ownership.CopyAssignFixed |
| source/blender/blenlib/BLI_shared.hpp:120 | move assignment calls `decref` on the destination without a null check | `AutoRefCount<T> c(std::move(a)); a = std::move(b);` dereferences the null `a` | the destructor's comment at line 88 expects moved-from (null) handles, and a moved-from C++ object is normally still assignable; a null destination should be skipped as the destructor skips it | medium (not executed) | Ownership.AssignIntoMovedFromIsUndefined | Ownership.MoveAssignFixed |

`HandleRuns` runs programs with the corrected assignments. The as-written
`AutoRef.CopyAssign` and `AutoRef.MoveAssign` stay as written, with their null
preconditions and the leak.

## Left out

- Atomicity of `fetch_add` and `fetch_sub`. The model is sequential and does not verify concurrency.
- The unsynchronised check-then-attach race in `try_ensure_CompiledLLVMBody`. Calls are modelled as sequential: one writer per function.
- Deleting an object only removes it from the heap. The destructor of a derived `T` is not modelled, including destructors that release other handles.
- `AutoRef.New`: constructor arguments are not modelled. The default constructor and `New(args...)` are the same operation here.
- `operator->` is the same accessor as `ptr()` (`AutoRef.PtrOf`). It has no contract of its own.
- Object identities are never reused, while C++ `new` may return the address of a deleted object. Handle equality and the same-target tests compare addresses, so the model differs only once a handle dangles, which the balance rules out.
- Integer width of `std::atomic<int>`: counts are unbounded integers. The source does not check overflow either.
- All LLVM work is left out: type lookup, building the module and function, `verifyModule`, `EngineBuilder`, `finalizeObject`, `generateCodeForModule` and `getFunctionAddress`. The module is kept as its shape. The engine and the entry point are an abstract pair.
- `CompiledBody.FromIR`: the assertion that the module verifies is not modelled, because verification is a foreign call. The diagnostic `module->print` is left out too.
- The meaning of generated IR and calling the native entry point are not modelled. That would need an IR interpreter.
- `input_extensions`, `output_extensions` and `types_of_type_infos` are taken as given. The function carries its LLVM input and output types directly.
- The LLVM context parameter is left out. It only scopes the types.
- `identifier_in_composition` is a display name with no behaviour to state.
- The function object's own destruction of its attached bodies belongs to the function type, which is not part of this model. `CompiledBody.FreeSelf` models the compiled body's part.
- `source/blender/python/gpu/gpu_py_offscreen.c` is not part of this model. It is Python bindings over GPU calls.
