/** The lazy compiled-body cache of compiled_body.cpp.

    A function carries a map from body kind to attached body. An IR-generating
    body is an uninterpreted generator from the entry function's argument
    values to output values. Building the LLVM module, verifying it and
    JIT-compiling it are foreign calls: the module is kept as its shape (name,
    parameter types, result types, bound arguments, returned aggregate) and the
    backend as a registry of live execution engines. */
module CompiledBody {
  import opened Wrappers

  /** An LLVM type, as produced from a signature slot's type info. */
  datatype LLVMType = LLVMType(id: nat)

  /** An IR value: the entry function's `index`-th argument, or a value emitted
      by the generator. */
  datatype IRValue = Argument(index: nat) | Emitted(id: nat)

  /** A struct value under construction: `None` marks a slot still undefined. */
  type Aggregate = seq<Option<IRValue>>

  /** The entry function `main_func` of the built module. */
  datatype EntryFunction = EntryFunction(
    name: string,
    params: seq<LLVMType>,
    results: seq<LLVMType>,
    args: seq<IRValue>,
    returned: Aggregate)

  datatype IRModule = IRModule(name: string, main: EntryFunction)

  type EngineId = nat

  /** The execution engines currently alive, and the next identity to hand out. */
  datatype Engines = Engines(live: set<EngineId>, next: EngineId)

  /** A compiled body owns its engine together with the entry point that is
      only valid while that engine lives. */
  datatype CompiledLLVMBody = CompiledLLVMBody(engine: EngineId, entry: EntryFunction)

  datatype BodyKind = LLVMGen | CompiledLLVM | OtherKind(name: string)

  datatype Body =
    | GenBody(build: seq<IRValue> -> seq<IRValue>)
    | Compiled(code: CompiledLLVMBody)
    | Other(name: string)

  /** A function: its name, the LLVM types of its declared inputs and outputs,
      and its attached bodies. */
  datatype Function = Function(
    name: string,
    inputs: seq<LLVMType>,
    outputs: seq<LLVMType>,
    bodies: map<BodyKind, Body>)

  /** Assertions of the compilation driver that depend on the generator. */
  datatype Fatal = OutputCountMismatch(produced: nat, declared: nat)

  /** Outcome of `try_ensure_CompiledLLVMBody`: the boolean it returns and the
      state of the function and of the engines afterwards. */
  datatype Ensured = Ensured(found: bool, fn: Function, engines: Engines)

  function KindOf(b: Body): BodyKind {
    match b
    case GenBody(_) => LLVMGen
    case Compiled(_) => CompiledLLVM
    case Other(name) => OtherKind(name)
  }

  /** Every body is filed under its own kind. */
  predicate WellKeyed(fn: Function) {
    forall k :: k in fn.bodies ==> KindOf(fn.bodies[k]) == k
  }

  /** `fn->body<CompiledLLVMBody>() != nullptr`. */
  predicate HasCompiled(fn: Function) {
    CompiledLLVM in fn.bodies && fn.bodies[CompiledLLVM].Compiled?
  }

  /** `fn->body<LLVMGenBody>() != nullptr`. */
  predicate HasGen(fn: Function) {
    LLVMGen in fn.bodies && fn.bodies[LLVMGen].GenBody?
  }

  ghost predicate EnginesValid(e: Engines) {
    forall x :: x in e.live ==> x < e.next
  }

  // ---------------------------------------------------------------------------
  // Shape of the entry function

  /** `function->args()`: one argument value per declared input, in order. */
  function EntryArguments(n: nat): (r: seq<IRValue>)
    ensures |r| == n
    ensures forall i :: 0 <= i < n ==> r[i] == Argument(i)
  {
    seq(n, i requires 0 <= i < n => Argument(i))
  }

  /** `UndefValue::get(output_type)`: an aggregate of `n` undefined slots. */
  function Undef(n: nat): (r: Aggregate)
    ensures |r| == n && forall j :: 0 <= j < n ==> r[j].None?
  {
    seq(n, j => None)
  }

  /** The insertion loop from position `i` on: `CreateInsertValue(agg, vals[j], j)`
      for every `j` from `i` up to the number of values. */
  function InsertValues(agg: Aggregate, vals: seq<IRValue>, i: nat): (r: Aggregate)
    requires i <= |vals| <= |agg|
    ensures |r| == |agg|
    ensures forall j :: 0 <= j < i ==> r[j] == agg[j]
    ensures forall j :: i <= j < |vals| ==> r[j] == Some(vals[j])
    ensures forall j :: |vals| <= j < |agg| ==> r[j] == agg[j]
    decreases |vals| - i
  {
    if i == |vals| then agg
    else InsertValues(agg[i := Some(vals[i])], vals, i + 1)
  }

  /** The returned aggregate: slot `i` holds output value `i`. */
  function Pack(vals: seq<IRValue>, width: nat): (r: Aggregate)
    requires |vals| == width
    ensures |r| == width
    ensures forall j :: 0 <= j < width ==> r[j] == Some(vals[j])
  {
    InsertValues(Undef(width), vals, 0)
  }

  /** Reads the output values back out of a fully defined aggregate. */
  function Unpack(agg: Aggregate): (r: seq<IRValue>)
    requires forall j :: 0 <= j < |agg| ==> agg[j].Some?
    ensures |r| == |agg|
    ensures forall j :: 0 <= j < |agg| ==> Some(r[j]) == agg[j]
  {
    seq(|agg|, j requires 0 <= j < |agg| => agg[j].value)
  }

  /** Packing and then reading back the aggregate gives the outputs unchanged. */
  lemma UnpackPack(vals: seq<IRValue>)
    ensures Unpack(Pack(vals, |vals|)) == vals
  {
  }

  // ---------------------------------------------------------------------------
  // The compilation driver

  /** The generator of an attached IR-generating body. */
  function GenOf(fn: Function): seq<IRValue> -> seq<IRValue>
    requires HasGen(fn)
  {
    fn.bodies[LLVMGen].build
  }

  /** The module-building part of `compile_llvm_body`: an entry function named
      after `fn` with one parameter per input type and the output types as its
      struct result; the arguments are handed to the generator in order, and
      its outputs are inserted slot by slot into the returned aggregate. */
  function BuildModule(fn: Function): (r: Result<IRModule, Fatal>)
    requires HasGen(fn)
    ensures var produced := GenOf(fn)(EntryArguments(|fn.inputs|));
      && (r.Failure? <==> |produced| != |fn.outputs|)
      && (r.Failure? ==> r.error == OutputCountMismatch(|produced|, |fn.outputs|))
    ensures r.Success? ==>
      var m := r.value.main;
      && r.value.name == fn.name && m.name == fn.name
      && m.params == fn.inputs && m.results == fn.outputs
      && m.args == EntryArguments(|fn.inputs|)
      && (forall i :: 0 <= i < |fn.inputs| ==> m.args[i] == Argument(i))
      && |m.returned| == |fn.outputs|
      && (forall i :: 0 <= i < |fn.outputs| ==> m.returned[i] == Some(GenOf(fn)(m.args)[i]))
  {
    var args := EntryArguments(|fn.inputs|);
    var produced := GenOf(fn)(args);
    if |produced| != |fn.outputs| then
      Failure(OutputCountMismatch(|produced|, |fn.outputs|))
    else
      var returned := Pack(produced, |fn.outputs|);
      Success(IRModule(fn.name, EntryFunction(fn.name, fn.inputs, fn.outputs, args, returned)))
  }

  /** `CompiledLLVMBody::FromIR`: a new execution engine takes the module, and
      the body pairs that engine with the entry point resolved from it. */
  function FromIR(engines: Engines, m: IRModule): (r: (Engines, CompiledLLVMBody))
    ensures r.1.entry == m.main
    ensures r.0.live == engines.live + {r.1.engine}
    ensures EnginesValid(engines) ==> r.1.engine !in engines.live && EnginesValid(r.0)
  {
    var e := engines.next;
    (Engines(engines.live + {e}, e + 1), CompiledLLVMBody(e, m.main))
  }

  /** `free_self` and `~CompiledLLVMBody`: deleting the body deletes its engine. */
  function FreeSelf(engines: Engines, body: CompiledLLVMBody): (r: Engines)
    requires body.engine in engines.live
    ensures r.live == engines.live - {body.engine}
    ensures EnginesValid(engines) ==> EnginesValid(r)
  {
    Engines(engines.live - {body.engine}, engines.next)
  }

  /** The entry point of a body may be called while its engine is alive. */
  predicate EntryValid(engines: Engines, body: CompiledLLVMBody) {
    body.engine in engines.live
  }

  /** A freshly compiled body is callable; freeing it ends that and leaves
      exactly the engines that were alive before. */
  lemma FreeSelfUndoesFromIR(engines: Engines, m: IRModule)
    requires EnginesValid(engines)
    ensures var (after, body) := FromIR(engines, m);
      && EntryValid(after, body)
      && !EntryValid(FreeSelf(after, body), body)
      && FreeSelf(after, body).live == engines.live
  {
  }

  /** `compile_llvm_body`: build the module, then finalize it. */
  function CompileBody(fn: Function, engines: Engines): (r: Result<(Engines, CompiledLLVMBody), Fatal>)
    requires HasGen(fn)
    ensures r.Failure? <==> BuildModule(fn).Failure?
    ensures r.Success? ==>
      && r.value.1.entry == BuildModule(fn).value.main
      && r.value.0.live == engines.live + {r.value.1.engine}
      && (EnginesValid(engines) ==> r.value.1.engine !in engines.live && EnginesValid(r.value.0))
  {
    var m :- BuildModule(fn);
    Success(FromIR(engines, m))
  }

  // ---------------------------------------------------------------------------
  // The cache

  /** `fn->add_body(body)`. */
  function AttachCompiled(fn: Function, body: CompiledLLVMBody): (r: Function)
    ensures HasCompiled(r)
    ensures r.bodies.Keys == fn.bodies.Keys + {CompiledLLVM}
    ensures forall k :: k in fn.bodies && k != CompiledLLVM ==> r.bodies[k] == fn.bodies[k]
    ensures r.name == fn.name && r.inputs == fn.inputs && r.outputs == fn.outputs
    ensures WellKeyed(fn) ==> WellKeyed(r)
  {
    fn.(bodies := fn.bodies[CompiledLLVM := Compiled(body)])
  }

  /** `try_ensure_CompiledLLVMBody`: true at once when a compiled body is
      attached; otherwise compiles and attaches one when an IR-generating body
      is attached; false when neither is. */
  function TryEnsure(fn: Function, engines: Engines): (r: Result<Ensured, Fatal>)
    ensures HasCompiled(fn) ==> r == Success(Ensured(true, fn, engines))
    ensures !HasCompiled(fn) && !HasGen(fn) ==> r == Success(Ensured(false, fn, engines))
    ensures !HasCompiled(fn) && HasGen(fn) ==>
      && (r.Failure? <==> |GenOf(fn)(EntryArguments(|fn.inputs|))| != |fn.outputs|)
      && (r.Success? ==>
            && r.value.found && HasCompiled(r.value.fn)
            && r.value.fn.bodies.Keys == fn.bodies.Keys + {CompiledLLVM}
            && (forall k :: k in fn.bodies && k != CompiledLLVM ==> r.value.fn.bodies[k] == fn.bodies[k])
            && (WellKeyed(fn) ==> |r.value.fn.bodies| == |fn.bodies| + 1)
            && r.value.fn.name == fn.name
            && r.value.fn.inputs == fn.inputs && r.value.fn.outputs == fn.outputs
            && r.value.engines.live == engines.live + {r.value.fn.bodies[CompiledLLVM].code.engine}
            && r.value.fn.bodies[CompiledLLVM].code.entry == BuildModule(fn).value.main)
    ensures r.Success? && WellKeyed(fn) ==> WellKeyed(r.value.fn)
  {
    if HasCompiled(fn) then
      Success(Ensured(true, fn, engines))
    else if HasGen(fn) then
      var (after, body) :- CompileBody(fn, engines);
      Success(Ensured(true, AttachCompiled(fn, body), after))
    else
      Success(Ensured(false, fn, engines))
  }

  /** Once a call has returned true, calling again returns true and changes
      nothing: compilation is never redone. */
  lemma TryEnsureIdempotent(fn: Function, engines: Engines)
    requires TryEnsure(fn, engines).Success? && TryEnsure(fn, engines).value.found
    ensures var e := TryEnsure(fn, engines).value;
      TryEnsure(e.fn, e.engines) == Success(Ensured(true, e.fn, e.engines))
  {
  }

  /** A call that returned true leaves exactly one new engine alive when it
      compiled, and none when the body was already there. */
  lemma TryEnsureCompilesAtMostOnce(fn: Function, engines: Engines)
    requires EnginesValid(engines)
    requires TryEnsure(fn, engines).Success?
    ensures var e := TryEnsure(fn, engines).value;
      |e.engines.live| == |engines.live| + (if !HasCompiled(fn) && HasGen(fn) then 1 else 0)
  {
  }
}
