/** From the bytes of a module to the code a caller looks up: what the stages guarantee together. */
module Runtime {
  import opened Wrappers
  import opened WasmCore
  import opened Machine
  import opened Registers
  import opened ByteStream
  import opened Validator
  import opened ParserProgress
  import opened ParserInvariant
  import Spec = CompilerSpec
  import Run = CompilerRun
  import Results = CompilerResults
  import Compiler
  import opened FunctionFrame
  import opened DeadCode
  import opened Arguments
  import opened LinearMeaning

  datatype CompiledFunction = CompiledFunction(meta: Metadata, code: seq<Instr>)

  datatype CompiledModule = CompiledModule(functions: seq<CompiledFunction>, exported: map<seq<Byte>, nat>)

  /** What the compilers need beyond acceptance: instructions they implement, depths that fit, and a frame
      of 32-bit size with a word for each operand. All of it can be read off a function and its metadata. */
  predicate Usable(f: Function) {
    && Supported(f.body) && Run.DepthsFit(f.meta, f.body) && Fits(f.meta)
    && f.meta.maxStackBytes == 4 * f.meta.maxStackElements
  }

  ghost predicate ReadyFunction(f: Function) {
    Limited(f.meta.signature) && Accepted(f) && Usable(f)
  }

  ghost predicate Ready(m: ParsedModule) {
    forall i :: 0 <= i < |m.functions| ==> ReadyFunction(m.functions[i])
  }

  lemma AcceptedCompilable(f: Function)
    requires ReadyFunction(f)
    ensures Run.Compilable(f.meta, f.body)
  {
    hide Check, Supported, Run.DepthsFit, TotalBytes, Fits;
  }

  /** With nothing after its return, an accepted function of implemented instructions is usable unless its
      frame is too big, and its exit finds the result. */
  lemma ReturnLastUsable(t: Target, f: Function)
    requires t.WellFormed() && Limited(f.meta.signature) && Accepted(f) && Supported(f.body) && ReturnOnlyLast(f.body)
    requires TotalBytes(f.meta.LocalTypes()) + 4 * f.meta.maxStackElements + 15 < 0x8000_0000
    ensures ReadyFunction(f) && Run.ExitKept(t, f.meta, f.body)
  {
    hide Check, Supported, ReturnOnlyLast, TotalBytes, Run.DepthsFit, Run.ExitKept;
    ReturnLastCompilable(t, f.meta, f.body);
  }

  /** The code of one function. */
  function OwnCode(t: Target, f: Function): Option<seq<Instr>> {
    if |f.meta.signature.params| <= |t.args| then Spec.CompileFunction(t, f.meta, f.body) else None
  }

  lemma OwnCodeExists(t: Target, f: Function)
    requires t.WellFormed() && ReadyFunction(f)
    ensures |f.meta.signature.params| <= |t.args| && OwnCode(t, f).Some?
    ensures OwnCode(t, f) == Spec.CompileFunction(t, f.meta, f.body)
  {
    AcceptedCompilable(f);
    hide ReadyFunction, Run.Compilable, Spec.CompileFunction;
    Run.CallIsRight(t, f.meta, f.body, BLANK);
  }

  // ---------- compiling into buffers of their own ----------

  /** The module is compiled function by function, in order, with the same exports, each function into its
      own buffer: what the driver is for. */
  ghost predicate CompiledFrom(t: Target, m: ParsedModule, c: CompiledModule) {
    && |c.functions| == |m.functions| && c.exported == m.exported
    && forall i :: 0 <= i < |m.functions| ==> CompiledFunctionFrom(t, m.functions[i], c.functions[i])
  }

  ghost predicate CompiledFunctionFrom(t: Target, f: Function, c: CompiledFunction) {
    c.meta == f.meta && OwnCode(t, f) == Some(c.code)
  }

  method CompileModule(t: Target, m: ParsedModule) returns (c: CompiledModule)
    requires t.WellFormed() && Ready(m)
    ensures CompiledFrom(t, m, c)
  {
    hide ReadyFunction, OwnCode;
    var functions := [];
    for i := 0 to |m.functions|
      invariant |functions| == i
      invariant forall j :: 0 <= j < i ==> CompiledFunctionFrom(t, m.functions[j], functions[j])
    {
      var f := m.functions[i];
      OwnCodeExists(t, f);
      var code := Compiler.Compile(t, f.meta, f.body, []);
      assert code == OwnCode(t, f).value;
      functions := functions + [CompiledFunction(f.meta, code)];
    }
    c := CompiledModule(functions, m.exported);
  }

  // ---------- compiling into the shared code holder ----------

  /** The code holder after more functions. */
  function HolderWith(t: Target, holder: seq<Instr>, fs: seq<Function>): seq<Instr> {
    if fs == [] then holder
    else
      var n := |fs| - 1;
      var own := OwnCode(t, fs[n]);
      HolderWith(t, holder, fs[..n]) + if own.Some? then own.value else []
  }

  /** As the driver does it: there is one holder, nothing empties it, and installing it makes the whole of
      it a function, entered at its start. */
  ghost predicate CompiledShared(t: Target, m: ParsedModule, holder: seq<Instr>, c: CompiledModule) {
    && |c.functions| == |m.functions| && c.exported == m.exported
    && forall i :: 0 <= i < |m.functions| ==>
         c.functions[i] == CompiledFunction(m.functions[i].meta, HolderWith(t, holder, m.functions[..i + 1]))
  }

  class CompilerImpl {
    const target: Target
    var codeHolder: seq<Instr>

    constructor (target: Target)
      ensures this.target == target && codeHolder == []
    {
      this.target := target;
      codeHolder := [];
    }

    method CompileFunction(f: Function) returns (c: CompiledFunction)
      requires target.WellFormed() && ReadyFunction(f)
      modifies this
      ensures OwnCode(target, f).Some? && codeHolder == old(codeHolder) + OwnCode(target, f).value
      ensures c == CompiledFunction(f.meta, codeHolder)
    {
      OwnCodeExists(target, f);
      codeHolder := Compiler.Compile(target, f.meta, f.body, codeHolder);
      c := CompiledFunction(f.meta, codeHolder);
    }

    method CompileAll(m: ParsedModule) returns (c: CompiledModule)
      requires target.WellFormed() && Ready(m)
      modifies this
      ensures CompiledShared(target, m, old(codeHolder), c)
      ensures codeHolder == HolderWith(target, old(codeHolder), m.functions)
    {
      hide ReadyFunction, OwnCode;
      var functions := [];
      for i := 0 to |m.functions|
        invariant |functions| == i && codeHolder == HolderWith(target, old(codeHolder), m.functions[..i])
        invariant forall j :: 0 <= j < i ==>
          functions[j] == CompiledFunction(m.functions[j].meta, HolderWith(target, old(codeHolder), m.functions[..j + 1]))
      {
        var compiled := CompileFunction(m.functions[i]);
        assert m.functions[..i + 1][..i] == m.functions[..i];
        functions := functions + [compiled];
      }
      assert m.functions[..|m.functions|] == m.functions;
      c := CompiledModule(functions, m.exported);
    }
  }

  lemma {:induction false} HeldGrows(t: Target, holder: seq<Instr>, fs: seq<Function>) returns (rest: seq<Instr>)
    ensures HolderWith(t, holder, fs) == holder + rest
    decreases |fs|
  {
    hide OwnCode;
    if fs == [] {
      rest := [];
      assert holder + rest == holder;
    } else {
      var n := |fs| - 1;
      var r := HeldGrows(t, holder, fs[..n]);
      var own := OwnCode(t, fs[n]);
      var code := if own.Some? then own.value else [];
      rest := r + code;
      assert holder + r + code == holder + rest;
    }
  }

  /** Every function compiled into a holder that begins with the code of `first` runs as `first` does. */
  lemma HolderRunsFirst(t: Target, first: Function, more: seq<Instr>, m: ParsedModule, c: CompiledModule, i: nat,
                        m0: State)
    requires t.WellFormed() && ReadyFunction(first) && OwnCode(t, first).Some?
    requires CompiledShared(t, m, OwnCode(t, first).value + more, c) && i < |c.functions|
    ensures Machine.Run(c.functions[i].code, m0) == Machine.Run(OwnCode(t, first).value, m0)
  {
    OwnCodeExists(t, first);
    AcceptedCompilable(first);
    hide ReadyFunction, OwnCode, Run.Compilable, Machine.Run, Spec.CompileFunction;
    var holder := OwnCode(t, first).value + more;
    var rest := HeldGrows(t, holder, m.functions[..i + 1]);
    assert holder + rest == OwnCode(t, first).value + (more + rest);
    Run.AppendedNeverRuns(t, first.meta, first.body, more + rest, m0);
  }

  /** So with a fresh compiler every function of a module runs as its first one does. */
  lemma SharedRunsFirst(t: Target, m: ParsedModule, c: CompiledModule, i: nat, m0: State)
    requires t.WellFormed() && Ready(m) && CompiledShared(t, m, [], c) && i < |m.functions|
    ensures OwnCode(t, m.functions[0]).Some?
    ensures Machine.Run(c.functions[i].code, m0) == Machine.Run(OwnCode(t, m.functions[0]).value, m0)
  {
    var first := m.functions[0];
    assert ReadyFunction(first);
    OwnCodeExists(t, first);
    AcceptedCompilable(first);
    hide ReadyFunction, OwnCode, Run.Compilable, Machine.Run, Spec.CompileFunction;
    var fs := m.functions[..i + 1];
    FirstHeld(t, fs);
    var rest := HeldBehind(t, fs);
    Run.AppendedNeverRuns(t, first.meta, first.body, rest, m0);
  }

  lemma FirstHeld(t: Target, fs: seq<Function>)
    requires fs != [] && OwnCode(t, fs[0]).Some?
    ensures HolderWith(t, [], [fs[0]]) == OwnCode(t, fs[0]).value
  {
    hide OwnCode;
    assert [fs[0]][..0] == [] && HolderWith(t, [], []) == [];
  }

  lemma {:induction false} HeldBehind(t: Target, fs: seq<Function>) returns (rest: seq<Instr>)
    requires fs != [] && OwnCode(t, fs[0]).Some?
    ensures HolderWith(t, [], fs) == OwnCode(t, fs[0]).value + rest
    decreases |fs|
  {
    hide OwnCode;
    if |fs| == 1 {
      FirstHeld(t, fs);
      assert fs == [fs[0]];
      rest := [];
    } else {
      var n := |fs| - 1;
      var r := HeldBehind(t, fs[..n]);
      var first, own := OwnCode(t, fs[0]).value, OwnCode(t, fs[n]);
      var code := if own.Some? then own.value else [];
      rest := r + code;
      assert first + r + code == first + rest;
    }
  }

  /** What that means for a caller: with a corrected back end, a call of any function of the module returns
      the meaning of the first one. */
  lemma SharedReturnsFirst(t: Target, m: ParsedModule, c: CompiledModule, i: nat, m0: State)
    requires t.WellFormed() && t.Corrected() && Ready(m) && CompiledShared(t, m, [], c) && i < |m.functions|
    requires Run.ExitKept(t, m.functions[0].meta, m.functions[0].body)
    ensures Run.ReturnsMeaning(t, m.functions[0].meta, m.functions[0].body, c.functions[i].code, m0)
    ensures Run.KeepsConvention(t, m.functions[0].meta, c.functions[i].code, m0)
  {
    var first := m.functions[0];
    assert ReadyFunction(first);
    SharedRunsFirst(t, m, c, i, m0);
    OwnCodeExists(t, first);
    AcceptedCompilable(first);
    hide *;
    Run.CallIsRight(t, first.meta, first.body, m0);
    SameRunMeans(t, first.meta, first.body, OwnCode(t, first).value, c.functions[i].code, m0);
  }

  lemma SameRunMeans(t: Target, meta: Metadata, body: seq<Op>, a: seq<Instr>, b: seq<Instr>, m0: State)
    requires Machine.Run(a, m0) == Machine.Run(b, m0)
    ensures Run.ReturnsMeaning(t, meta, body, a, m0) <==> Run.ReturnsMeaning(t, meta, body, b, m0)
    ensures Run.KeepsConvention(t, meta, a, m0) <==> Run.KeepsConvention(t, meta, b, m0)
  {
  }

  // ---------- lookup ----------

  /** The name must be exported and its function's signature must be the expected one. */
  method LookupFunctionHandleDynamic(c: CompiledModule, name: seq<Byte>, signature: BlockType)
    returns (found: Option<CompiledFunction>)
    requires forall n :: n in c.exported ==> c.exported[n] < |c.functions|
    ensures found.Some? <==> name in c.exported && c.functions[c.exported[name]].meta.signature == signature
    ensures found.Some? ==> found.value == c.functions[c.exported[name]]
  {
    if name !in c.exported {
      return None;
    }
    var compiled := c.functions[c.exported[name]];
    if compiled.meta.signature != signature {
      return None;
    }
    return Some(compiled);
  }

  /** The lookup index is in bounds for every module that was parsed and compiled. */
  lemma LookupInBounds(t: Target, bs: seq<Byte>, c: CompiledModule)
    requires ReadModule(bs).Ok?
    requires CompiledFrom(t, ReadModule(bs).value, c) || exists h :: CompiledShared(t, ReadModule(bs).value, h, c)
    ensures forall n :: n in c.exported ==> c.exported[n] < |c.functions|
  {
    ParsedModuleGood(bs);
    hide ReadBuilder, BuilderInv, ExportMap, Accepted, CompiledFunctionFrom, HolderWith;
  }

  /** A parsed module is ready for the compiler if and only if its functions are usable and, without a code
      section, return nothing. */
  lemma ReadyExactly(bs: seq<Byte>)
    requires ReadBuilder(bs).Ok?
    ensures var b, m := ReadBuilder(bs).value, Build(ReadBuilder(bs).value);
      Ready(m) <==>
        && (forall i :: 0 <= i < |m.functions| ==> Usable(m.functions[i]))
        && (b.latest >= 10 || forall i :: 0 <= i < |m.functions| ==> m.functions[i].meta.signature.results == [])
  {
    ParsedModuleGood(bs);
    var b := ReadBuilder(bs).value;
    assert GoodFunctions(b.latest, b.functions);
    hide ReadBuilder, Usable, Accepted, Limited, ExportMap;
  }

  /** What a caller may rely on when it calls the code found for export `name`: the calling convention, and
      the WebAssembly meaning of the parsed body on its arguments. */
  ghost predicate RunsRight(t: Target, f: Function, code: seq<Instr>, args: seq<Word>, m0: State)
    requires |args| == |f.meta.signature.params|
  {
    && Run.KeepsConvention(t, f.meta, code, m0)
    && (f.meta.signature.results != [] && Run.ExitKept(t, f.meta, f.body) && IntegersFirst(f.meta.signature.params) ==>
          (Results.Answers(t, f.meta, f.body, code, args, m0) <==>
           Cancels(Dot(Results.SlotWeights(f.meta, f.body), Results.SlotWords(f.meta, m0)))))
  }

  lemma OwnCodeRunsRight(t: Target, f: Function, args: seq<Word>, m0: State)
    requires t.WellFormed() && t.Corrected() && ReadyFunction(f)
    requires ArgumentsIn(t, f.meta.signature.params, args, m0)
    ensures OwnCode(t, f).Some? && RunsRight(t, f, OwnCode(t, f).value, args, m0)
  {
    OwnCodeExists(t, f);
    AcceptedCompilable(f);
    assert |args| == |f.meta.signature.params|;
    hide Run.KeepsConvention, Run.ExitKept, Run.Compilable, Spec.CompileFunction, ReadyFunction, OwnCode;
    hide Results.Answers, Results.SlotWeights, Results.SlotWords, Dot, Cancels, IntegersFirst, ArgumentsIn;
    hide Run.Unharmed, Run.ReturnsMeaning;
    Run.CallIsRight(t, f.meta, f.body, m0);
    if f.meta.signature.results != [] && Run.ExitKept(t, f.meta, f.body) && IntegersFirst(f.meta.signature.params) {
      Results.MeaningPreserved(t, f.meta, f.body, args, m0);
    }
  }

  /** The whole way, with a buffer for each function: a module is parsed from bytes and compiled by a
      corrected back end; what a lookup by name and signature finds runs right on all arguments. */
  lemma ExportRunsRight(t: Target, bs: seq<Byte>, c: CompiledModule, name: seq<Byte>, signature: BlockType,
                        args: seq<Word>, m0: State)
    requires t.WellFormed() && t.Corrected()
    requires ReadModule(bs).Ok? && Ready(ReadModule(bs).value) && CompiledFrom(t, ReadModule(bs).value, c)
    requires name in c.exported && c.exported[name] < |c.functions|
    requires c.functions[c.exported[name]].meta.signature == signature && ArgumentsIn(t, signature.params, args, m0)
    ensures var m, i := ReadModule(bs).value, c.exported[name];
      && name in m.exported && m.exported[name] == i && m.functions[i].meta.signature == signature
      && RunsRight(t, m.functions[i], c.functions[i].code, args, m0)
  {
    hide RunsRight, OwnCode, ReadyFunction, ReadModule;
    var m, i := ReadModule(bs).value, c.exported[name];
    assert CompiledFunctionFrom(t, m.functions[i], c.functions[i]) && ReadyFunction(m.functions[i]);
    OwnCodeRunsRight(t, m.functions[i], args, m0);
  }

  /** The whole way, as the driver does it: the first function of the first module a compiler is given runs
      right. (Every other one runs as that one: `SharedRunsFirst`.) */
  lemma FirstExportRunsRight(t: Target, bs: seq<Byte>, c: CompiledModule, name: seq<Byte>, args: seq<Word>, m0: State)
    requires t.WellFormed() && t.Corrected()
    requires ReadModule(bs).Ok? && Ready(ReadModule(bs).value) && CompiledShared(t, ReadModule(bs).value, [], c)
    requires name in c.exported && c.exported[name] == 0 < |c.functions|
    requires ArgumentsIn(t, c.functions[0].meta.signature.params, args, m0)
    ensures var m := ReadModule(bs).value;
      && name in m.exported && m.exported[name] == 0
      && RunsRight(t, m.functions[0], c.functions[0].code, args, m0)
  {
    hide RunsRight, OwnCode, ReadyFunction, ReadModule;
    var m := ReadModule(bs).value;
    assert ReadyFunction(m.functions[0]);
    OwnCodeRunsRight(t, m.functions[0], args, m0);
    FirstHeld(t, m.functions[..1]);
    assert m.functions[..1] == [m.functions[0]];
  }
}
