/** Modules, from their bytes on, that are not read or not run as they are meant. */
module ModuleExamples {
  import opened Wrappers
  import opened WasmCore
  import Interpreter
  import opened Machine
  import opened Registers
  import opened FunctionFrame
  import opened ByteStream
  import opened Validator
  import opened ValidatorBounds
  import opened Accepting
  import opened CompilerShape
  import opened CompilerRun
  import opened CompilerResults
  import opened DeadCode
  import opened Counterexamples
  import opened ParserSpec
  import opened ParserProgress
  import opened ParserInvariant
  import opened ModuleEncoding
  import opened ParserRoundTrip
  import opened IndexSpaces
  import opened Runtime

  // ---------- modules of constant functions ----------

  const NULLARY := BlockType([], [I32])

  function Returning(v: Word): FunctionSource {
    FunctionSource(0, [], [Plain(ConstI32(v))])
  }

  function Constants(vs: seq<Word>, imports: seq<ImportSource>): ModuleSource {
    ModuleSource([NULLARY], imports, seq(|vs|, i requires 0 <= i < |vs| => Returning(vs[i])), [], [], [], None)
  }

  lemma ConstantAccepted(v: Word)
    ensures ContextOf(NULLARY, []) == Context([], [I32])
    ensures Check(ContextOf(NULLARY, []), [ConstI32(v)]) == Some(Counted(false, 0, 1))
  {
    var c := ContextOf(NULLARY, []);
    assert [ConstI32(v)] == [ConstI32(v)] + [];
    hide Counted, Visit, VisitAll, Finalize;
    StartCounted();
    PushVisited(c, false, 0, 0, ConstI32(v));
    EndVisited(c, false, 1);
    VisitThen(c, START, ConstI32(v), [], Counted(false, 1, 1));
    VisitNone(c, Counted(false, 1, 1));
  }

  lemma ConstantSize(v: Word)
    ensures EncodePayload(Returning(v)) == EncodeLength(0) + ([0x41] + EncodeU32(v)) + [0x0B]
    ensures |EncodePayload(Returning(v))| <= 12 && |EncodeCode(Returning(v))| <= 17
  {
    var f := Returning(v);
    ShortLength(0);
    ShortLength(v);
    LengthIsU32(v);
    ShortLength(|EncodePayload(f)|);
    hide EncodeLength, EncodeU32;
    assert f.body[1..] == [] && Concat(f.body, EncodeSource) == EncodeOp(ConstI32(v)) + [];
    assert EncodeVector(f.groups, EncodeGroup) == EncodeLength(0) + [];
  }

  lemma ConstantGood(v: Word)
    ensures GoodSource([NULLARY], Returning(v)) && AllIntended(Returning(v).body) == [ConstI32(v)]
    ensures Loaded([NULLARY], Returning(v), [ConstI32(v)]) == Function(Metadata(NULLARY, [], 4, 1), [ConstI32(v)])
  {
    assert AllIntended(Returning(v).body) == [ConstI32(v)];
    ConstantAccepted(v);
    ConstantSize(v);
    hide Check, EncodePayload;
  }

  lemma {:induction false} ConcatSize<T>(xs: seq<T>, encode: T -> seq<Byte>)
    requires forall i :: 0 <= i < |xs| ==> |encode(xs[i])| <= 20
    ensures |Concat(xs, encode)| <= 20 * |xs|
  {
    if xs != [] {
      assert forall i :: 0 <= i < |xs| - 1 ==> xs[1..][i] == xs[i + 1];
      ConcatSize(xs[1..], encode);
    }
  }

  lemma VectorSize<T>(xs: seq<T>, encode: T -> seq<Byte>)
    requires |xs| <= 4 && forall i :: 0 <= i < |xs| ==> |encode(xs[i])| <= 20
    ensures |EncodeVector(xs, encode)| < TWO_32
  {
    ShortLength(|xs|);
    hide EncodeLength;
    ConcatSize(xs, encode);
  }

  const FUNCTION_IMPORT := ImportSource([], [], FunctionImport(0))

  lemma ConstantsSizes(vs: seq<Word>, imports: seq<ImportSource>)
    requires |vs| <= 2 && |imports| <= 1 && (forall i :: 0 <= i < |imports| ==> imports[i] == FUNCTION_IMPORT)
    ensures var m := Constants(vs, imports);
      && |TypePayload(m)| < TWO_32 && |ImportPayload(m)| < TWO_32 && |FunctionPayload(m)| < TWO_32
      && |TablePayload(m)| < TWO_32 && |MemoryPayload(m)| < TWO_32
      && |ExportPayload(m)| < TWO_32 && |CodePayload(m)| < TWO_32
  {
    var m := Constants(vs, imports);
    NullarySize();
    ImportSize();
    ShortLength(0);
    forall i | 0 <= i < |vs|
      ensures |EncodeCode(m.functions[i])| <= 17
    {
      ConstantSize(vs[i]);
    }
    hide EncodeLength, EncodeVector, EncodeCode, EncodeSignature, EncodeImport, EncodeTable;
    hide EncodeBounds, EncodeExport;
    VectorSize(m.types, EncodeSignature);
    VectorSize(m.imports, EncodeImport);
    VectorSize(m.functions, TypeIndex);
    VectorSize(m.tables, EncodeTable);
    VectorSize(m.memories, EncodeBounds);
    VectorSize(m.exports, EncodeExport);
    VectorSize(m.functions, EncodeCode);
  }

  lemma NullarySize()
    ensures |EncodeSignature(NULLARY)| <= 20
  {
    ShortLength(0);
    ShortLength(1);
    hide EncodeLength;
    assert [I32][1..] == [] && Concat([I32], EncodeValType) == EncodeValType(I32) + [];
  }

  lemma ImportSize()
    ensures |EncodeImport(FUNCTION_IMPORT)| <= 20
  {
    ShortLength(0);
    hide EncodeLength;
  }

  lemma ConstantsGood(vs: seq<Word>, imports: seq<ImportSource>)
    requires |vs| <= 2 && |imports| <= 1 && (forall i :: 0 <= i < |imports| ==> imports[i] == FUNCTION_IMPORT)
    ensures GoodModule(Constants(vs, imports))
  {
    var m := Constants(vs, imports);
    ConstantsSizes(vs, imports);
    forall i | 0 <= i < |vs|
      ensures GoodSource(m.types, m.functions[i])
    {
      ConstantGood(vs[i]);
    }
    hide GoodSource, TypePayload, ImportPayload, FunctionPayload, TablePayload, MemoryPayload;
    hide ExportPayload, CodePayload;
  }

  /** How such a module is read. */
  lemma ConstantsRead(vs: seq<Word>, x: Extras)
    requires |vs| <= 2 && GoodExtras(x)
    ensures var r := ReadModule(EncodeModule(Constants(vs, []), x));
      && r.Ok? && |r.value.functions| == |vs|
      && forall i :: 0 <= i < |vs| ==> r.value.functions[i] == Function(Metadata(NULLARY, [], 4, 1), [ConstI32(vs[i])])
  {
    var m := Constants(vs, []);
    ConstantsGood(vs, []);
    hide GoodModule, GoodExtras, GoodSource, AllIntended, Loaded, ReadModule, EncodeModule, ExportMap;
    ParserInvertsUnsigned(m, x);
    forall i | 0 <= i < |vs|
      ensures AllLoaded(m.types, m.functions)[i] == Function(Metadata(NULLARY, [], 4, 1), [ConstI32(vs[i])])
    {
      ConstantGood(vs[i]);
    }
  }

  // ---------- one code holder ----------

  const ONE_META := Metadata(NULLARY, [], 4, 1)

  lemma ConstantReady(v: Word)
    ensures ReadyFunction(Function(ONE_META, [ConstI32(v)]))
  {
    ConstantAccepted(v);
    hide Check;
    var body, none := [ConstI32(v)], [ConstI32(v)][1..];
    assert none == [] && Depth(body[0], 0) == 1 && Enabled(ONE_META, body[0], 0);
    assert Depths(ONE_META, none, 1) && DepthAfterAll(none, 1) == 1;
    assert Depths(ONE_META, body, 0) && DepthAfterAll(body, 0) == 1;
  }

  /** On its own, such a function returns its constant. */
  lemma ConstantReturns(t: Target, v: Word, m0: State)
    requires t.WellFormed() && m0.sp >= 16
    ensures OwnCode(t, Function(ONE_META, [ConstI32(v)])).Some?
    ensures Machine.Run(OwnCode(t, Function(ONE_META, [ConstI32(v)])).value, m0).regs[t.ret] == v
    ensures Meaning([ConstI32(v)], []) == Some(v)
  {
    var f := Function(ONE_META, [ConstI32(v)]);
    ConstantReady(v);
    OwnCodeExists(t, f);
    AcceptedCompilable(f);
    ConstantHarmless(t, v, m0);
    hide *;
    AsWrittenReturnsMeaning(t, ONE_META, [ConstI32(v)], m0);
  }

  lemma ConstantHarmless(t: Target, v: Word, m0: State)
    requires t.WellFormed() && m0.sp >= 16 && |ONE_META.signature.params| <= |t.args|
    ensures Core([ConstI32(v)]) == [ConstI32(v)] && StaticallyHarmless(t, ONE_META, [ConstI32(v)])
    ensures m0.sp >= FrameBytes(ONE_META) && ExitKept(t, ONE_META, [ConstI32(v)]) && ONE_META.signature.results != []
    ensures InitialLocals(t, ONE_META, m0) == [] && Meaning([ConstI32(v)], []) == Some(v)
  {
    ConstantShape(t, v);
    ConstantMeans(v);
    WholeCore([ConstI32(v)]);
    ConstantAccepted(v);
    hide Check, FrameBytes, ExitKept, Compilable, StaticallyHarmless, Meaning, Core;
    assert ONE_META.LocalTypes() == [] && TotalBytes([]) == 0;
    StackSizeMeans(ONE_META);
    ReturnLastCompilable(t, ONE_META, [ConstI32(v)]);
  }

  lemma ConstantShape(t: Target, v: Word)
    requires t.WellFormed()
    ensures StaticallyHarmless(t, ONE_META, [ConstI32(v)])
  {
    assert [ConstI32(v)][1..] == [] && AddCount([]) == 0 && AddCount([ConstI32(v)]) == 0;
  }

  lemma ConstantMeans(v: Word)
    ensures Meaning([ConstI32(v)], []) == Some(v)
  {
    assert [ConstI32(v)] == [] + [ConstI32(v)] && [] + [v] == [v];
    ExecAppend([], ConstI32(v), Interpreter.Initial([]));
  }

  /** A parsed module of two functions, the first returning 1 and the second 2. */
  predicate OneThenTwo(m: ParsedModule) {
    m.functions == [Function(ONE_META, [ConstI32(1)]), Function(ONE_META, [ConstI32(2)])]
  }

  lemma OneThenTwoRead(x: Extras)
    requires GoodExtras(x)
    ensures var r := ReadModule(EncodeModule(Constants([1, 2], []), x)); r.Ok? && OneThenTwo(r.value)
  {
    hide GoodExtras, ReadModule, EncodeModule, Constants;
    ConstantsRead([1, 2], x);
  }

  lemma OneThenTwoReady(m: ParsedModule)
    requires OneThenTwo(m)
    ensures Ready(m)
  {
    hide ReadyFunction, ONE_META;
    ConstantReady(1);
    ConstantReady(2);
  }

  lemma SecondIsFirst(t: Target, m: ParsedModule, c: CompiledModule, m0: State)
    requires t.WellFormed() && OneThenTwo(m) && CompiledShared(t, m, [], c) && m0.sp >= 16
    ensures |c.functions| == 2 && Machine.Run(c.functions[1].code, m0).regs[t.ret] == 1
    ensures Meaning(m.functions[1].body, []) == Some(2)
  {
    OneThenTwoReady(m);
    ConstantMeans(2);
    hide ReadyFunction, OwnCode, Meaning, Machine.Run, HolderWith, Ready;
    ConstantReturns(t, 1, m0);
    SharedRunsFirst(t, m, c, 1, m0);
  }

  /** The module with a function that returns 1 and one that returns 2, read from its bytes and compiled by one
      compiler as the driver does it: the second function returns 1, on every target. */
  lemma SecondRunsFirst(t: Target, x: Extras, c: CompiledModule, m0: State)
    requires t.WellFormed() && GoodExtras(x) && m0.sp >= 16
    requires var r := ReadModule(EncodeModule(Constants([1, 2], []), x)); r.Ok? ==> CompiledShared(t, r.value, [], c)
    ensures var r := ReadModule(EncodeModule(Constants([1, 2], []), x));
      && r.Ok? && Ready(r.value) && |r.value.functions| == |c.functions| == 2
      && Meaning(r.value.functions[1].body, []) == Some(2)
      && Machine.Run(c.functions[1].code, m0).regs[t.ret] == 1
  {
    hide GoodExtras, ReadModule, EncodeModule, Constants, CompiledShared, Ready, Meaning, Machine.Run;
    OneThenTwoRead(x);
    var m := ReadModule(EncodeModule(Constants([1, 2], []), x)).value;
    OneThenTwoReady(m);
    SecondIsFirst(t, m, c, m0);
  }

  /** The same with the compiler itself. */
  method CompileOneTwo(t: Target, m: ParsedModule) returns (c: CompiledModule)
    requires t.WellFormed() && Ok(m) == ReadModule(EncodeModule(Constants([1, 2], []), Extras([], {})))
    ensures |c.functions| == 2
    ensures forall m0: State :: m0.sp >= 16 ==> Machine.Run(c.functions[1].code, m0).regs[t.ret] == 1
  {
    assert GoodExtras(Extras([], {}));
    hide GoodExtras, ReadModule, EncodeModule, Constants, CompiledShared, Ready, Machine.Run;
    hide HolderWith, OneThenTwo;
    OneThenTwoRead(Extras([], {}));
    OneThenTwoReady(m);
    var compiler := new CompilerImpl(t);
    c := compiler.CompileAll(m);
    SecondAlwaysFirst(t, m, c);
  }

  lemma SecondAlwaysFirst(t: Target, m: ParsedModule, c: CompiledModule)
    requires t.WellFormed() && OneThenTwo(m) && CompiledShared(t, m, [], c)
    ensures |c.functions| == 2
    ensures forall m0: State :: m0.sp >= 16 ==> Machine.Run(c.functions[1].code, m0).regs[t.ret] == 1
  {
    assert |c.functions| == 2;
    hide OneThenTwo, CompiledShared, Machine.Run;
    forall m0: State | m0.sp >= 16
      ensures Machine.Run(c.functions[1].code, m0).regs[t.ret] == 1
    {
      SecondIsFirst(t, m, c, m0);
    }
  }

  // ---------- no code section ----------

  /** The encoding of a module cut off before its export section. */
  function CutOff(m: ModuleSource, x: Extras): seq<Byte> {
    MAGIC + (VERSION + Earlier(m, x, []))
  }

  /** Cut off there, every module is still read; its functions are declared and have no body. */
  lemma CutOffRead(m: ModuleSource, x: Extras)
    requires GoodModule(m) && GoodExtras(x)
    ensures ReadBuilder(CutOff(m, x)) == Ok(BuiltUpTo(m, x, 5)) && BuiltUpTo(m, x, 5).functions == DeclaredIn(m)
  {
    hide GoodModule, GoodExtras, Earlier, DeclaredIn;
    HeaderBack(Earlier(m, x, []));
    EarlierSections(m, x, []);
    assert ReadSections(BuiltUpTo(m, x, 5), []) == Ok(BuiltUpTo(m, x, 5));
    hide ReadSections, BuiltUpTo;
  }

  /** A type and a function section, and no code: the module is read, and its function, which has a result,
      is not one the validator accepts. */
  lemma NoCodeAccepted()
    ensures var r := ReadBuilder(CutOff(Constants([7], []), Extras([], {})));
      && r.Ok? && r.value.functions == [Declared(NULLARY)] && !Accepted(r.value.functions[0])
  {
    var m, x := Constants([7], []), Extras([], {});
    ConstantsGood([7], []);
    FunctionLimits(m);
    EmptyBody();
    SevenDeclared();
    assert GoodExtras(x);
    hide GoodModule, GoodExtras, GoodSource, Accepted, CutOff, ReadBuilder, BuiltUpTo, Constants, DeclaredIn;
    hide AllDeclaredOf;
    CutOffRead(m, x);
  }

  lemma SevenDeclared()
    requires var fs := Constants([7], []).functions;
      forall i :: 0 <= i < |fs| ==> GoodSource([NULLARY], fs[i])
    ensures Constants([7], []).types == [NULLARY]
    ensures AllDeclaredOf([NULLARY], Constants([7], []).functions) == [Declared(NULLARY)]
  {
    hide GoodSource;
  }

  lemma EmptyBody()
    ensures !Accepted(Declared(NULLARY))
  {
    var c := ContextOf(NULLARY, []);
    assert VisitAll(c, START, []) == Some(START) && c.results == [I32];
    hide VisitAll;
  }

  // ---------- imported functions ----------

  /** One imported and one own function. Index 0 should denote the imported one and denotes the other; index
      1 should denote the function that returns 7 and is refused. */
  lemma ImportsShiftIndices(x: Extras)
    requires GoodExtras(x)
    ensures var m := Constants([7], [FUNCTION_IMPORT]);
      var zero, one := Export([0x61], FuncItem(0)), Export([0x61], FuncItem(1));
      && ReadBuilder(EncodeModule(WithExport(m, one), x)).Err?
      && var r := ReadBuilder(EncodeModule(WithExport(m, zero), x));
         && r.Ok? && r.value.exports == [zero] && |r.value.functions| == 1
         && Found(r.value, FuncItem(0)) == Some(Own(0)) && Meant(r.value, FuncItem(0)) == Some(Imported(0))
         && Found(r.value, FuncItem(1)) == None && Meant(r.value, FuncItem(1)) == Some(Own(0))
  {
    var m := Constants([7], [FUNCTION_IMPORT]);
    var zero, one := Export([0x61], FuncItem(0)), Export([0x61], FuncItem(1));
    ConstantsGood([7], [FUNCTION_IMPORT]);
    ShiftedSpaces();
    hide GoodModule, GoodExtras, EncodeModule, ReadBuilder, Constants, SpacesIn, SpacesOf, Meant, Found;
    ExportReadExactly(m, x, zero);
    ExportReadExactly(m, x, one);
    ShiftedIndices(ReadBuilder(EncodeModule(WithExport(m, zero), x)).value);
  }

  lemma ShiftedSpaces()
    ensures var m := Constants([7], [FUNCTION_IMPORT]);
      SpacesIn(m) == Spaces(1, 0, 0, 0) && AllImports(m.imports) == [ImportOf(FUNCTION_IMPORT)]
    ensures InSpace(Spaces(1, 0, 0, 0), FuncItem(0)) && !InSpace(Spaces(1, 0, 0, 0), FuncItem(1))
  {
  }

  lemma ShiftedIndices(b: Builder)
    requires b.imports == [ImportOf(FUNCTION_IMPORT)] && SpacesOf(b) == Spaces(1, 0, 0, 0)
    ensures |b.functions| == 1
    ensures Found(b, FuncItem(0)) == Some(Own(0)) && Meant(b, FuncItem(0)) == Some(Imported(0))
    ensures Found(b, FuncItem(1)) == None && Meant(b, FuncItem(1)) == Some(Own(0))
  {
    assert b.imports[1..] == [];
    assert ImportedCount(FuncItem(0), b.imports) == 1 && ImportedCount(FuncItem(1), b.imports) == 1;
  }
}
