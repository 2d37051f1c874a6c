/** Accepted bodies that read one local and return something else than the caller gave it. */
module LocalExamples {
  import opened Wrappers
  import opened WasmCore
  import Interpreter
  import opened Machine
  import opened Registers
  import opened FunctionFrame
  import opened CompilerSpec
  import opened Validator
  import opened ValidatorBounds
  import opened Accepting
  import opened DeadCode
  import opened CompilerRun
  import opened Arguments
  import opened CompilerResults
  import opened Counterexamples

  function ReadMeta(params: seq<ValType>, locals: seq<ValType>): Metadata {
    Metadata(BlockType(params, [I32]), locals, 4, 1)
  }

  lemma ReadAccepted(c: Context, i: nat)
    requires c.results == [I32] && HasLocal(c, i, I32)
    ensures Check(c, [GetLocalI32(i)]) == Some(Counted(false, 0, 1))
  {
    assert [GetLocalI32(i)] == [GetLocalI32(i)] + [];
    hide Counted, Visit, VisitAll, Finalize, HasLocal;
    StartCounted();
    PushVisited(c, false, 0, 0, GetLocalI32(i));
    EndVisited(c, false, 1);
    VisitThen(c, START, GetLocalI32(i), [], Counted(false, 1, 1));
    VisitNone(c, Counted(false, 1, 1));
  }

  lemma ReadCompilable(t: Target, params: seq<ValType>, locals: seq<ValType>, i: nat)
    requires t.WellFormed() && |params| <= 6 && i < |params + locals| && (params + locals)[i] == I32
    requires TotalBytes(params + locals) < 0x1000_0000
    ensures var meta, body := ReadMeta(params, locals), [GetLocalI32(i)];
      Compilable(meta, body) && ExitKept(t, meta, body) && Core(body) == body
  {
    var meta, body := ReadMeta(params, locals), [GetLocalI32(i)];
    assert meta.LocalTypes() == params + locals;
    ReadAccepted(ContextOf(meta.signature, locals), i);
    WholeCore(body);
    hide Check, Compilable, ExitKept, TotalBytes;
    ReturnLastCompilable(t, meta, body);
  }

  lemma ReadMeans(locals: seq<Word>, i: nat)
    requires i < |locals|
    ensures Meaning([GetLocalI32(i)], locals) == Some(locals[i])
  {
    assert [GetLocalI32(i)] == [] + [GetLocalI32(i)] && [] + [locals[i]] == [locals[i]];
    ExecAppend([], GetLocalI32(i), Interpreter.Initial(locals));
  }

  /** Every target, as written or corrected, returns what the call finds as that local. */
  lemma ReadCall(t: Target, params: seq<ValType>, locals: seq<ValType>, i: nat, m0: State)
    requires t.WellFormed() && |params| <= 6 && i < |params + locals| && (params + locals)[i] == I32
    requires TotalBytes(params + locals) < 0x1000_0000 && m0.sp >= FrameBytes(ReadMeta(params, locals))
    ensures var meta, body := ReadMeta(params, locals), [GetLocalI32(i)];
      && Compilable(meta, body) && |params| <= |t.args| && CompileFunction(t, meta, body).Some?
      && Run(CompileFunction(t, meta, body).value, m0).regs[t.ret] == InitialLocals(t, meta, m0)[i]
  {
    var meta, body := ReadMeta(params, locals), [GetLocalI32(i)];
    ReadCompilable(t, params, locals, i);
    SixArgs(t);
    ReadMeans(InitialLocals(t, meta, m0), i);
    assert AddCount(body) == 0 && meta.maxStackElements <= |t.callerSaved|;
    assert StaticallyHarmless(t, meta, body);
    hide *;
    AsWrittenReturnsMeaning(t, meta, body, m0);
  }

  // ---------- an argument behind a floating-point one ----------

  const SHIFTED := BlockType([F32, I32], [I32])

  /** The second parameter is the first integer, and the caller passes it in the first integer register. The
      code returns what is in the second one, which need not be an argument at all. No target is right. */
  lemma FloatShiftsArguments(t: Target, args: seq<Word>, m0: State)
    requires t.WellFormed() && ArgumentsIn(t, SHIFTED.params, args, m0) && m0.sp >= 16
    ensures var meta, body := Metadata(SHIFTED, [], 4, 1), [GetLocalI32(1)];
      && Compilable(meta, body) && CompileFunction(t, meta, body).Some? && !IntegersFirst(SHIFTED.params)
      && var code := CompileFunction(t, meta, body).value;
         && Run(code, m0).regs[t.ret] == Low(m0.regs[t.args[1]])
         && Meaning(body, WasmLocals(meta, args)) == Some(Low(m0.regs[t.args[0]]))
  {
    var meta := ReadMeta([F32, I32], []);
    assert meta == Metadata(SHIFTED, [], 4, 1) && meta.LocalTypes() == [F32, I32];
    ShiftedIndex();
    SizeOfTwo();
    SmallFrame(meta);
    ReadMeans(WasmLocals(meta, args), 1);
    SixArgs(t);
    hide CompileFunction, Run, Compilable, FrameBytes, Meaning, ArgIndex;
    ReadCall(t, [F32, I32], [], 1, m0);
  }

  lemma SizeOfTwo()
    ensures TotalBytes([F32, I32]) == 8
  {
    assert [F32, I32][1..] == [I32] && [I32][1..] == [];
    assert TotalBytes([I32]) == 4;
  }

  lemma ShiftedIndex()
    ensures |SHIFTED.params| == 2 && !InVectorRegister(SHIFTED.params[1]) && ArgIndex(SHIFTED.params, 1) == 0
    ensures !IntegersFirst(SHIFTED.params)
  {
    assert InVectorRegister(SHIFTED.params[0]);
  }

  /** Up to three words of locals and one operand are a frame of 16 bytes. */
  lemma SmallFrame(meta: Metadata)
    requires TotalBytes(meta.LocalTypes()) <= 12 && meta.maxStackBytes == 4
    ensures FrameBytes(meta) == 16
  {
    hide FrameBytes, TotalBytes;
    StackSizeMeans(meta);
  }

  // ---------- a declared local ----------

  /** A declared local is zero in WebAssembly. The code returns the word that its slot holds, and so the call
      is right if and only if that word is zero. No target is right on all of memory. */
  lemma SlotBecomesResult(t: Target, m0: State)
    requires t.WellFormed() && m0.sp >= 16
    ensures var meta, body := Metadata(BlockType([], [I32]), [I32], 4, 1), [GetLocalI32(0)];
      && Compilable(meta, body) && CompileFunction(t, meta, body).Some?
      && Run(CompileFunction(t, meta, body).value, m0).regs[t.ret] == Peek(m0.mem, m0.sp - 32)
      && Meaning(body, WasmLocals(meta, [])) == Some(0)
  {
    SlotFound(t, m0);
    ReadMeans(WasmLocals(ReadMeta([], [I32]), []), 0);
    hide CompileFunction, Run, Compilable, FrameBytes, Meaning, InitialLocals, Peek;
    ReadCall(t, [], [I32], 0, m0);
  }

  lemma SlotFound(t: Target, m0: State)
    ensures var meta := ReadMeta([], [I32]);
      && [] + [I32] == [I32] && TotalBytes([I32]) == 4 && FrameBytes(meta) == 16
      && |InitialLocals(t, meta, m0)| == 1 && InitialLocals(t, meta, m0)[0] == Peek(m0.mem, m0.sp - 32)
  {
    var meta := ReadMeta([], [I32]);
    assert [] + [I32] == [I32] && meta.LocalTypes() == [I32] && [I32][..0] == [];
    assert TotalBytes([I32]) == 4 by { assert [I32][1..] == []; }
    SmallFrame(meta);
    hide FrameBytes;
    assert FrameBytes(meta) == 16 && SlotOffset(meta, 0) == -16;
  }
}
