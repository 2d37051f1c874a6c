/** Compiled calls in the two ABIs' own register numbers. */
module CallingConventions {
  import opened Wrappers
  import opened WasmCore
  import opened Machine
  import opened Registers
  import opened FunctionFrame
  import opened CompilerSpec
  import opened CompilerRun
  import opened Arguments
  import opened LinearMeaning
  import opened CompilerResults
  import opened LocalExamples

  // System V AMD64: the numbers instructions encode the registers with.

  const RAX: Reg := 0
  const RCX: Reg := 1
  const RDX: Reg := 2
  const RBX: Reg := 3
  const RSP: Reg := 4
  const RBP: Reg := 5
  const RSI: Reg := 6
  const RDI: Reg := 7

  const SYSTEM_V_ARGUMENTS: seq<Reg> := [RDI, RSI, RDX, RCX, 8, 9]
  const SYSTEM_V_PRESERVED: set<Reg> := {RBX, RSP, RBP, 12, 13, 14, 15}

  // AAPCS64: x0-x7 have the arguments and x0 the result.

  const AAPCS64_ARGUMENTS: seq<Reg> := [0, 1, 2, 3, 4, 5, 6, 7]

  /** The target as written, or corrected. */
  predicate Either(t: Target, written: Target) {
    t == written || t == written.Correct()
  }

  lemma Targets(t: Target)
    ensures Either(t, X64) || Either(t, ARM64) ==> t.WellFormed()
    ensures t == X64.Correct() || t == ARM64.Correct() ==> t.Corrected()
  {
    X64WellFormed();
    Arm64WellFormed();
    CorrectTargets();
    hide X64, ARM64;
  }

  // ---------- what a call keeps ----------

  lemma X64CallerSaved(t: Target, r: Reg)
    requires Either(t, X64)
    ensures r in t.callerSaved <==> r in {RAX, RCX, RDX, RSI, RDI, 8, 9, 10, 11}
    ensures r in SYSTEM_V_PRESERVED ==> r !in t.callerSaved
    ensures t.ret == RAX
  {
  }

  lemma X64Fields(t: Target)
    requires Either(t, X64)
    ensures t.args == SYSTEM_V_ARGUMENTS == [7, 6, 2, 1, 8, 9] && t.ret == RAX == 0
  {
  }

  lemma Arm64CallerSaved(t: Target, r: Reg)
    requires Either(t, ARM64)
    ensures r in t.callerSaved <==> r <= 7 || 9 <= r <= 15
  {
    hide Interval, ARM64, ARM64_CALLEE_SAVED, AAPCS64_ARGUMENTS, Either;
    Arm64Fields(t);
    Disjoint(0, 8, 9, 16);
  }

  lemma Arm64Fields(t: Target)
    requires Either(t, ARM64)
    ensures t.args == AAPCS64_ARGUMENTS == [0, 1, 2, 3, 4, 5, 6, 7] && t.ret == 0
    ensures t.callerSaved == ARM64_CALLER_SAVED
  {
    hide Interval, ARM64_CALLER_SAVED, ARM64_CALLEE_SAVED;
  }

  /** Every call of x64 code, as written or corrected, whatever its body, keeps every register that System V
      asks it to keep, changes no register but the nine it may, and gives the stack pointer back. */
  lemma X64CallKeeps(t: Target, meta: Metadata, body: seq<Op>, m0: State)
    requires Either(t, X64) && Compilable(meta, body)
    ensures |meta.signature.params| <= |t.args| && CompileFunction(t, meta, body).Some?
    ensures var m1 := Run(CompileFunction(t, meta, body).value, m0);
      && m1.sp == m0.sp
      && (forall r: Reg :: r in SYSTEM_V_PRESERVED ==> m1.regs[r] == m0.regs[r])
      && (forall r: Reg :: r !in {RAX, RCX, RDX, RSI, RDI, 8, 9, 10, 11} ==> m1.regs[r] == m0.regs[r])
  {
    Targets(t);
    hide CompileFunction, Compilable, Run, CallWrites, X64, SYSTEM_V_PRESERVED;
    CallKeepsConvention(t, meta, body, m0);
    forall r: Reg
      ensures r !in {RAX, RCX, RDX, RSI, RDI, 8, 9, 10, 11} ==> r !in t.callerSaved
      ensures r in SYSTEM_V_PRESERVED ==> r !in t.callerSaved
    {
      X64CallerSaved(t, r);
    }
  }

  /** Every call of arm64 code keeps x19 to x29, as AAPCS64 asks, and x8, x16 to x18, the link register and the stack
      pointer's number besides. */
  lemma Arm64CallKeeps(t: Target, meta: Metadata, body: seq<Op>, m0: State)
    requires Either(t, ARM64) && Compilable(meta, body)
    ensures |meta.signature.params| <= |t.args| && CompileFunction(t, meta, body).Some?
    ensures var m1 := Run(CompileFunction(t, meta, body).value, m0);
      && m1.sp == m0.sp
      && (forall r: Reg :: 19 <= r <= 29 ==> m1.regs[r] == m0.regs[r])
      && (forall r: Reg :: r == 8 || 16 <= r ==> m1.regs[r] == m0.regs[r])
  {
    Targets(t);
    hide CompileFunction, Compilable, Run, CallWrites, ARM64;
    CallKeepsConvention(t, meta, body, m0);
    forall r: Reg
      ensures r == 8 || 16 <= r ==> r !in t.callerSaved
    {
      Arm64CallerSaved(t, r);
    }
  }

  // ---------- arguments and results ----------

  const SIX_WORDS: seq<ValType> := [I32, I32, I32, I32, I32, I32]

  lemma SixWordsSize(i: nat)
    requires i < 6
    ensures |SIX_WORDS| == 6 && SIX_WORDS[i] == I32 && SIX_WORDS + [] == SIX_WORDS && TotalBytes(SIX_WORDS) == 24
    ensures ReadMeta(SIX_WORDS, []).LocalTypes() == SIX_WORDS && FrameBytes(ReadMeta(SIX_WORDS, [])) == 32
  {
    var meta := ReadMeta(SIX_WORDS, []);
    assert SIX_WORDS == [I32, I32] + ([I32, I32] + [I32, I32]) && meta.LocalTypes() == SIX_WORDS;
    TotalBytesAppend([I32, I32], [I32, I32] + [I32, I32]);
    TotalBytesAppend([I32, I32], [I32, I32]);
    assert [I32, I32][1..] == [I32] && [I32][1..] == [] && TotalBytes([I32, I32]) == 8;
    hide FrameBytes, TotalBytes;
    StackSizeMeans(meta);
  }

  lemma ReadsParameter(t: Target, i: nat, m0: State)
    requires t.WellFormed() && i < 6 && m0.sp >= 32
    ensures var meta, body := ReadMeta(SIX_WORDS, []), [GetLocalI32(i)];
      && |SIX_WORDS| == 6 <= |t.args| && CompileFunction(t, meta, body).Some?
      && Run(CompileFunction(t, meta, body).value, m0).regs[t.ret] == Low(m0.regs[t.args[i]])
  {
    SixWordsSize(i);
    hide CompileFunction, Run, Compilable, SIX_WORDS, FrameBytes, SlotOffset;
    ReadCall(t, SIX_WORDS, [], i, m0);
  }

  /** Of six i32 arguments, the x64 code of a body that reads the i-th returns in rax what the caller has put into
      rdi, rsi, rdx, rcx, r8 or r9. */
  lemma X64ReadsArgument(t: Target, i: nat, m0: State)
    requires Either(t, X64) && i < 6 && m0.sp >= 32
    ensures var meta, body := ReadMeta(SIX_WORDS, []), [GetLocalI32(i)];
      && |SIX_WORDS| <= |t.args| && CompileFunction(t, meta, body).Some?
      && Run(CompileFunction(t, meta, body).value, m0).regs[0] == Low(m0.regs[[7, 6, 2, 1, 8, 9][i]])
  {
    hide *;
    Targets(t);
    X64Fields(t);
    ReadsParameter(t, i, m0);
  }

  /** The same on arm64, with x0 to x5, and the result in x0. */
  lemma Arm64ReadsArgument(t: Target, i: nat, m0: State)
    requires Either(t, ARM64) && i < 6 && m0.sp >= 32
    ensures var meta, body := ReadMeta(SIX_WORDS, []), [GetLocalI32(i)];
      && |SIX_WORDS| <= |t.args| && CompileFunction(t, meta, body).Some?
      && Run(CompileFunction(t, meta, body).value, m0).regs[0] == Low(m0.regs[i])
  {
    hide *;
    Targets(t);
    Arm64Fields(t);
    ReadsParameter(t, i, m0);
  }

  /** The integer arguments of a call, in the registers `arguments` in their order. */
  ghost predicate PassedIn(arguments: seq<Reg>, params: seq<ValType>, args: seq<Word>, m0: State) {
    && |args| == |params| <= |arguments|
    && forall i :: 0 <= i < |params| && !InVectorRegister(params[i]) ==>
         Low(m0.regs[arguments[ArgIndex(params, i)]]) == args[i]
  }

  lemma ConventionRight(t: Target, arguments: seq<Reg>, meta: Metadata, body: seq<Op>, args: seq<Word>, m0: State)
    requires t.WellFormed() && t.Corrected() && t.args == arguments
    requires Compilable(meta, body) && ExitKept(t, meta, body) && meta.signature.results != []
    requires PassedIn(arguments, meta.signature.params, args, m0) && IntegersFirst(meta.signature.params)
    ensures |args| == |meta.signature.params| <= |t.args| && CompileFunction(t, meta, body).Some?
    ensures Meaning(body, WasmLocals(meta, args)) == Some(Run(CompileFunction(t, meta, body).value, m0).regs[t.ret])
      <==> Cancels(Dot(SlotWeights(meta, body), SlotWords(meta, m0)))
  {
    assert ArgumentsIn(t, meta.signature.params, args, m0);
    hide CompileFunction, Run, Compilable, ExitKept, Meaning, Cancels, Dot, SlotWeights, SlotWords;
    hide IntegersFirst, ArgumentsIn, PassedIn, WasmLocals;
    MeaningPreserved(t, meta, body, args, m0);
  }

  lemma Corrections(t: Target)
    requires t == X64.Correct() || t == ARM64.Correct()
    ensures t.WellFormed() && t.Corrected()
    ensures t == X64.Correct() ==> t.args == SYSTEM_V_ARGUMENTS && t.ret == RAX && |t.args| == |X64.args|
    ensures t == ARM64.Correct() ==> t.args == AAPCS64_ARGUMENTS && t.ret == 0 && |t.args| == |ARM64.args|
  {
    CorrectTargets();
    X64Fields(X64);
    Arm64Fields(ARM64);
    hide X64, ARM64, SYSTEM_V_ARGUMENTS, AAPCS64_ARGUMENTS;
  }

  /** Corrected x64 code, called as System V has it: the result is in rax, and is WebAssembly's on these
      arguments if and only if the old contents of the declared locals cancel out. */
  lemma X64CallRight(meta: Metadata, body: seq<Op>, args: seq<Word>, m0: State)
    requires Compilable(meta, body) && ExitKept(X64.Correct(), meta, body) && meta.signature.results != []
    requires PassedIn(SYSTEM_V_ARGUMENTS, meta.signature.params, args, m0) && IntegersFirst(meta.signature.params)
    ensures |meta.signature.params| <= |X64.args| && CompileFunction(X64.Correct(), meta, body).Some?
    ensures Meaning(body, WasmLocals(meta, args))
         == Some(Run(CompileFunction(X64.Correct(), meta, body).value, m0).regs[RAX])
      <==> Cancels(Dot(SlotWeights(meta, body), SlotWords(meta, m0)))
  {
    hide *;
    Corrections(X64.Correct());
    ConventionRight(X64.Correct(), SYSTEM_V_ARGUMENTS, meta, body, args, m0);
  }

  /** Corrected arm64 code, called as AAPCS64 has it. */
  lemma Arm64CallRight(meta: Metadata, body: seq<Op>, args: seq<Word>, m0: State)
    requires Compilable(meta, body) && ExitKept(ARM64.Correct(), meta, body) && meta.signature.results != []
    requires PassedIn(AAPCS64_ARGUMENTS, meta.signature.params, args, m0) && IntegersFirst(meta.signature.params)
    ensures |meta.signature.params| <= |ARM64.args| && CompileFunction(ARM64.Correct(), meta, body).Some?
    ensures Meaning(body, WasmLocals(meta, args))
         == Some(Run(CompileFunction(ARM64.Correct(), meta, body).value, m0).regs[0])
      <==> Cancels(Dot(SlotWeights(meta, body), SlotWords(meta, m0)))
  {
    hide *;
    Corrections(ARM64.Correct());
    ConventionRight(ARM64.Correct(), AAPCS64_ARGUMENTS, meta, body, args, m0);
  }
}
