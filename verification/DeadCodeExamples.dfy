/** Accepted bodies with code behind a return: one overflows the compiler's array, one loses its result, and
    one spoils its frame. */
module DeadCodeExamples {
  import opened Wrappers
  import opened WasmCore
  import Interpreter
  import opened Machine
  import opened Registers
  import opened FunctionFrame
  import opened Align
  import opened Bits
  import opened CompilerSpec
  import opened CompilerShape
  import opened CompilerSim
  import opened Validator
  import opened Accepting
  import opened ValidatorBounds
  import opened RuntimeStack
  import opened CompilerRun
  import opened CompilerResults
  import opened Counterexamples

  /** The compile-time stack is not reset at a return, the validator's is: this accepted body has a mark of
      one element, and the compiler's second push is past its array. */
  lemma DeadCodeOverflowsStack(t: Target)
    requires t.WellFormed()
    ensures var body, c := [ConstI32(1), Return, ConstI32(2)], ContextOf(Signature(0), []);
      && Check(c, body).Some? && Check(c, body).value.maxElements == 1
      && CompileFunction(t, MetaOf(Signature(0), [], Check(c, body).value), body).None?
  {
    var c := ContextOf(Signature(0), []);
    assert c.results == [I32];
    OverflowDepths();
    OverflowMeta();
    hide Check, DepthsFit, Supported, CompileFunction, Signature, MetaOf;
    SixArgs(t);
    DeadCodeAccepted(c);
    AcceptedCompilesExactly(t, Metadata(Signature(0), [], 4, 1), [ConstI32(1), Return, ConstI32(2)]);
  }

  lemma OverflowMeta()
    ensures MetaOf(Signature(0), [], Counted(true, 0, 1)) == Metadata(Signature(0), [], 4, 1)
    ensures Counted(true, 0, 1).maxElements == 1
    ensures |Signature(0).params| == 0 && |Signature(0).results| == 1
  {
  }

  lemma OverflowDepths()
    ensures !DepthsFit(Metadata(Signature(0), [], 4, 1), [ConstI32(1), Return, ConstI32(2)])
    ensures Supported([ConstI32(1), Return, ConstI32(2)])
  {
    var meta, body := Metadata(Signature(0), [], 4, 1), [ConstI32(1), Return, ConstI32(2)];
    assert body[1..] == [Return, ConstI32(2)] && body[1..][1..] == [ConstI32(2)];
    assert !Depths(meta, body[1..][1..], 1) && !Depths(meta, body[1..], 1);
  }

  lemma DeadCodeAccepted(c: Context)
    requires c.results == [I32]
    ensures Check(c, [ConstI32(1), Return, ConstI32(2)]) == Some(Counted(true, 0, 1))
  {
    StartCounted();
    PushVisited(c, false, 0, 0, ConstI32(1));
    ReturnCounted(c, false, 1);
    PushVisited(c, true, 0, 1, ConstI32(2));
    EndVisited(c, true, 1);
    hide Counted, Visit, VisitAll, Finalize;
    assert [ConstI32(1), Return, ConstI32(2)] == [ConstI32(1)] + [Return, ConstI32(2)];
    assert [Return, ConstI32(2)] == [Return] + [ConstI32(2)] && [ConstI32(2)] == [ConstI32(2)] + [];
    VisitThen(c, START, ConstI32(1), [Return, ConstI32(2)], Counted(false, 1, 1));
    VisitThen(c, Counted(false, 1, 1), Return, [ConstI32(2)], Counted(true, 0, 1));
    VisitThen(c, Counted(true, 0, 1), ConstI32(2), [], Counted(true, 1, 1));
    VisitNone(c, Counted(true, 1, 1));
  }

  const THREE := [ConstI32(1), ConstI32(2), AddI32]
  const THREE_THEN_DEAD := THREE + [Return, ConstI32(5)]

  lemma ThreeAccepted()
    ensures Check(ContextOf(Signature(0), []), THREE_THEN_DEAD) == Some(Counted(true, 0, 2))
  {
    var c, body := ContextOf(Signature(0), []), THREE_THEN_DEAD;
    var r1, r2, r3 := [ConstI32(2), AddI32, Return, ConstI32(5)], [AddI32, Return, ConstI32(5)], [Return, ConstI32(5)];
    assert c.results == [I32];
    assert body == [ConstI32(1)] + r1 && r1 == [ConstI32(2)] + r2 && r2 == [AddI32] + r3;
    assert r3 == [Return] + [ConstI32(5)] && [ConstI32(5)] == [ConstI32(5)] + [];
    hide Counted, Visit, VisitAll, Finalize, Signature, THREE, THREE_THEN_DEAD;
    StartCounted();
    PushVisited(c, false, 0, 0, ConstI32(1));
    PushVisited(c, false, 1, 1, ConstI32(2));
    AddVisited(c, false, 2, 2);
    ReturnCounted(c, false, 2);
    PushVisited(c, true, 0, 2, ConstI32(5));
    EndVisited(c, true, 2);
    VisitThen(c, START, ConstI32(1), r1, Counted(false, 1, 1));
    VisitThen(c, Counted(false, 1, 1), ConstI32(2), r2, Counted(false, 2, 2));
    VisitThen(c, Counted(false, 2, 2), AddI32, r3, Counted(false, 1, 2));
    VisitThen(c, Counted(false, 1, 2), Return, [ConstI32(5)], Counted(true, 0, 2));
    VisitThen(c, Counted(true, 0, 2), ConstI32(5), [], Counted(true, 1, 2));
    VisitNone(c, Counted(true, 1, 2));
  }

  const THREE_META := Metadata(Signature(0), [], 8, 2)

  lemma ThreeDepths()
    ensures DepthsFit(THREE_META, THREE_THEN_DEAD) && Core(THREE_THEN_DEAD) == THREE
    ensures Supported(THREE_THEN_DEAD) && THREE_META.LocalTypes() == []
  {
    var meta, body := THREE_META, THREE_THEN_DEAD;
    assert body[1..] == [ConstI32(2), AddI32, Return, ConstI32(5)];
    assert body[1..][1..] == [AddI32, Return, ConstI32(5)] && body[1..][1..][1..] == [Return, ConstI32(5)];
    assert body[1..][1..][1..][1..] == [ConstI32(5)] && body[1..][1..][1..][1..][1..] == [];
    assert Depths(meta, [ConstI32(5)], 1) && Depths(meta, [Return, ConstI32(5)], 1);
    assert Depths(meta, [AddI32, Return, ConstI32(5)], 2);
    assert Depths(meta, [ConstI32(2), AddI32, Return, ConstI32(5)], 1);
    assert DepthAfterAll([ConstI32(5)], 1) == 2 && DepthAfterAll([Return, ConstI32(5)], 1) == 2;
    assert DepthAfterAll([AddI32, Return, ConstI32(5)], 2) == 2;
    assert DepthAfterAll([ConstI32(2), AddI32, Return, ConstI32(5)], 1) == 2;
    assert Core([Return, ConstI32(5)]) == [] && Core([AddI32, Return, ConstI32(5)]) == [AddI32];
    assert Core([ConstI32(2), AddI32, Return, ConstI32(5)]) == [ConstI32(2), AddI32];
  }

  /** The code: the dead constant goes into the register that the second operand has left. */
  lemma ThreeCode(t: Target) returns (r: Reg, q: Reg, core: Out, end: Out)
    requires t.WellFormed()
    ensures r != q
    ensures CompileOps(t, THREE_META, [], {}, THREE) == Some(core) && core.es == [Entry(4, Some(r), I32)]
    ensures core.code == [Load32(r, 4), MovImm(r, 1)] + ([Load32(q, 8), MovImm(q, 2)] + ([AddInstr(t, r, q)] + []))
    ensures CompileOps(t, THREE_META, [], {}, THREE_THEN_DEAD) == Some(end)
    ensures end.es == [Entry(4, Some(r), I32), Entry(8, Some(q), I32)]
  {
    var meta := THREE_META;
    hide CompileOp, Inv;
    r := PushFirst(t, meta, ConstI32(1));
    q := PushSecond(t, meta, r, ConstI32(2));
    var q' := PushSecond(t, meta, r, ConstI32(5));
    var one, two := [Entry(4, Some(r), I32)], [Entry(4, Some(r), I32), Entry(8, Some(q), I32)];
    AddPair(t, meta, r, q);
    assert THREE[1..] == [ConstI32(2), AddI32] && THREE[1..][1..] == [AddI32] && THREE[1..][1..][1..] == [];
    assert CompileOps(t, meta, one, {r}, []) == Some(Out(one, {r}, []));
    assert CompileOps(t, meta, two, {r, q}, [AddI32]) == Some(Out(one, {r}, [AddInstr(t, r, q)] + []));
    assert CompileOps(t, meta, one, {r}, [ConstI32(2), AddI32])
        == Some(Out(one, {r}, [Load32(q, 8), MovImm(q, 2)] + ([AddInstr(t, r, q)] + [])));
    core := CompileOps(t, meta, [], {}, THREE).value;
    CompileOpsConcat(t, meta, [], {}, THREE, [Return, ConstI32(5)]);
    ReturnVisit(t, meta, one, {r});
    CompileOne(t, meta, one, {r}, ConstI32(5));
    assert [Return, ConstI32(5)][1..] == [ConstI32(5)];
    end := CompileOps(t, meta, [], {}, THREE_THEN_DEAD).value;
  }

  function AddInstr(t: Target, r: Reg, q: Reg): Instr {
    if t.addsCarry then Adc32(r, q) else Add32(r, q)
  }

  /** A push on one operand in a register: the new register does not depend on what is pushed. */
  lemma PushSecond(t: Target, meta: Metadata, r: Reg, op: Op) returns (q: Reg)
    requires t.WellFormed() && Enabled(meta, op, 1) && op.ConstI32? && Inv(t, [Entry(4, Some(r), I32)], {r}, 0)
    ensures FirstFree(t.callerSaved, {r}) == Some(q) && q != r
    ensures CompileOp(t, meta, [Entry(4, Some(r), I32)], {r}, op)
         == Some(Out([Entry(4, Some(r), I32), Entry(8, Some(q), I32)], {r, q}, [Load32(q, 8), MovImm(q, op.value)]))
    ensures Inv(t, [Entry(4, Some(r), I32), Entry(8, Some(q), I32)], {r, q}, 0)
  {
    var one := [Entry(4, Some(r), I32)];
    assert HeldRegs(one) == {r} by {
      assert one[0].reg == Some(r);
    }
    Exhausted(t, one, {r}, 0);
    WordBytesOne(r);
    q := FirstFree(t.callerSaved, {r}).value;
    var pushed := one + [Entry(8, None, I32)];
    assert PushI32(one) == pushed && pushed[1] == Entry(8, None, I32);
    assert SetTop(pushed, q) == [Entry(4, Some(r), I32), Entry(8, Some(q), I32)];
    assert [] + [Load32(q, 8)] + [MovImm(q, op.value)] == [Load32(q, 8), MovImm(q, op.value)];
    assert {r} + {q} == {r, q} && pushed[..|pushed|] == pushed;
    assert Ensure(t, pushed, {r}, pushed[1]) == Some(Taken(Out(pushed, {r, q}, [] + [Load32(q, 8)]), q));
    PushHolding(t, one, {r}, 0, q);
    assert one + [Entry(8, Some(q), I32)] == [Entry(4, Some(r), I32), Entry(8, Some(q), I32)];
    hide Inv, HeldRegs;
  }

  lemma WordBytesOne(r: Reg)
    ensures TotalBytes(Types([Entry(4, Some(r), I32)])) == 4
  {
    assert Types([Entry(4, Some(r), I32)]) == [I32] && [I32][1..] == [];
  }

  lemma AddPair(t: Target, meta: Metadata, r: Reg, q: Reg)
    requires t.WellFormed() && Inv(t, [Entry(4, Some(r), I32), Entry(8, Some(q), I32)], {r, q}, 0)
    ensures CompileOp(t, meta, [Entry(4, Some(r), I32), Entry(8, Some(q), I32)], {r, q}, AddI32)
         == Some(Out([Entry(4, Some(r), I32)], {r}, [AddInstr(t, r, q)]))
  {
    var two := [Entry(4, Some(r), I32), Entry(8, Some(q), I32)];
    hide CompileOp, Inv;
    var r1, r2 := AddShape(t, meta, two, {r, q}, 0);
    NothingHeld();
    assert two[..0] == [] && two[0].reg == Some(r) && two[1].reg == Some(q);
    assert [] + [Entry(4, Some(r), I32)] == [Entry(4, Some(r), I32)] && {} + {r} == {r};
    assert [] + [] + [AddInstr(t, r, q)] == [AddInstr(t, r, q)];
    hide HeldRegs;
  }

  lemma ThreeRun(t: Target, r: Reg, q: Reg, m: State)
    requires r != q
    ensures var code := [Load32(r, 4), MovImm(r, 1)] + ([Load32(q, 8), MovImm(q, 2)] + ([AddInstr(t, r, q)] + []));
      Run(code, m).regs[q] == 2
  {
    var code := [Load32(r, 4), MovImm(r, 1), Load32(q, 8)] + [MovImm(q, 2), AddInstr(t, r, q)];
    assert [Load32(r, 4), MovImm(r, 1)] + ([Load32(q, 8), MovImm(q, 2)] + ([AddInstr(t, r, q)] + [])) == code;
    RunAppend([Load32(r, 4), MovImm(r, 1), Load32(q, 8)], [MovImm(q, 2), AddInstr(t, r, q)], m);
    var m1 := Run([Load32(r, 4), MovImm(r, 1), Load32(q, 8)], m);
    assert [MovImm(q, 2), AddInstr(t, r, q)] == [MovImm(q, 2)] + [AddInstr(t, r, q)];
    RunAppend([MovImm(q, 2)], [AddInstr(t, r, q)], m1);
    RunOne(MovImm(q, 2), m1);
    RunOne(AddInstr(t, r, q), Exec1(MovImm(q, 2), m1));
    hide Run;
  }

  /** Dead code can be compiled and give a wrong result without a sign: 1 + 2 is returned, 5 is pushed
      behind the return, and the exit reads the register of that push, where the run has left 2. No target
      is right for this body. */
  lemma DeadCodeLosesResult(t: Target, m0: State)
    requires t.WellFormed()
    ensures Compilable(THREE_META, THREE_THEN_DEAD) && CompileFunction(t, THREE_META, THREE_THEN_DEAD).Some?
    ensures Meaning(THREE_THEN_DEAD, InitialLocals(t, THREE_META, m0)) == Some(3)
    ensures Run(CompileFunction(t, THREE_META, THREE_THEN_DEAD).value, m0).regs[t.ret] == 2
    ensures !ExitKept(t, THREE_META, THREE_THEN_DEAD)
  {
    ThreeAccepted();
    ThreeDepths();
    ThreeMeans();
    assert InitialLocals(t, THREE_META, m0) == [];
    hide Check, DepthsFit, Supported, Core, THREE_THEN_DEAD, THREE, Meaning, CompileOps, Run, Held;
    hide SameWord, CompileFunction, InitialLocals, AllEnabled, Match, Framed, FrameBytes, InLocals;
    var p, ma, mc := FunctionRun(t, THREE_META, THREE_THEN_DEAD, m0);
    var r, q, core, end := ThreeCode(t);
    ThreeRun(t, r, q, ma);
    InRegister(mc, end.es[1], q);
    SmallWord(Run(CompileFunction(t, THREE_META, THREE_THEN_DEAD).value, m0).regs[t.ret], mc.regs[q]);
  }

  lemma ThreeMeans()
    ensures Meaning(THREE_THEN_DEAD, []) == Some(3)
  {
    var s0 := Interpreter.Initial([]);
    ThreeSteps(s0);
    ThreeDepths();
    hide Interpreter.Step, Interpreter.Exec, Core, THREE, THREE_THEN_DEAD, DepthsFit;
    CoreIsMeaning(THREE_THEN_DEAD, s0);
  }

  lemma ThreeSteps(s0: Interpreter.State)
    requires s0 == Interpreter.Initial([])
    ensures Interpreter.Exec(THREE, s0) == s0.(stack := [3])
  {
    ExecThree(ConstI32(1), ConstI32(2), AddI32, s0);
    hide Interpreter.Exec;
    assert [] + [1] == [1] && [1] + [2] == [1, 2] && [1, 2][..0] + [3] == [3];
    var s1, s2, s3 := s0.(stack := [1]), s0.(stack := [1, 2]), s0.(stack := [3]);
    assert Interpreter.Step(ConstI32(1), s0) == s1 && Interpreter.Step(ConstI32(2), s1) == s2;
    assert Interpreter.Step(AddI32, s2) == s3;
  }

  const PHANTOM := [ConstI32(1), Return, SetLocalI32(0), ConstI32(2)]
  const PHANTOM_META := Metadata(Signature(1), [], TWO_32 - 12, 1)

  /** Dead code that pops a value from nowhere and then pushes spoils the byte mark. The compiler takes this
      accepted body, and its frame has size 0: the slot of its parameter is the word the caller's stack
      pointer is at. Every call overwrites that word with the argument, on every target. */
  lemma PhantomSpoilsFrame(t: Target, m0: State)
    requires t.WellFormed()
    ensures var c := ContextOf(Signature(1), []);
      && Check(c, PHANTOM).Some? && PHANTOM_META == MetaOf(Signature(1), [], Check(c, PHANTOM).value)
    ensures |Signature(1).params| <= |t.args| && CompileFunction(t, PHANTOM_META, PHANTOM).Some?
    ensures FrameBytes(PHANTOM_META) == 0 && !Fits(PHANTOM_META)
    ensures var code, argument := CompileFunction(t, PHANTOM_META, PHANTOM).value, Low(m0.regs[t.args[0]]);
      && Run(code, m0).sp == m0.sp && Run(code, m0).mem == m0.mem[m0.sp := argument]
      && (Peek(m0.mem, m0.sp) != argument ==> !KeepsConvention(t, PHANTOM_META, code, m0))
  {
    PhantomCompiles(t);
    PhantomRun(t, m0);
    var code, argument := CompileFunction(t, PHANTOM_META, PHANTOM).value, Low(m0.regs[t.args[0]]);
    hide *;
    if Peek(m0.mem, m0.sp) != argument {
      Overwritten(t, code, argument, m0);
    }
  }

  lemma PhantomCompiles(t: Target)
    requires t.WellFormed()
    ensures var c := ContextOf(Signature(1), []);
      && Check(c, PHANTOM).Some? && PHANTOM_META == MetaOf(Signature(1), [], Check(c, PHANTOM).value)
    ensures |Signature(1).params| == 1 <= |t.args| && CompileFunction(t, PHANTOM_META, PHANTOM).Some?
    ensures FrameBytes(PHANTOM_META) == 0 && !Fits(PHANTOM_META)
  {
    PhantomMeta();
    hide Check, FrameBytes, DepthsFit, SlotOffset, Signature, MetaOf, Fits, PHANTOM, PHANTOM_META;
    hide CompileFunction, Supported;
    PhantomAccepted();
    PhantomDepths();
    PhantomFrame();
    SixArgs(t);
    AcceptedCompilesExactly(t, PHANTOM_META, PHANTOM);
  }

  lemma Overwritten(t: Target, code: seq<Instr>, argument: Word, m0: State)
    requires Run(code, m0).mem == m0.mem[m0.sp := argument] && Peek(m0.mem, m0.sp) != argument
    ensures !KeepsConvention(t, PHANTOM_META, code, m0)
  {
    hide Run, CallWrites;
    assert Peek(Run(code, m0).mem, m0.sp) == argument;
  }

  /** The code: the constant, the jump, and what is behind it. */
  lemma PhantomCode(t: Target) returns (r: Reg, q: Reg, tail: seq<Instr>)
    requires t.WellFormed()
    ensures CompileOps(t, PHANTOM_META, [], {}, PHANTOM)
         == Some(Out([Entry(4, Some(q), I32)], {q}, [Load32(r, 4), MovImm(r, 1)] + tail))
    ensures Inv(t, [Entry(4, Some(q), I32)], {q}, 0)
    ensures tail != [] && tail[0] == JmpExit && BindExit !in tail
  {
    var meta := PHANTOM_META;
    PhantomFrame();
    assert meta.LocalTypes() == [I32];
    hide CompileOp, SlotOffset, Inv;
    r := PushFirst(t, meta, ConstI32(1));
    q := PushFirst(t, meta, ConstI32(2));
    var one := [Entry(4, Some(r), I32)];
    var store := [SetLocalInstr(t, SlotOffset(meta, 0), r)];
    hide Enabled, PHANTOM, CompileOps, SetLocalInstr;
    ReturnVisit(t, meta, one, {r});
    SetOne(t, meta, r);
    CompileOne(t, meta, [], {}, ConstI32(2));
    var push := [Load32(q, 4), MovImm(q, 2)];
    tail := [JmpExit] + (store + push);
    PhantomTail(t, r, q, store, push);
  }

  lemma SetOne(t: Target, meta: Metadata, r: Reg)
    requires t.WellFormed() && Inv(t, [Entry(4, Some(r), I32)], {r}, 0) && meta.LocalTypes() == [I32]
    ensures CompileOp(t, meta, [Entry(4, Some(r), I32)], {r}, SetLocalI32(0))
         == Some(Out([], {}, [SetLocalInstr(t, SlotOffset(meta, 0), r)]))
    ensures SetLocalInstr(t, SlotOffset(meta, 0), r) != BindExit
  {
    var one := [Entry(4, Some(r), I32)];
    hide CompileOp, SlotOffset, Inv;
    var r' := SetLocalShape(t, meta, one, {r}, 0, 0);
    assert one[..0] == [] && one[0].reg == Some(r);
    var store := [SetLocalInstr(t, SlotOffset(meta, 0), r)];
    assert [] + store == store;
    NothingHeld();
    hide HeldRegs;
  }

  lemma PhantomTail(t: Target, r: Reg, q: Reg, store: seq<Instr>, push: seq<Instr>)
    requires var meta, one := PHANTOM_META, [Entry(4, Some(r), I32)];
      && CompileOp(t, meta, [], {}, ConstI32(1)) == Some(Out(one, {r}, [Load32(r, 4), MovImm(r, 1)]))
      && CompileOp(t, meta, one, {r}, Return) == Some(Out(one, {r}, [JmpExit]))
      && CompileOp(t, meta, one, {r}, SetLocalI32(0)) == Some(Out([], {}, store))
      && CompileOps(t, meta, [], {}, [ConstI32(2)]) == Some(Out([Entry(4, Some(q), I32)], {q}, push))
    ensures CompileOps(t, PHANTOM_META, [], {}, PHANTOM)
         == Some(Out([Entry(4, Some(q), I32)], {q}, [Load32(r, 4), MovImm(r, 1)] + ([JmpExit] + (store + push))))
  {
    var meta, one := PHANTOM_META, [Entry(4, Some(r), I32)];
    hide CompileOp;
    assert PHANTOM[1..] == [Return, SetLocalI32(0), ConstI32(2)];
    assert [Return, SetLocalI32(0), ConstI32(2)][1..] == [SetLocalI32(0), ConstI32(2)];
    assert [SetLocalI32(0), ConstI32(2)][1..] == [ConstI32(2)];
    assert CompileOps(t, meta, one, {r}, [SetLocalI32(0), ConstI32(2)])
        == Some(Out([Entry(4, Some(q), I32)], {q}, store + push));
    assert CompileOps(t, meta, one, {r}, [Return, SetLocalI32(0), ConstI32(2)])
        == Some(Out([Entry(4, Some(q), I32)], {q}, [JmpExit] + (store + push)));
  }

  /** The prologue's store of the parameter is all the memory a call writes. */
  lemma PhantomRun(t: Target, m0: State)
    requires t.WellFormed() && |Signature(1).params| <= |t.args|
    requires CompileFunction(t, PHANTOM_META, PHANTOM).Some?
    ensures var m1 := Run(CompileFunction(t, PHANTOM_META, PHANTOM).value, m0);
      m1.sp == m0.sp && m1.mem == m0.mem[m0.sp := Low(m0.regs[t.args[0]])]
  {
    PhantomMeta();
    PhantomFrame();
    var r, q, tail := PhantomCode(t);
    var es := [Entry(4, Some(q), I32)];
    var pro, code := Prologue(t, PHANTOM_META), [Load32(r, 4), MovImm(r, 1)];
    var ma := PhantomPrologue(t, m0);
    ConstRun(r, ma);
    var mc := Run(code, ma);
    hide Run, Prologue, CompileOps, Epilogue, FrameBytes, Inv, PHANTOM, PHANTOM_META, Signature;
    EpilogueRun(t, PHANTOM_META, es, {q}, 0, mc);
    var exit := Epilogue(t, PHANTOM_META, es, {q}).value.code;
    RunToExit(pro, code, tail, exit[1..], m0);
  }

  lemma ConstRun(r: Reg, m: State)
    ensures var code := [Load32(r, 4), MovImm(r, 1)];
      Straight(code) && Run(code, m).sp == m.sp && Run(code, m).mem == m.mem
  {
    assert [Load32(r, 4), MovImm(r, 1)] == [Load32(r, 4)] + [MovImm(r, 1)];
    RunAppend([Load32(r, 4)], [MovImm(r, 1)], m);
    RunOne(Load32(r, 4), m);
    RunOne(MovImm(r, 1), Exec1(Load32(r, 4), m));
  }

  lemma PhantomPrologue(t: Target, m0: State) returns (ma: State)
    requires |PHANTOM_META.signature.params| <= |t.args|
    ensures |PHANTOM_META.signature.params| == 1 && Straight(Prologue(t, PHANTOM_META))
    ensures ma == Run(Prologue(t, PHANTOM_META), m0)
    ensures ma.sp == m0.sp && ma.mem == m0.mem[m0.sp := Low(m0.regs[t.args[0]])]
  {
    var meta := PHANTOM_META;
    PhantomMeta();
    PhantomFrame();
    hide FrameBytes, SlotOffset;
    assert Signature(1).params[0] == I32 && SaveParams(t, meta, 0) == [];
    assert SaveParams(t, meta, 1) == [] + [Store32(0, t.args[0])];
    assert Prologue(t, meta) == [SubSp(0)] + [Store32(0, t.args[0])];
    RunAppend([SubSp(0)], [Store32(0, t.args[0])], m0);
    RunOne(SubSp(0), m0);
    RunOne(Store32(0, t.args[0]), Exec1(SubSp(0), m0));
    ma := Run(Prologue(t, meta), m0);
  }

  lemma PhantomMeta()
    ensures PHANTOM_META == MetaOf(Signature(1), [], VState(true, [], TWO_64 - 16, 1, TWO_64 - 12))
    ensures PHANTOM_META.signature == Signature(1) && PHANTOM_META.locals == []
    ensures |Signature(1).params| == 1 && |Signature(1).results| == 1
  {
  }

  lemma PhantomAccepted()
    ensures Check(ContextOf(Signature(1), []), PHANTOM)
         == Some(VState(true, [], TWO_64 - 16, 1, TWO_64 - 12))
  {
    var c := ContextOf(Signature(1), []);
    var popped := VState(true, [], TWO_64 - 16, 1, 4);
    var pushed := VState(true, [I32], TWO_64 - 12, 1, TWO_64 - 12);
    assert c.results == [I32];
    StartCounted();
    PushVisited(c, false, 0, 0, ConstI32(1));
    ReturnCounted(c, false, 1);
    PhantomVisits(c);
    hide Counted, Visit, VisitAll, Finalize;
    var r1, r2 := [Return, SetLocalI32(0), ConstI32(2)], [SetLocalI32(0), ConstI32(2)];
    assert PHANTOM == [ConstI32(1)] + r1 && r1 == [Return] + r2;
    assert r2 == [SetLocalI32(0)] + [ConstI32(2)] && [ConstI32(2)] == [ConstI32(2)] + [];
    VisitThen(c, START, ConstI32(1), r1, Counted(false, 1, 1));
    VisitThen(c, Counted(false, 1, 1), Return, r2, Counted(true, 0, 1));
    VisitThen(c, Counted(true, 0, 1), SetLocalI32(0), [ConstI32(2)], popped);
    VisitThen(c, popped, ConstI32(2), [], pushed);
    VisitNone(c, pushed);
  }

  lemma PhantomVisits(c: Context)
    requires c == ContextOf(Signature(1), [])
    ensures var popped, pushed := VState(true, [], TWO_64 - 16, 1, 4), VState(true, [I32], TWO_64 - 12, 1, TWO_64 - 12);
      && Visit(c, Counted(true, 0, 1), SetLocalI32(0)) == Some(popped)
      && Visit(c, popped, ConstI32(2)) == Some(pushed)
      && Finalize(c, pushed) == Some(pushed.(stack := [], usage := TWO_64 - 16))
  {
    var popped, pushed := VState(true, [], TWO_64 - 16, 1, 4), VState(true, [I32], TWO_64 - 12, 1, TWO_64 - 12);
    assert Words32(0) == [] && [] + [I32] == [I32] && [I32][..0] == [] && c.results[1..] == [];
    assert HasLocal(c, 0, I32);
    assert Pop(pushed, I32) == Some(pushed.(stack := [], usage := TWO_64 - 16));
    assert PopAll(pushed.(stack := [], usage := TWO_64 - 16), []) == Some(pushed.(stack := [], usage := TWO_64 - 16));
  }

  lemma PhantomDepths()
    ensures DepthsFit(PHANTOM_META, PHANTOM) && Supported(PHANTOM)
  {
    var meta := PHANTOM_META;
    assert PHANTOM[1..] == [Return, SetLocalI32(0), ConstI32(2)] && PHANTOM[1..][1..] == [SetLocalI32(0), ConstI32(2)];
    assert PHANTOM[1..][1..][1..] == [ConstI32(2)] && PHANTOM[1..][1..][1..][1..] == [];
    assert meta.LocalTypes() == [I32];
    assert Depths(meta, [ConstI32(2)], 0) && Depths(meta, [SetLocalI32(0), ConstI32(2)], 1);
    assert Depths(meta, [Return, SetLocalI32(0), ConstI32(2)], 1);
    assert DepthAfterAll([ConstI32(2)], 0) == 1 && DepthAfterAll([SetLocalI32(0), ConstI32(2)], 1) == 1;
    assert DepthAfterAll([Return, SetLocalI32(0), ConstI32(2)], 1) == 1;
  }

  lemma PhantomFrame()
    ensures |PHANTOM_META.LocalTypes()| == 1 && !Fits(PHANTOM_META)
    ensures FrameBytes(PHANTOM_META) == 0 && SlotOffset(PHANTOM_META, 0) == 0
  {
    var meta := PHANTOM_META;
    assert meta.LocalTypes() == [I32] && [I32][1..] == [];
    assert TotalBytes([I32]) == 4;
    Sixteen();
    hide Pow2, AlignUp;
    AlignUpValue(TWO_32 - 8, 4);
  }
}
