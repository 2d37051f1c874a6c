/** Concrete bodies on which the sources, as written, do not keep what they promise. */
module Counterexamples {
  import opened Wrappers
  import opened WasmCore
  import Interpreter
  import opened Machine
  import opened Registers
  import opened FunctionFrame
  import opened CompilerSpec
  import opened CompilerShape
  import opened CompilerSim
  import opened Validator
  import opened ValidatorBounds
  import opened ValidatorMarks
  import opened Accepting
  import opened RuntimeStack
  import opened DeadCode
  import opened CompilerRun
  import opened CompilerResults

  function Signature(params: nat): BlockType {
    BlockType(seq(params, _ => I32), [I32])
  }

  // ---------- x64: add with carry ----------

  const WRAPS := [ConstI32(0xFFFF_FFFF), ConstI32(1), AddI32, ConstI32(0)]

  lemma WrapsVisited(c: Context)
    requires c.results == [I32]
    ensures Check(c, WRAPS + [AddI32]) == Some(Counted(false, 0, 2))
  {
    var r1, r2, r3 := [ConstI32(1), AddI32, ConstI32(0), AddI32], [AddI32, ConstI32(0), AddI32], [ConstI32(0), AddI32];
    assert WRAPS + [AddI32] == [ConstI32(0xFFFF_FFFF)] + r1 && r1 == [ConstI32(1)] + r2;
    assert r2 == [AddI32] + r3 && r3 == [ConstI32(0)] + [AddI32] && [AddI32] == [AddI32] + [];
    hide Counted, Visit, VisitAll, Finalize, WRAPS;
    StartCounted();
    PushVisited(c, false, 0, 0, ConstI32(0xFFFF_FFFF));
    PushVisited(c, false, 1, 1, ConstI32(1));
    AddVisited(c, false, 2, 2);
    PushVisited(c, false, 1, 2, ConstI32(0));
    EndVisited(c, false, 2);
    VisitThen(c, START, ConstI32(0xFFFF_FFFF), r1, Counted(false, 1, 1));
    VisitThen(c, Counted(false, 1, 1), ConstI32(1), r2, Counted(false, 2, 2));
    VisitThen(c, Counted(false, 2, 2), AddI32, r3, Counted(false, 1, 2));
    VisitThen(c, Counted(false, 1, 2), ConstI32(0), [AddI32], Counted(false, 2, 2));
    VisitThen(c, Counted(false, 2, 2), AddI32, [], Counted(false, 1, 2));
    VisitNone(c, Counted(false, 1, 2));
  }

  lemma WrapsCompilable(t: Target)
    requires t.WellFormed()
    ensures var meta, body := Metadata(Signature(0), [], 8, 2), WRAPS + [AddI32];
      Compilable(meta, body) && ExitKept(t, meta, body) && Core(body) == body
  {
    var meta, body := Metadata(Signature(0), [], 8, 2), WRAPS + [AddI32];
    WrapsVisited(ContextOf(Signature(0), []));
    hide Check, Compilable, ExitKept;
    ReturnLastCompilable(t, meta, body);
    WholeCore(body);
  }

  lemma WholeCore(body: seq<Op>)
    requires Return !in body
    ensures Core(body) == body
  {
    SplitAtReturn(body);
  }

  /** One carry out is enough: the wasm meaning of this body is 0, the x64 source returns something else. */
  lemma X64AddsStaleCarry(m0: State)
    requires m0.sp >= 16
    ensures var meta, body := Metadata(Signature(0), [], 8, 2), WRAPS + [AddI32];
      && Compilable(meta, body) && CompileFunction(X64, meta, body).Some?
      && Meaning(body, []) == Some(0)
      && Run(CompileFunction(X64, meta, body).value, m0).regs[X64.ret] != 0
  {
    hide *;
    var meta, body := Metadata(Signature(0), [], 8, 2), WRAPS + [AddI32];
    X64WellFormed();
    WrapsCompilable(X64);
    WrapsFrame(meta, m0);
    FinalAddExact(X64, meta, body, WRAPS, m0);
    var s0 := Interpreter.Initial(InitialLocals(X64, meta, m0));
    WrapsCarry(meta, s0);
    ExecAppend(WRAPS, AddI32, s0);
    WrapsMeaning(s0);
  }

  lemma WrapsFrame(meta: Metadata, m0: State)
    requires meta == Metadata(Signature(0), [], 8, 2) && m0.sp >= 16
    ensures !EntryCarry(meta, m0) && |meta.signature.params| <= |X64.args| && meta.signature.results != []
    ensures InitialLocals(X64, meta, m0) == [] && X64.addsCarry
    ensures Interpreter.Initial([]).locals == []
  {
    assert meta.LocalTypes() == [];
    hide FrameBytes;
    StackSizeMeans(meta);
  }

  lemma WrapsMeaning(s0: Interpreter.State)
    requires s0 == Interpreter.Initial([])
    requires Interpreter.Exec(WRAPS, s0) == s0.(stack := [0, 0])
    requires Interpreter.Exec(WRAPS + [AddI32], s0) == Interpreter.Step(AddI32, Interpreter.Exec(WRAPS, s0))
    ensures Meaning(WRAPS + [AddI32], []) == Some(0)
  {
    assert [0, 0][..0] + [0] == [0];
  }

  lemma WrapsCarry(meta: Metadata, s0: Interpreter.State)
    requires s0 == Interpreter.Initial([]) && meta == Metadata(Signature(0), [], 8, 2)
    requires AllEnabled(meta, WRAPS, 0)
    ensures HarmlessRun(X64, meta, WRAPS, s0, 0, false) && CarryAfterAll(X64, WRAPS, s0, false)
    ensures Interpreter.Exec(WRAPS, s0) == s0.(stack := [0, 0])
  {
    var s1, s2, s3 := s0.(stack := [0xFFFF_FFFF]), s0.(stack := [0xFFFF_FFFF, 1]), s0.(stack := [0]);
    WrapsSteps(s0);
    WrapsHarmless(meta, s0);
    assert meta.LocalTypes() == [];
    assert WRAPS[0] == ConstI32(0xFFFF_FFFF) && WRAPS[1..] == [ConstI32(1), AddI32, ConstI32(0)];
    assert [ConstI32(1), AddI32, ConstI32(0)][1..] == [AddI32, ConstI32(0)];
    assert [AddI32, ConstI32(0)][1..] == [ConstI32(0)] && [ConstI32(0)][1..] == [];
    hide Interpreter.Step, Enabled, X64, HarmlessStep, CarryAfter, SpilledAfter, Signature, WRAPS;
    assert CarryAfterAll(X64, [ConstI32(0)], s3, true);
    assert CarryAfterAll(X64, [AddI32, ConstI32(0)], s2, false);
    assert HarmlessRun(X64, meta, [ConstI32(0)], s3, 0, true);
    assert HarmlessRun(X64, meta, [AddI32, ConstI32(0)], s2, 0, false);
    assert HarmlessRun(X64, meta, [ConstI32(1), AddI32, ConstI32(0)], s1, 0, false);
  }

  lemma WrapsSteps(s0: Interpreter.State)
    requires s0 == Interpreter.Initial([])
    ensures var s1, s2, s3 := s0.(stack := [0xFFFF_FFFF]), s0.(stack := [0xFFFF_FFFF, 1]), s0.(stack := [0]);
      && Interpreter.Step(ConstI32(0xFFFF_FFFF), s0) == s1 && Interpreter.Step(ConstI32(1), s1) == s2
      && Interpreter.Step(AddI32, s2) == s3 && Interpreter.Step(ConstI32(0), s3) == s0.(stack := [0, 0])
  {
    var s1, s2 := s0.(stack := [0xFFFF_FFFF]), s0.(stack := [0xFFFF_FFFF, 1]);
    assert [] + [0xFFFF_FFFF] == s1.stack && s1.stack + [1] == s2.stack;
    assert s2.stack[..0] + [0] == [0] && [0] + [0] == [0, 0];
  }

  /** Step by step: no harm, no spill, and a carry from the addition on. */
  lemma WrapsHarmless(meta: Metadata, s0: Interpreter.State)
    requires s0 == Interpreter.Initial([]) && meta == Metadata(Signature(0), [], 8, 2)
    ensures |X64.callerSaved| == 9 && meta.LocalTypes() == []
    ensures var s1, s2, s3 := s0.(stack := [0xFFFF_FFFF]), s0.(stack := [0xFFFF_FFFF, 1]), s0.(stack := [0]);
      && HarmlessStep(X64, meta, ConstI32(0xFFFF_FFFF), s0, 0, false) && HarmlessStep(X64, meta, ConstI32(1), s1, 0, false)
      && HarmlessStep(X64, meta, AddI32, s2, 0, false) && HarmlessStep(X64, meta, ConstI32(0), s3, 0, true)
      && !CarryAfter(X64, ConstI32(0xFFFF_FFFF), s0, false) && !CarryAfter(X64, ConstI32(1), s1, false)
      && CarryAfter(X64, AddI32, s2, false) && CarryAfter(X64, ConstI32(0), s3, true)
    ensures SpilledAfter(X64, ConstI32(0xFFFF_FFFF), 0, 0) == 0 && SpilledAfter(X64, ConstI32(1), 1, 0) == 0
    ensures SpilledAfter(X64, AddI32, 2, 0) == 0
  {
    X64WellFormed();
    assert meta.LocalTypes() == [];
    hide X64;
  }

  // ---------- assignments to locals ----------

  /** `local 0 := 5`, then read local `i`. */
  function Assign(i: nat): seq<Op> {
    [ConstI32(5), SetLocalI32(0), GetLocalI32(i)]
  }

  function AssignMeta(params: nat): Metadata {
    Metadata(Signature(params), [], 4, 1)
  }

  lemma AssignVisited(params: nat, i: nat)
    requires i < params <= 6
    ensures Check(ContextOf(Signature(params), []), Assign(i)) == Some(Counted(false, 0, 1))
  {
    var c := ContextOf(Signature(params), []);
    assert HasLocal(c, 0, I32) && HasLocal(c, i, I32) && c.results == [I32];
    assert Assign(i) == [ConstI32(5)] + [SetLocalI32(0), GetLocalI32(i)];
    assert [SetLocalI32(0), GetLocalI32(i)] == [SetLocalI32(0)] + [GetLocalI32(i)];
    assert [GetLocalI32(i)] == [GetLocalI32(i)] + [];
    hide Counted, Visit, VisitAll, Finalize, HasLocal, Signature, Assign;
    StartCounted();
    PushVisited(c, false, 0, 0, ConstI32(5));
    SetVisited(c, false, 1, 1, 0);
    PushVisited(c, false, 0, 1, GetLocalI32(i));
    EndVisited(c, false, 1);
    VisitThen(c, START, ConstI32(5), [SetLocalI32(0), GetLocalI32(i)], Counted(false, 1, 1));
    VisitThen(c, Counted(false, 1, 1), SetLocalI32(0), [GetLocalI32(i)], Counted(false, 0, 1));
    VisitThen(c, Counted(false, 0, 1), GetLocalI32(i), [], Counted(false, 1, 1));
    VisitNone(c, Counted(false, 1, 1));
  }

  lemma AssignCompilable(t: Target, params: nat, i: nat)
    requires t.WellFormed() && i < params <= 6
    ensures Compilable(AssignMeta(params), Assign(i)) && Core(Assign(i)) == Assign(i)
  {
    AssignVisited(params, i);
    WordsBytes(Signature(params).params);
    WholeCore(Assign(i));
    hide Check, Compilable;
    assert AssignMeta(params).LocalTypes() == Signature(params).params;
    ReturnLastCompilable(t, AssignMeta(params), Assign(i));
  }

  function AssignInstrs(t: Target, meta: Metadata, i: nat, r: Reg, q: Reg): seq<Instr>
    requires 0 < |meta.LocalTypes()| && i < |meta.LocalTypes()|
  {
    [Load32(r, 4), MovImm(r, 5), SetLocalInstr(t, SlotOffset(meta, 0), r), Load32(q, SlotOffset(meta, i))]
  }

  /** What the compilers emit for it: the constant, the store form, the load. */
  lemma AssignCode(t: Target, meta: Metadata, i: nat) returns (r: Reg, q: Reg)
    requires t.WellFormed() && AllEnabled(meta, Assign(i), 0) && i < |meta.LocalTypes()|
    ensures CompileOps(t, meta, [], {}, Assign(i))
         == Some(Out([Entry(4, Some(q), I32)], {q}, AssignInstrs(t, meta, i, r, q)))
  {
    var body := Assign(i);
    assert body[1..] == [SetLocalI32(0), GetLocalI32(i)] && body[1..][1..] == [GetLocalI32(i)];
    assert AllEnabled(meta, body[1..], 1) && AllEnabled(meta, body[1..][1..], 0);
    hide CompileOp, SetLocalInstr, SlotOffset, Enabled, Depth;
    r, q := AssignShapes(t, meta, i);
    CompileOne(t, meta, [], {}, GetLocalI32(i));
    var set0 := SetLocalInstr(t, SlotOffset(meta, 0), r);
    var get := Load32(q, SlotOffset(meta, i));
    assert [set0] + [get] == [set0, get];
    assert [Load32(r, 4), MovImm(r, 5)] + [set0, get] == AssignInstrs(t, meta, i, r, q);
  }

  lemma AssignShapes(t: Target, meta: Metadata, i: nat) returns (r: Reg, q: Reg)
    requires t.WellFormed() && i < |meta.LocalTypes()|
    requires Enabled(meta, ConstI32(5), 0) && Enabled(meta, SetLocalI32(0), 1) && Enabled(meta, GetLocalI32(i), 0)
    ensures CompileOp(t, meta, [], {}, ConstI32(5))
         == Some(Out([Entry(4, Some(r), I32)], {r}, [Load32(r, 4), MovImm(r, 5)]))
    ensures CompileOp(t, meta, [Entry(4, Some(r), I32)], {r}, SetLocalI32(0))
         == Some(Out([], {}, [SetLocalInstr(t, SlotOffset(meta, 0), r)]))
    ensures CompileOp(t, meta, [], {}, GetLocalI32(i))
         == Some(Out([Entry(4, Some(q), I32)], {q}, [Load32(q, SlotOffset(meta, i))]))
  {
    hide CompileOp, SlotOffset, UnderPush, PushCode, Inv;
    r := PushFirst(t, meta, ConstI32(5));
    q := PushFirst(t, meta, GetLocalI32(i));
    var one := [Entry(4, Some(r), I32)];
    var r' := SetLocalShape(t, meta, one, {r}, 0, 0);
    assert one[..0] == [] && one[0].reg == Some(r);
    var store := [SetLocalInstr(t, SlotOffset(meta, 0), r)];
    assert [] + store == store;
    NothingHeld();
    hide HeldRegs;
  }

  /** A push on an empty stack. */
  lemma PushFirst(t: Target, meta: Metadata, op: Op) returns (r: Reg)
    requires t.WellFormed() && Enabled(meta, op, 0) && (op.ConstI32? || op.GetLocalI32?)
    ensures Inv(t, [Entry(4, Some(r), I32)], {r}, 0)
    ensures CompileOp(t, meta, [], {}, op)
         == Some(Out([Entry(4, Some(r), I32)], {r},
                     if op.ConstI32? then [Load32(r, 4), MovImm(r, op.value)] else [Load32(r, SlotOffset(meta, op.idx))]))
  {
    StartInv(t);
    NothingHeld();
    hide CompileOp, SlotOffset, Inv, HeldRegs;
    r := PushShape(t, meta, [], {}, 0, op);
    var one := [Entry(4, Some(r), I32)];
    assert UnderPush(t, [], 0) == [] && PushCode(t, [], 0) == [];
    assert [] + one == one && {} + {r} == {r};
    assert [] + [Load32(r, 4), MovImm(r, if op.ConstI32? then op.value else 0)]
        == [Load32(r, 4), MovImm(r, if op.ConstI32? then op.value else 0)];
    assert op.GetLocalI32? ==> [] + [Load32(r, SlotOffset(meta, op.idx))] == [Load32(r, SlotOffset(meta, op.idx))];
    PushHolding(t, [], {}, 0, r);
  }

  lemma NothingHeld()
    ensures HeldRegs([]) == {}
  {
  }

  /** Running it leaves in the register what the store form has left of local `i`. */
  lemma AssignRun(t: Target, meta: Metadata, i: nat, r: Reg, q: Reg, m: State)
    requires i < |meta.LocalTypes()|
    ensures var off, off0 := m.sp + SlotOffset(meta, i), m.sp + SlotOffset(meta, 0);
      Run(AssignInstrs(t, meta, i, r, q), m).regs[q] ==
        (match t.setLocal
         case StoreWord => if off == off0 then 5 else Peek(m.mem, off)
         case StorePair => if off == off0 then 5 else if off == off0 + 4 then 0 else Peek(m.mem, off)
         case LoadPair => Peek(m.mem, off))
  {
    hide SlotOffset, Run;
    var store, load := SetLocalInstr(t, SlotOffset(meta, 0), r), Load32(q, SlotOffset(meta, i));
    RunFour(Load32(r, 4), MovImm(r, 5), store, load, m);
    var m1 := Exec1(MovImm(r, 5), Exec1(Load32(r, 4), m));
    StoreSteps(t, SlotOffset(meta, 0), r, m1);
    LoadReads(q, SlotOffset(meta, i), Exec1(store, m1));
    hide SetLocalInstr, Exec1, Run, Straight, AssignInstrs;
  }

  lemma RunFour(a: Instr, b: Instr, c: Instr, d: Instr, m: State)
    requires Straight([a, b, c, d])
    ensures Run([a, b, c, d], m) == Exec1(d, Exec1(c, Exec1(b, Exec1(a, m))))
  {
    hide Exec1;
    assert [a, b, c, d][0] == a && [a, b, c, d][1] == b && [a, b, c, d][2] == c && [a, b, c, d][3] == d;
    assert [a, b, c, d] == [a] + ([b] + ([c] + [d]));
    RunAppend([a], [b] + ([c] + [d]), m);
    RunAppend([b], [c] + [d], Run([a], m));
    RunAppend([c], [d], Run([b], Run([a], m)));
    RunOne(a, m);
    RunOne(b, Exec1(a, m));
    RunOne(c, Exec1(b, Exec1(a, m)));
    RunOne(d, Exec1(c, Exec1(b, Exec1(a, m))));
  }

  lemma StoreSteps(t: Target, off: int, r: Reg, m: State)
    requires m.regs[r] == 5
    ensures var m1 := Exec1(SetLocalInstr(t, off, r), m);
      && m1.sp == m.sp
      && m1.mem == (match t.setLocal
                    case StoreWord => m.mem[m.sp + off := 5]
                    case StorePair => m.mem[m.sp + off := 5][m.sp + off + 4 := 0]
                    case LoadPair => m.mem)
  {
  }

  lemma LoadReads(q: Reg, off: int, m: State)
    ensures Exec1(Load32(q, off), m).regs[q] == Peek(m.mem, m.sp + off)
  {
  }

  lemma ExecThree(a: Op, b: Op, c: Op, s: Interpreter.State)
    ensures Interpreter.Exec([a, b, c], s) == Interpreter.Step(c, Interpreter.Step(b, Interpreter.Step(a, s)))
  {
    assert [a, b, c] == [a, b] + [c] && [a, b] == [a] + [b] && [a] == [] + [a];
    hide Interpreter.Step;
    ExecAppend([a, b], c, s);
    ExecAppend([a], b, s);
    ExecAppend([], a, s);
  }

  lemma AssignMeans(locals: seq<Word>, i: nat)
    requires i < |locals|
    ensures Meaning(Assign(i), locals) == Some(if i == 0 then 5 else locals[i])
  {
    var s := Interpreter.Initial(locals);
    ExecThree(ConstI32(5), SetLocalI32(0), GetLocalI32(i), s);
    hide Interpreter.Exec;
    var s1 := s.(stack := [5]);
    var s2 := s.(locals := locals[0 := 5]);
    assert [] + [5] == [5] && [5][..0] == [];
    assert Interpreter.Step(ConstI32(5), s) == s1;
    assert Interpreter.Step(SetLocalI32(0), s1) == s2;
    assert Interpreter.Step(GetLocalI32(i), s2) == s2.(stack := [s2.locals[i]]);
  }

  /** The call of such a body. */
  lemma AssignCall(t: Target, params: nat, i: nat, m0: State) returns (result: Quad)
    requires t.WellFormed() && i < params <= 6
    ensures var meta, body := AssignMeta(params), Assign(i);
      && Compilable(meta, body) && CompileFunction(t, meta, body).Some?
      && result == Run(CompileFunction(t, meta, body).value, m0).regs[t.ret]
      && var locals := InitialLocals(t, meta, m0);
         && |locals| == params && (forall j :: 0 <= j < params ==> locals[j] == Low(m0.regs[t.args[j]]))
         && result == (match t.setLocal
                       case StoreWord => if i == 0 then 5 else locals[i]
                       case StorePair => if i == 0 then 5 else if i == 1 then 0 else locals[i]
                       case LoadPair => locals[i])
         && Meaning(body, locals) == Some(if i == 0 then 5 else locals[i])
  {
    var meta, body := AssignMeta(params), Assign(i);
    AssignCompilable(t, params, i);
    AssignSlots(params, i);
    var p, ma, mc := FunctionRun(t, meta, body, m0);
    hide *;
    var r, q := AssignCode(t, meta, i);
    AssignRun(t, meta, i, r, q, ma);
    AssignParts(t, meta, body, p, q);
    AssignStart(t, meta, i, m0, ma);
    AssignMeans(InitialLocals(t, meta, m0), i);
    var end := Entry(4, Some(q), I32);
    InRegister(mc, end, q);
    result := Run(CompileFunction(t, meta, body).value, m0).regs[t.ret];
    SmallWord(result, mc.regs[q]);
  }

  lemma AssignSlots(params: nat, i: nat)
    requires i < params <= 6
    ensures var meta := AssignMeta(params);
      && |meta.LocalTypes()| == params && meta.maxStackElements == 1
      && meta.LocalTypes()[i] == I32 && SlotOffset(meta, i) == SlotOffset(meta, 0) + 4 * i
  {
    var types := AssignMeta(params).LocalTypes();
    hide FrameBytes;
    WordsBytes(types[..i]);
  }

  lemma AssignParts(t: Target, meta: Metadata, body: seq<Op>, p: Parts, r: Reg)
    requires PartsOf(t, meta, body, p) && Core(body) == body
    requires CompileOps(t, meta, [], {}, body).Some?
    requires CompileOps(t, meta, [], {}, body).value.es == [Entry(4, Some(r), I32)]
    ensures p.end.es[|p.end.es| - 1] == Entry(4, Some(r), I32)
    ensures p.core == CompileOps(t, meta, [], {}, body).value
  {
  }

  lemma AssignStart(t: Target, meta: Metadata, i: nat, m0: State, ma: State)
    requires i < |meta.LocalTypes()| && meta.LocalTypes()[i] == I32 && |meta.signature.params| <= |t.args|
    requires meta.locals == []
    requires Match(ma, meta, [], Interpreter.Initial(InitialLocals(t, meta, m0)))
    ensures var locals := InitialLocals(t, meta, m0);
      && |locals| == |meta.signature.params|
      && (forall j :: 0 <= j < |locals| ==> locals[j] == Low(m0.regs[t.args[j]]))
      && Peek(ma.mem, ma.sp + SlotOffset(meta, i)) == locals[i]
  {
    hide SlotOffset, FrameBytes;
  }

  lemma InRegister(m: State, e: Entry, r: Reg)
    requires e.reg == Some(r)
    ensures Held(m, e) == m.regs[r]
  {
  }

  lemma SmallWord(a: Quad, h: Quad)
    requires SameWord(a, h) && h < TWO_32
    ensures a == h
  {
  }

  /** The arm64 source loads where it should store: `local 0 := 5; local 0` with one argument returns its
      meaning, 5, if and only if the argument is 5. */
  lemma LoadLosesAssignment(t: Target, m0: State)
    requires t.WellFormed() && t.setLocal == LoadPair
    ensures var meta, body := AssignMeta(1), Assign(0);
      && Compilable(meta, body) && CompileFunction(t, meta, body).Some?
      && var result := Run(CompileFunction(t, meta, body).value, m0).regs[t.ret];
         Meaning(body, InitialLocals(t, meta, m0)) == Some(result) <==> Low(m0.regs[t.args[0]]) == 5
  {
    hide *;
    SixArgs(t);
    var result := AssignCall(t, 1, 0, m0);
  }

  /** The x64 source stores 64 bits: `local 0 := 5; local 1` with two arguments returns its meaning, the
      second argument, if and only if that is 0. */
  lemma WideStoreClearsNextLocal(t: Target, m0: State)
    requires t.WellFormed() && t.setLocal == StorePair
    ensures var meta, body := AssignMeta(2), Assign(1);
      && Compilable(meta, body) && CompileFunction(t, meta, body).Some?
      && var result := Run(CompileFunction(t, meta, body).value, m0).regs[t.ret];
         Meaning(body, InitialLocals(t, meta, m0)) == Some(result) <==> Low(m0.regs[t.args[1]]) == 0
  {
    hide *;
    SixArgs(t);
    var result := AssignCall(t, 2, 1, m0);
  }

  lemma SixArgs(t: Target)
    requires t.WellFormed()
    ensures |t.args| >= 6
  {
  }
}
