/** Whole functions: prologue, body and epilogue of a compiled function run as the body's meaning. */
module CompilerRun {
  import opened Wrappers
  import opened WasmCore
  import Interpreter
  import opened Machine
  import opened Registers
  import opened RuntimeStack
  import opened FunctionFrame
  import opened CompilerSpec
  import opened CompilerShape
  import opened CompilerSim
  import opened Validator
  import opened ValidatorBounds

  // ---------- what any emitted body may touch ----------

  /** Offsets from the lowered stack pointer a body may write: operand slots and locals, and for the
      64-bit store the word behind a local. */
  ghost predicate InFrame(t: Target, meta: Metadata, d: int) {
    || SpillOffset(meta, d)
    || LocalWord(meta, d)
    || (t.setLocal == StorePair && LocalWord(meta, d - 4))
  }

  /** Between two states of one body: the same stack pointer, and nothing changed outside the
      caller-saved registers and the frame. */
  ghost predicate Framed(t: Target, meta: Metadata, m: State, m1: State) {
    && m1.sp == m.sp
    && (forall r: Reg :: r !in t.callerSaved ==> m1.regs[r] == m.regs[r])
    && (forall a :: !InFrame(t, meta, a - m.sp) ==> Peek(m1.mem, a) == Peek(m.mem, a))
  }

  lemma ContainedStep(t: Target, meta: Metadata, i: Instr, m: State)
    requires Contained(t, meta, i)
    ensures Framed(t, meta, m, Exec1(i, m))
  {
  }

  lemma FramedTrans(t: Target, meta: Metadata, m0: State, m1: State, m2: State)
    requires Framed(t, meta, m0, m1) && Framed(t, meta, m1, m2)
    ensures Framed(t, meta, m0, m2)
  {
  }

  lemma {:induction false} ContainedRun(t: Target, meta: Metadata, code: seq<Instr>, m: State)
    requires AllContained(t, meta, code) && Straight(code)
    ensures Framed(t, meta, m, Run(code, m))
  {
    if code != [] {
      hide InFrame, Contained, Framed, Exec1;
      ContainedStep(t, meta, code[0], m);
      ContainedRun(t, meta, code[1..], Exec1(code[0], m));
      FramedTrans(t, meta, m, Exec1(code[0], m), Run(code[1..], Exec1(code[0], m)));
    } else {
      assert m == Run(code, m);
    }
  }

  // ---------- straight bodies ----------

  function SpilledAfterAll(t: Target, ops: seq<Op>, n: int, k: nat): nat
    decreases |ops|
  {
    if ops == [] || n < 0 then k
    else SpilledAfterAll(t, ops[1..], Depth(ops[0], n), SpilledAfter(t, ops[0], n, k))
  }

  /** Compile-time states reachable by enabled visits keep the invariant; the code is confined. */
  lemma {:induction false} ReachableInv(t: Target, meta: Metadata, es: seq<Entry>, used: set<Reg>, k: nat,
                                        ops: seq<Op>)
    requires Sized(t, meta) && Inv(t, es, used, k) && AllEnabled(meta, ops, |es|)
    ensures Visited(t, meta, CompileOps(t, meta, es, used, ops), SpilledAfterAll(t, ops, |es|, k),
                    DepthAfterAll(ops, |es|))
    decreases |ops|
  {
    if ops == [] {
      EmptyVisit(t, meta, es, used, k);
    } else {
      var o := CompileOp(t, meta, es, used, ops[0]);
      hide CompileOp, Inv, Enabled, Contained, Depth, SpilledAfter;
      VisitKeepsInv(t, meta, es, used, k, ops[0]);
      ReachableInv(t, meta, o.value.es, o.value.used, SpilledAfter(t, ops[0], |es|, k), ops[1..]);
      var rest := CompileOps(t, meta, o.value.es, o.value.used, ops[1..]);
      assert CompileOps(t, meta, es, used, ops)
          == Some(rest.value.(code := o.value.code + rest.value.code));
    }
  }

  lemma EmptyVisit(t: Target, meta: Metadata, es: seq<Entry>, used: set<Reg>, k: nat)
    requires Inv(t, es, used, k)
    ensures Visited(t, meta, CompileOps(t, meta, es, used, []), k, |es|)
  {
  }

  function DepthAfterAll(ops: seq<Op>, n: int): int
    decreases |ops|
  {
    if ops == [] || n < 0 then n else DepthAfterAll(ops[1..], Depth(ops[0], n))
  }

  /** The machine matches the interpreter before the first visit and after every one. */
  ghost predicate Follows(t: Target, meta: Metadata, es: seq<Entry>, used: set<Reg>, ops: seq<Op>,
                          s: Interpreter.State, m: State)
    decreases |ops|
  {
    && Match(m, meta, es, s)
    && (ops == [] ||
        var o := CompileOp(t, meta, es, used, ops[0]);
        o.Some? && Follows(t, meta, o.value.es, o.value.used, ops[1..],
                           Interpreter.Step(ops[0], s), Run(o.value.code, m)))
  }

  /** No visit of the run is harmed by the target's departures; `k` counts the spilled entries. */
  predicate HarmlessRun(t: Target, meta: Metadata, ops: seq<Op>, s: Interpreter.State, k: nat, carry: bool)
    requires s.mode.Running? && |s.locals| == |meta.LocalTypes()| && AllEnabled(meta, ops, |s.stack|)
    decreases |ops|
  {
    ops == [] ||
    (StepEnabled(meta, ops[0], s);
     HarmlessStep(t, meta, ops[0], s, k, carry) &&
     HarmlessRun(t, meta, ops[1..], Interpreter.Step(ops[0], s), SpilledAfter(t, ops[0], |s.stack|, k),
                 CarryAfter(t, ops[0], s, carry)))
  }

  lemma MatchSizes(m: State, meta: Metadata, es: seq<Entry>, s: Interpreter.State)
    requires Match(m, meta, es, s)
    ensures |s.stack| == |es| && |s.locals| == |meta.LocalTypes()|
  {
  }

  /** The machine follows the interpreter through a whole run if and only if no departure of the target
      does harm on the way. */
  lemma {:induction false} RunExact(t: Target, meta: Metadata, es: seq<Entry>, used: set<Reg>, k: nat,
                                    ops: seq<Op>, s: Interpreter.State, m: State)
    requires Sized(t, meta) && Inv(t, es, used, k) && AllEnabled(meta, ops, |es|)
    requires Match(m, meta, es, s) && s.mode.Running?
    ensures |s.stack| == |es| && |s.locals| == |meta.LocalTypes()|
    ensures Follows(t, meta, es, used, ops, s, m) <==> HarmlessRun(t, meta, ops, s, k, m.carry)
    ensures t.Corrected() ==> HarmlessRun(t, meta, ops, s, k, m.carry)
    decreases |ops|
  {
    hide CompileOp, Inv, Enabled, Contained, Depth, SpilledAfter, CarryAfter, Match, HarmlessStep;
    hide Interpreter.Step, Run;
    MatchSizes(m, meta, es, s);
    if ops != [] {
      var o := CompileOp(t, meta, es, used, ops[0]);
      StepEnabled(meta, ops[0], s);
      VisitKeepsInv(t, meta, es, used, k, ops[0]);
      StepExact(t, meta, es, used, k, ops[0], s, m);
      var m1, s1 := Run(o.value.code, m), Interpreter.Step(ops[0], s);
      if Match(m1, meta, o.value.es, s1) {
        RunExact(t, meta, o.value.es, o.value.used, SpilledAfter(t, ops[0], |es|, k), ops[1..], s1, m1);
      }
    }
  }

  function CarryAfterAll(t: Target, ops: seq<Op>, s: Interpreter.State, carry: bool): bool
    decreases |ops|
  {
    if ops == [] then carry
    else CarryAfterAll(t, ops[1..], Interpreter.Step(ops[0], s), CarryAfter(t, ops[0], s, carry))
  }

  /** Following all the way, the machine ends in the interpreter's final state. */
  lemma {:induction false} FollowsEnds(t: Target, meta: Metadata, es: seq<Entry>, used: set<Reg>, k: nat,
                                       ops: seq<Op>, s: Interpreter.State, m: State)
    requires Sized(t, meta) && Inv(t, es, used, k) && AllEnabled(meta, ops, |es|)
    requires Follows(t, meta, es, used, ops, s, m) && s.mode.Running?
    ensures var o := CompileOps(t, meta, es, used, ops);
      && o.Some? && Match(Run(o.value.code, m), meta, o.value.es, Interpreter.Exec(ops, s))
      && Run(o.value.code, m).carry == CarryAfterAll(t, ops, s, m.carry)
    decreases |ops|
  {
    hide CompileOp, Inv, Enabled, Contained, Depth, SpilledAfter, CarryAfter, Match, Interpreter.Step, HarmlessStep;
    if ops == [] {
      assert Run([], m) == m;
    } else {
      MatchSizes(m, meta, es, s);
      StepEnabled(meta, ops[0], s);
      StepExact(t, meta, es, used, k, ops[0], s, m);
      VisitKeepsInv(t, meta, es, used, k, ops[0]);
      var o := CompileOp(t, meta, es, used, ops[0]);
      var m1, s1 := Run(o.value.code, m), Interpreter.Step(ops[0], s);
      FollowsEnds(t, meta, o.value.es, o.value.used, SpilledAfter(t, ops[0], |es|, k), ops[1..], s1, m1);
      var rest := CompileOps(t, meta, o.value.es, o.value.used, ops[1..]);
      RunAppend(o.value.code, rest.value.code, m);
    }
  }

  // ---------- prologue and epilogue ----------

  /** The locals a function starts on: parameters from the argument registers, declared locals from
      whatever their slots hold. */
  ghost function InitialLocals(t: Target, meta: Metadata, m0: State): (locals: seq<Word>)
    requires |meta.signature.params| <= |t.args|
    ensures |locals| == |meta.LocalTypes()|
  {
    seq(|meta.LocalTypes()|, i requires 0 <= i < |meta.LocalTypes()| =>
      if i < |meta.signature.params| then Low(m0.regs[t.args[i]])
      else Peek(m0.mem, m0.sp - FrameBytes(meta) + SlotOffset(meta, i)))
  }

  /** The slot of parameter `i` has its register, as much of it as its type takes. */
  ghost predicate HasParam(t: Target, meta: Metadata, i: nat, m: State, m1: State)
    requires i < |meta.signature.params| <= |t.args|
  {
    var a, q := m.sp + SlotOffset(meta, i), m.regs[t.args[i]];
    && Peek(m1.mem, a) == Low(q)
    && (!Is32Bit(meta.LocalTypes()[i]) ==> Peek(m1.mem, a + 4) == High(q))
  }

  /** The first `n` parameters are in their slots; nothing else has changed. */
  ghost predicate Saved(t: Target, meta: Metadata, n: nat, m: State, m1: State)
    requires n <= |meta.signature.params| <= |t.args|
  {
    && m1 == m.(mem := m1.mem)
    && (forall i :: 0 <= i < n ==> HasParam(t, meta, i, m, m1))
    && (forall a :: a - m.sp < -FrameBytes(meta) || SlotOffset(meta, n) <= a - m.sp ==>
          Peek(m1.mem, a) == Peek(m.mem, a))
  }

  lemma SaveOne(t: Target, meta: Metadata, n: nat, m: State, m1: State)
    requires Fits(meta) && n < |meta.signature.params| <= |t.args| && Saved(t, meta, n, m, m1)
    ensures Saved(t, meta, n + 1, m,
                  Exec1(StoreFrom(meta.signature.params[n], SlotOffset(meta, n), t.args[n]), m1))
  {
    ParamLayout(meta, n);
    var m2 := Exec1(StoreFrom(meta.signature.params[n], SlotOffset(meta, n), t.args[n]), m1);
    StoreWrites(meta.signature.params[n], SlotOffset(meta, n), t.args[n], m1);
    hide SlotOffset, FrameBytes, SizeBytes, Fits, StoreFrom, Exec1, High, Low;
    forall i | 0 <= i <= n
      ensures HasParam(t, meta, i, m, m2)
    {
      assert i < n ==> HasParam(t, meta, i, m, m1);
    }
    hide HasParam;
  }

  lemma StoreWrites(vt: ValType, off: int, r: Reg, m: State)
    ensures var m1 := Exec1(StoreFrom(vt, off, r), m);
      && m1 == m.(mem := m1.mem)
      && Peek(m1.mem, m.sp + off) == Low(m.regs[r])
      && (!Is32Bit(vt) ==> Peek(m1.mem, m.sp + off + 4) == High(m.regs[r]))
      && forall a :: a < m.sp + off || a >= m.sp + off + (if Is32Bit(vt) then 4 else 8) ==>
           Peek(m1.mem, a) == Peek(m.mem, a)
  {
  }

  lemma ParamLayout(meta: Metadata, n: nat)
    requires Fits(meta) && n < |meta.signature.params|
    ensures n < |meta.LocalTypes()| && meta.LocalTypes()[n] == meta.signature.params[n]
    ensures -FrameBytes(meta) <= SlotOffset(meta, n)
    ensures SlotOffset(meta, n) + (if Is32Bit(meta.LocalTypes()[n]) then 4 else 8) <= SlotOffset(meta, n + 1)
    ensures forall i :: 0 <= i < n ==>
      SlotOffset(meta, i) + (if Is32Bit(meta.LocalTypes()[i]) then 4 else 8) <= SlotOffset(meta, n)
  {
    LocalLayout(meta, n);
    SnocBytes(meta.LocalTypes(), n);
    forall i | 0 <= i < n
      ensures SlotOffset(meta, i) + (if Is32Bit(meta.LocalTypes()[i]) then 4 else 8) <= SlotOffset(meta, n)
    {
      LocalLayout(meta, i);
    }
  }

  lemma {:induction false} SaveParamsRun(t: Target, meta: Metadata, n: nat, m: State)
    requires Fits(meta) && n <= |meta.signature.params| <= |t.args|
    ensures Straight(SaveParams(t, meta, n)) && BindExit !in SaveParams(t, meta, n)
    ensures Saved(t, meta, n, m, Run(SaveParams(t, meta, n), m))
  {
    if n == 0 {
      assert Run([], m) == m;
    } else {
      var store := StoreFrom(meta.signature.params[n - 1], SlotOffset(meta, n - 1), t.args[n - 1]);
      SaveParamsRun(t, meta, n - 1, m);
      RunAppend(SaveParams(t, meta, n - 1), [store], m);
      var m1 := Run(SaveParams(t, meta, n - 1), m);
      RunOne(store, m1);
      SaveOne(t, meta, n - 1, m, m1);
    }
  }

  predicate InLocals(meta: Metadata, d: int) {
    -FrameBytes(meta) <= d < TotalBytes(meta.LocalTypes()) - FrameBytes(meta)
  }

  /** After the prologue the frame is open, and the locals are those of the call. */
  lemma PrologueRun(t: Target, meta: Metadata, m0: State) returns (m1: State)
    requires Sized(t, meta) && |meta.signature.params| <= |t.args|
    ensures Straight(Prologue(t, meta)) && BindExit !in Prologue(t, meta)
    ensures m1 == Run(Prologue(t, meta), m0)
    ensures m1.sp == m0.sp - FrameBytes(meta) && m1.regs == m0.regs && m1.carry == (m0.sp < FrameBytes(meta))
    ensures Match(m1, meta, [], Interpreter.Initial(InitialLocals(t, meta, m0)))
    ensures forall a :: !InLocals(meta, a - m1.sp) ==> Peek(m1.mem, a) == Peek(m0.mem, a)
  {
    hide Saved, SlotOffset, FrameBytes, Match, InLocals, SaveParams;
    var n := |meta.signature.params|;
    var open := Exec1(SubSp(FrameBytes(meta)), m0);
    RunOne(SubSp(FrameBytes(meta)), m0);
    RunAppend([SubSp(FrameBytes(meta))], SaveParams(t, meta, n), m0);
    SaveParamsRun(t, meta, n, open);
    m1 := Run(Prologue(t, meta), m0);
    SavedMatch(t, meta, m0, open, m1);
  }

  lemma SavedMatch(t: Target, meta: Metadata, m0: State, open: State, m1: State)
    requires Fits(meta) && |meta.signature.params| <= |t.args|
    requires open.regs == m0.regs && open.mem == m0.mem && open.sp == m0.sp - FrameBytes(meta)
    requires Saved(t, meta, |meta.signature.params|, open, m1)
    ensures m1 == open.(mem := m1.mem)
    ensures Match(m1, meta, [], Interpreter.Initial(InitialLocals(t, meta, m0)))
    ensures forall a :: !InLocals(meta, a - m1.sp) ==> Peek(m1.mem, a) == Peek(m0.mem, a)
  {
    SlotEnd(meta, |meta.signature.params|);
    var types, locals := meta.LocalTypes(), InitialLocals(t, meta, m0);
    forall i | 0 <= i < |types| && types[i] == I32
      ensures Peek(m1.mem, m1.sp + SlotOffset(meta, i)) == locals[i]
    {
      SavedLocal(t, meta, m0, open, m1, i);
    }
    hide SlotOffset, FrameBytes, Fits, InitialLocals;
  }

  lemma SavedLocal(t: Target, meta: Metadata, m0: State, open: State, m1: State, i: nat)
    requires Fits(meta) && |meta.signature.params| <= |t.args| && i < |meta.LocalTypes()|
    requires open.regs == m0.regs && open.mem == m0.mem && open.sp == m0.sp - FrameBytes(meta)
    requires Saved(t, meta, |meta.signature.params|, open, m1)
    ensures Peek(m1.mem, m1.sp + SlotOffset(meta, i)) == InitialLocals(t, meta, m0)[i]
  {
    if i >= |meta.signature.params| {
      SlotAtLeast(meta, |meta.signature.params|, i);
    } else {
      assert HasParam(t, meta, i, open, m1);
    }
    hide SlotOffset, FrameBytes, Fits;
  }

  lemma SlotAtLeast(meta: Metadata, n: nat, i: nat)
    requires Fits(meta) && n <= i < |meta.LocalTypes()|
    ensures SlotOffset(meta, n) <= SlotOffset(meta, i)
  {
    if n < i {
      LocalLayout(meta, n);
    }
  }

  lemma SlotEnd(meta: Metadata, n: nat)
    requires Fits(meta) && n <= |meta.LocalTypes()|
    ensures SlotOffset(meta, n) <= TotalBytes(meta.LocalTypes()) - FrameBytes(meta)
  {
    var types := meta.LocalTypes();
    assert types == types[..n] + types[n..];
    TotalBytesAppend(types[..n], types[n..]);
  }

  predicate Exits(e: Option<Out>) {
    e.Some? && e.value.code != [] && e.value.code == [BindExit] + e.value.code[1..]
  }

  /** What the exit code finds where the compile-time stack places an operand. */
  function Held(m: State, e: Entry): Quad {
    if e.reg.Some? then m.regs[e.reg.value] else Peek(m.mem, m.sp + e.slot)
  }

  /** The low word of `h`, and all of it when it is a word. */
  predicate SameWord(r: Quad, h: Quad) {
    Low(r) == Low(h) && (h < TWO_32 ==> r == h)
  }

  /** The code after the exit label: it returns the top operand and closes the frame. */
  lemma EpilogueRun(t: Target, meta: Metadata, es: seq<Entry>, used: set<Reg>, k: nat, m: State)
    requires t.WellFormed() && Inv(t, es, used, k)
    requires meta.signature.results == [] || (meta.signature.results == [I32] && es != [])
    ensures Exits(Epilogue(t, meta, es, used))
    ensures var m1 := Run(Epilogue(t, meta, es, used).value.code[1..], m);
      && m1.sp == m.sp + FrameBytes(meta)
      && m1.mem == m.mem
      && (forall r: Reg :: r !in t.callerSaved ==> m1.regs[r] == m.regs[r])
      && (meta.signature.results != [] ==> SameWord(m1.regs[t.ret], Held(m, es[|es| - 1])))
  {
    hide Inv, Ensure, FrameBytes, Run, Held, SameWord;
    var tail := [AddSp(FrameBytes(meta)), Ret];
    if meta.signature.results == [] {
      assert ([BindExit] + tail)[1..] == tail;
      LeaveRun(meta, m);
    } else {
      var v := es[|es| - 1];
      var r := TopReload(t, es, used, k);
      TopIsWord(t, es, used, k);
      var move := MoveResult(t, I32, I32, r);
      var leave := Reload(v, r) + move + tail;
      var code := [BindExit] + Reload(v, r) + move + tail;
      assert code == [BindExit] + leave && code[1..] == leave;
      ReloadStraight(v, r);
      RunThree(Reload(v, r), move, tail, m);
      var m1 := Run(Reload(v, r), m);
      ReloadTop(t, v, r, m);
      MoveRun(t, r, m1);
      LeaveRun(meta, Run(move, m1));
      hide Reload, MoveResult, Epilogue;
    }
  }

  lemma TopIsWord(t: Target, es: seq<Entry>, used: set<Reg>, k: nat)
    requires Inv(t, es, used, k) && es != []
    ensures es[|es| - 1].vt == I32
  {
  }

  lemma ReloadTop(t: Target, e: Entry, r: Reg, m: State)
    requires r in t.callerSaved && (e.reg.Some? ==> r == e.reg.value)
    ensures var m1 := Run(Reload(e, r), m);
      OnlyRegs(m, m1, t.callerSaved) && m1.regs[r] == Held(m, e)
  {
    if e.reg.None? {
      RunOne(Load32(r, e.slot), m);
    } else {
      assert Run([], m) == m;
    }
  }

  lemma MoveRun(t: Target, r: Reg, m: State)
    requires t.ret in t.callerSaved
    ensures var m1 := Run(MoveResult(t, I32, I32, r), m);
      OnlyRegs(m, m1, t.callerSaved) && SameWord(m1.regs[t.ret], m.regs[r])
  {
    if r == t.ret {
      assert Run([], m) == m;
    } else {
      RunOne(Mov32(t.ret, r), m);
    }
  }

  lemma LeaveRun(meta: Metadata, m: State)
    ensures Run([AddSp(FrameBytes(meta)), Ret], m) == m.(sp := m.sp + FrameBytes(meta))
  {
    assert [AddSp(FrameBytes(meta)), Ret][1..] == [Ret];
  }

  // ---------- whole functions ----------

  /** Every visit of a body finds what it needs, from depth `n`. A return leaves the depth as it is, and so
      the code behind it goes on from there. */
  predicate Depths(meta: Metadata, ops: seq<Op>, n: nat)
    decreases |ops|
  {
    ops == [] || (Enabled(meta, ops[0], n) && Depths(meta, ops[1..], Depth(ops[0], n)))
  }

  predicate AllImplemented(meta: Metadata, ops: seq<Op>) {
    forall i :: 0 <= i < |ops| ==> Implemented(meta, ops[i])
  }

  /** A body compiles if and only if its depths fit: the compiler meets an undefined case, a push past its
      array or a pop of its empty stack, exactly when the walk that ignores returns does. */
  lemma {:induction false} CompilesExactly(t: Target, meta: Metadata, es: seq<Entry>, used: set<Reg>, k: nat,
                                           ops: seq<Op>)
    requires t.WellFormed() && Inv(t, es, used, k) && AllImplemented(meta, ops)
    ensures var o := CompileOps(t, meta, es, used, ops);
      && (o.Some? <==> Depths(meta, ops, |es|))
      && (o.Some? ==> Inv(t, o.value.es, o.value.used, SpilledAfterAll(t, ops, |es|, k))
                      && |o.value.es| == DepthAfterAll(ops, |es|))
    decreases |ops|
  {
    if ops != [] {
      hide Inv, CompileOp, Enabled, Depth, SpilledAfter, Implemented;
      VisitShape(t, meta, es, used, k, ops[0]);
      var o := CompileOp(t, meta, es, used, ops[0]);
      if o.Some? {
        assert AllImplemented(meta, ops[1..]);
        CompilesExactly(t, meta, o.value.es, o.value.used, SpilledAfter(t, ops[0], |es|, k), ops[1..]);
      }
    }
  }

  lemma ExitCompiles(t: Target, meta: Metadata, es: seq<Entry>, used: set<Reg>, k: nat)
    requires t.WellFormed() && Inv(t, es, used, k) && |meta.signature.results| <= 1
    ensures Epilogue(t, meta, es, used).Some? <==> meta.signature.results == [] || es != []
  {
    if meta.signature.results != [] && es != [] {
      var r := TopReload(t, es, used, k);
    }
  }

  /** What the compilers demand of a body beyond acceptance. */
  predicate DepthsFit(meta: Metadata, body: seq<Op>) {
    Depths(meta, body, 0) && (meta.signature.results != [] ==> DepthAfterAll(body, 0) != 0)
  }

  lemma {:induction false} AcceptedImplemented(c: Context, v: VState, meta: Metadata, ops: seq<Op>)
    requires VisitAll(c, v, ops).Some? && Supported(ops) && meta.LocalTypes() == c.locals
    ensures AllImplemented(meta, ops)
    decreases |ops|
  {
    if ops != [] {
      var rest := ops[1..];
      assert forall i :: 0 <= i < |rest| ==> rest[i] == ops[i + 1];
      AcceptedImplemented(c, Visit(c, v, ops[0]).value, meta, rest);
      hide PopAll, Push;
      assert Implemented(meta, ops[0]);
      forall i | 1 <= i < |ops|
        ensures Implemented(meta, ops[i])
      {
        assert Implemented(meta, rest[i - 1]);
      }
    }
  }

  /** For every accepted body of implemented instructions, dead code and all: the compiler produces code
      without an undefined case if and only if the depths fit. */
  lemma AcceptedCompilesExactly(t: Target, meta: Metadata, body: seq<Op>)
    requires t.WellFormed() && |meta.signature.params| <= |t.args| && |meta.signature.results| <= 1
    requires Supported(body) && Check(ContextOf(meta.signature, meta.locals), body).Some?
    ensures CompileFunction(t, meta, body).Some? <==> DepthsFit(meta, body)
  {
    AcceptedImplemented(ContextOf(meta.signature, meta.locals), START, meta, body);
    StartInv(t);
    CompilesExactly(t, meta, [], {}, 0, body);
    hide Inv, AllImplemented, Depths, Epilogue, CompileOps, Supported, Check;
    var o := CompileOps(t, meta, [], {}, body);
    if o.Some? {
      ExitCompiles(t, meta, o.value.es, o.value.used, SpilledAfterAll(t, body, 0, 0));
    }
  }

  /** A function the parser hands to the compiler: accepted with its own marks, within the parser's limits
      on its signature, of implemented instructions whose depths fit, and with a frame of 32-bit size that
      has a word for each operand. */
  ghost predicate Compilable(meta: Metadata, body: seq<Op>) {
    var c := ContextOf(meta.signature, meta.locals);
    && |meta.signature.params| <= 6 && |meta.signature.results| <= 1
    && Supported(body)
    && Check(c, body).Some? && Check(c, body).value.maxElements < TWO_32
    && meta == MetaOf(meta.signature, meta.locals, Check(c, body).value)
    && DepthsFit(meta, body)
    && Fits(meta) && meta.maxStackBytes == 4 * meta.maxStackElements
  }

  lemma {:induction false} CompileOpsConcat(t: Target, meta: Metadata, es: seq<Entry>, used: set<Reg>,
                                            a: seq<Op>, b: seq<Op>)
    ensures CompileOps(t, meta, es, used, a + b)
         == (var o := CompileOps(t, meta, es, used, a);
             if o.None? then None else
             var rest := CompileOps(t, meta, o.value.es, o.value.used, b);
             if rest.None? then None else Some(rest.value.(code := o.value.code + rest.value.code)))
    decreases |a|
  {
    if a == [] {
      assert a + b == b;
      var o := CompileOps(t, meta, es, used, b);
      assert o.Some? ==> [] + o.value.code == o.value.code;
    } else {
      assert (a + b)[1..] == a[1..] + b;
      var first := CompileOp(t, meta, es, used, a[0]);
      hide CompileOp;
      if first.Some? {
        CompileOpsConcat(t, meta, first.value.es, first.value.used, a[1..], b);
        var o := CompileOps(t, meta, first.value.es, first.value.used, a[1..]);
        if o.Some? {
          var rest := CompileOps(t, meta, o.value.es, o.value.used, b);
          if rest.Some? {
            assert first.value.code + (o.value.code + rest.value.code)
                == first.value.code + o.value.code + rest.value.code;
          }
        }
      }
    }
  }

  /** Straight code, then perhaps a jump to the exit and code behind it, then the exit. */
  lemma RunToExit(pro: seq<Instr>, code: seq<Instr>, tail: seq<Instr>, leave: seq<Instr>, m: State)
    requires Straight(pro) && Straight(code) && BindExit !in tail && (tail == [] || tail[0] == JmpExit)
    ensures Run(pro + (code + tail) + ([BindExit] + leave), m) == Run(leave, Run(code, Run(pro, m)))
  {
    var exit := [BindExit] + leave;
    assert pro + (code + tail) + exit == pro + (code + (tail + exit));
    RunAppend(pro, code + (tail + exit), m);
    RunAppend(code, tail + exit, Run(pro, m));
    var m2 := Run(code, Run(pro, m));
    assert exit[1..] == leave;
    assert Run(exit, m2) == Run(leave, m2);
    if tail == [] {
      assert tail + exit == exit;
    } else {
      AfterExitAppend(tail, leave);
      assert tail + exit == tail + [BindExit] + leave;
      assert (tail + exit)[0] == JmpExit;
    }
  }

  /** The depths of a body up to its return, and on through the code behind it. */
  lemma {:induction false} DepthsSplit(meta: Metadata, body: seq<Op>, n: nat)
    requires Depths(meta, body, n)
    ensures AllEnabled(meta, Core(body), n) && DepthAfterAll(Core(body), n) >= 0
    ensures Depths(meta, Tail(body), DepthAfterAll(Core(body), n))
    decreases |body|
  {
    if body != [] {
      if body[0] == Return {
        assert body == [Return] + Dead(body);
      } else {
        DepthsSplit(meta, body[1..], Depth(body[0], n));
        assert Core(body)[1..] == Core(body[1..]);
        assert Return in body <==> Return in body[1..] by {
          assert body == [body[0]] + body[1..];
        }
      }
    }
  }

  lemma CoreReady(meta: Metadata, body: seq<Op>, locals: seq<Word>)
    requires Compilable(meta, body) && |locals| == |meta.LocalTypes()|
    ensures AllEnabled(meta, Core(body), 0)
    ensures var s := Interpreter.Exec(Core(body), Interpreter.Initial(locals));
      && s.mode.Running? && |s.stack| == |meta.signature.results|
      && Interpreter.Exec(body, Interpreter.Initial(locals)).stack == s.stack
      && !Interpreter.Exec(body, Interpreter.Initial(locals)).mode.Stuck?
    ensures meta.signature.results == [] || meta.signature.results == [I32]
    ensures DepthAfterAll(Core(body), 0) == |meta.signature.results|
  {
    var c := ContextOf(meta.signature, meta.locals);
    DepthsSplit(meta, body, 0);
    hide AllEnabled, Core, Dead, Tail, Supported, VisitAll, Interpreter.Exec, DepthAfterAll, Fits, Depths;
    AcceptedCore(c, body);
    var v := VisitAll(c, START, Core(body)).value;
    CoreRuns(c, START, Core(body), Metadata(BlockType(c.locals, []), [], 0, v.maxElements), Interpreter.Initial(locals));
    CoreIsMeaning(body, Interpreter.Initial(locals));
    EnabledDepth(meta, Core(body), Interpreter.Initial(locals));
    if meta.signature.results != [] {
      assert v.stack == meta.signature.results;
      assert v.stack[0] == I32;
    }
  }

  lemma {:induction false} EnabledDepth(meta: Metadata, ops: seq<Op>, s: Interpreter.State)
    requires AllEnabled(meta, ops, |s.stack|) && s.mode.Running? && |s.locals| == |meta.LocalTypes()|
    ensures DepthAfterAll(ops, |s.stack|) == |Interpreter.Exec(ops, s).stack|
    decreases |ops|
  {
    if ops != [] {
      StepEnabled(meta, ops[0], s);
      EnabledDepth(meta, ops[1..], Interpreter.Step(ops[0], s));
    }
  }

  /** The code behind a return does not bind the exit label. */
  lemma {:induction false} TailKeepsInv(t: Target, meta: Metadata, es: seq<Entry>, used: set<Reg>, k: nat, ops: seq<Op>)
    requires Sized(t, meta) && Inv(t, es, used, k) && Depths(meta, ops, |es|)
    ensures var o := CompileOps(t, meta, es, used, ops);
      && o.Some? && Inv(t, o.value.es, o.value.used, SpilledAfterAll(t, ops, |es|, k))
      && |o.value.es| == DepthAfterAll(ops, |es|)
      && BindExit !in o.value.code
      && (ops != [] && ops[0] == Return ==> o.value.code != [] && o.value.code[0] == JmpExit)
    decreases |ops|
  {
    if ops != [] {
      VisitKeepsInv(t, meta, es, used, k, ops[0]);
      if ops[0] == Return {
        ReturnVisit(t, meta, es, used);
      }
      hide CompileOp, Inv, Enabled, Depth, SpilledAfter;
      var o := CompileOp(t, meta, es, used, ops[0]).value;
      TailKeepsInv(t, meta, o.es, o.used, SpilledAfter(t, ops[0], |es|, k), ops[1..]);
    }
  }

  /** A compiled function in its parts: the core's state and code, the code of the rest, the state at the
      end of the body, and the exit. */
  datatype Parts = Parts(core: Out, tail: seq<Instr>, end: Out, exit: seq<Instr>)

  ghost predicate PartsOf(t: Target, meta: Metadata, body: seq<Op>, p: Parts) {
    && CompileOps(t, meta, [], {}, Core(body)) == Some(p.core)
    && CompileOps(t, meta, [], {}, body) == Some(p.end) && p.end.code == p.core.code + p.tail
    && Visited(t, meta, Some(p.core), SpilledAfterAll(t, Core(body), 0, 0), |meta.signature.results|)
    && BindExit !in p.tail && (p.tail == [] || p.tail[0] == JmpExit)
    && (meta.signature.results != [] ==> p.end.es != [])
    && Exits(Epilogue(t, meta, p.end.es, p.end.used))
    && p.exit == Epilogue(t, meta, p.end.es, p.end.used).value.code[1..]
  }

  /** The visits of a body: those of its core, then those of the rest. */
  lemma BodyCode(t: Target, meta: Metadata, body: seq<Op>) returns (core: Out, end: Out, tail: seq<Instr>)
    requires Sized(t, meta) && Depths(meta, body, 0)
    ensures CompileOps(t, meta, [], {}, Core(body)) == Some(core) && CompileOps(t, meta, [], {}, body) == Some(end)
    ensures Visited(t, meta, Some(core), SpilledAfterAll(t, Core(body), 0, 0), DepthAfterAll(Core(body), 0))
    ensures end.code == core.code + tail && BindExit !in tail && (tail == [] || tail[0] == JmpExit)
    ensures |end.es| == DepthAfterAll(body, 0) && exists k :: Inv(t, end.es, end.used, k)
  {
    var ops, k := Core(body), SpilledAfterAll(t, Core(body), 0, 0);
    StartInv(t);
    DepthsSplit(meta, body, 0);
    SplitAtReturn(body);
    CompileOpsConcat(t, meta, [], {}, ops, Tail(body));
    DepthsConcat(ops, Tail(body), 0);
    hide CompileOps, CompileOp, Inv, AllEnabled, AllContained, Straight, Depths, DepthAfterAll;
    hide Core, SpilledAfterAll;
    ReachableInv(t, meta, [], {}, 0, ops);
    core := CompileOps(t, meta, [], {}, ops).value;
    TailKeepsInv(t, meta, core.es, core.used, k, Tail(body));
    var rest := CompileOps(t, meta, core.es, core.used, Tail(body)).value;
    EmptyTail(t, meta, core.es, core.used);
    tail := rest.code;
    end := rest.(code := core.code + tail);
  }

  /** Compilation of an accepted function whose depths fit never meets an undefined case: no push past the
      fixed array, no pop of an empty stack, no failed allocation. Its code is the prologue, a straight core
      confined to the frame, perhaps a jump to the exit with dead code behind it, and the exit code. */
  lemma FunctionCode(t: Target, meta: Metadata, body: seq<Op>) returns (p: Parts)
    requires t.WellFormed() && Compilable(meta, body)
    ensures Sized(t, meta) && |meta.signature.params| <= |t.args| && AllEnabled(meta, Core(body), 0)
    ensures PartsOf(t, meta, body, p)
    ensures CompileFunction(t, meta, body)
         == Some(Prologue(t, meta) + (p.core.code + p.tail) + ([BindExit] + p.exit))
  {
    CoreReady(meta, body, seq(|meta.LocalTypes()|, _ => 0));
    hide CompileOps, Inv, AllEnabled, AllContained, Straight, Run, Epilogue, Prologue, Check;
    hide Depths, DepthAfterAll, Core;
    var core, end, tail := BodyCode(t, meta, body);
    var k :| Inv(t, end.es, end.used, k);
    EpilogueRun(t, meta, end.es, end.used, k, BLANK);
    p := Parts(core, tail, end, Epilogue(t, meta, end.es, end.used).value.code[1..]);
  }

  lemma EmptyTail(t: Target, meta: Metadata, es: seq<Entry>, used: set<Reg>)
    ensures CompileOps(t, meta, es, used, []) == Some(Out(es, used, []))
  {
  }

  lemma {:induction false} DepthsConcat(a: seq<Op>, b: seq<Op>, n: int)
    ensures DepthAfterAll(a, n) >= 0 ==> DepthAfterAll(a + b, n) == DepthAfterAll(b, DepthAfterAll(a, n))
    decreases |a|
  {
    if a == [] {
      assert a + b == b;
    } else if n >= 0 {
      assert (a + b)[1..] == a[1..] + b;
      DepthsConcat(a[1..], b, Depth(a[0], n));
    }
  }

  lemma StartInv(t: Target)
    ensures Inv(t, [], {}, 0)
  {
    assert HeldRegs([]) == {};
  }

  /** The body's meaning on given locals: its final operand. */
  function Meaning(body: seq<Op>, locals: seq<Word>): Option<Word> {
    var s := Interpreter.Exec(body, Interpreter.Initial(locals));
    if s.mode.Stuck? || s.stack == [] then None else Some(s.stack[|s.stack| - 1])
  }

  /** The carry flag after the frame is opened. */
  predicate EntryCarry(meta: Metadata, m0: State) {
    m0.sp < FrameBytes(meta)
  }

  /** Addresses a call may write: the operand slots and the locals of its own frame, and the word behind
      the locals for the 64-bit store. */
  ghost predicate CallWrites(t: Target, meta: Metadata, sp: int, a: int) {
    InFrame(t, meta, a - (sp - FrameBytes(meta))) || InLocals(meta, a - (sp - FrameBytes(meta)))
  }

  /** The place the exit takes the result from is the one that held it at the return. */
  predicate ExitKept(t: Target, meta: Metadata, body: seq<Op>) {
    var core, end := CompileOps(t, meta, [], {}, Core(body)), CompileOps(t, meta, [], {}, body);
    && core.Some? && end.Some?
    && (meta.signature.results != [] ==>
          core.value.es != [] && end.value.es != [] &&
          SamePlace(core.value.es[|core.value.es| - 1], end.value.es[|end.value.es| - 1]))
  }

  predicate SamePlace(a: Entry, b: Entry) {
    a.reg == b.reg && (a.reg.None? ==> a.slot == b.slot)
  }

  /** Running a compiled function: only the code before the return runs, and then the exit. */
  lemma FunctionRun(t: Target, meta: Metadata, body: seq<Op>, m0: State) returns (p: Parts, ma: State, mc: State)
    requires t.WellFormed() && Compilable(meta, body)
    ensures Sized(t, meta) && |meta.signature.params| <= |t.args| && AllEnabled(meta, Core(body), 0)
    ensures PartsOf(t, meta, body, p) && CompileFunction(t, meta, body).Some?
    ensures ma == Run(Prologue(t, meta), m0) && mc == Run(p.core.code, ma)
    ensures ma.sp == m0.sp - FrameBytes(meta) && ma.regs == m0.regs && ma.carry == EntryCarry(meta, m0)
    ensures Match(ma, meta, [], Interpreter.Initial(InitialLocals(t, meta, m0)))
    ensures forall a :: !InLocals(meta, a - ma.sp) ==> Peek(ma.mem, a) == Peek(m0.mem, a)
    ensures Framed(t, meta, ma, mc)
    ensures var m1 := Run(CompileFunction(t, meta, body).value, m0);
      && m1.sp == m0.sp && m1.mem == mc.mem
      && (forall r: Reg :: r !in t.callerSaved ==> m1.regs[r] == mc.regs[r])
      && (meta.signature.results != [] ==> SameWord(m1.regs[t.ret], Held(mc, p.end.es[|p.end.es| - 1])))
  {
    hide CompileFunction, Prologue, CompileOps, Compilable, Inv, AllEnabled, Contained, Epilogue;
    hide Run, Match, InFrame;
    hide InLocals, FrameBytes, Held, SameWord;
    p := FunctionCode(t, meta, body);
    ma := PrologueRun(t, meta, m0);
    mc := Run(p.core.code, ma);
    RunToExit(Prologue(t, meta), p.core.code, p.tail, p.exit, m0);
    ContainedRun(t, meta, p.core.code, ma);
    ExitRun(t, meta, body, p, mc);
  }

  lemma ExitRun(t: Target, meta: Metadata, body: seq<Op>, p: Parts, m: State)
    requires t.WellFormed() && Compilable(meta, body) && PartsOf(t, meta, body, p)
    ensures var m1 := Run(p.exit, m);
      && m1.sp == m.sp + FrameBytes(meta)
      && m1.mem == m.mem
      && (forall r: Reg :: r !in t.callerSaved ==> m1.regs[r] == m.regs[r])
      && (meta.signature.results != [] ==> SameWord(m1.regs[t.ret], Held(m, p.end.es[|p.end.es| - 1])))
  {
    hide CompileOps, Inv, Epilogue, Run, Held, SameWord, FrameBytes, Core;
    CoreReady(meta, body, seq(|meta.LocalTypes()|, _ => 0));
    CompilableImplemented(meta, body);
    StartInv(t);
    CompilesExactly(t, meta, [], {}, 0, body);
    EpilogueRun(t, meta, p.end.es, p.end.used, SpilledAfterAll(t, body, 0, 0), m);
  }

  lemma CompilableImplemented(meta: Metadata, body: seq<Op>)
    requires Compilable(meta, body)
    ensures AllImplemented(meta, body)
  {
    AcceptedImplemented(ContextOf(meta.signature, meta.locals), START, meta, body);
  }

  /** Calling convention: every run of a compiled function, whatever it computes, restores the stack
      pointer, keeps every register that is not caller-saved, and writes only its own frame, which is below
      the caller's stack pointer. */
  lemma CallKeepsConvention(t: Target, meta: Metadata, body: seq<Op>, m0: State)
    requires t.WellFormed() && Compilable(meta, body)
    ensures |meta.signature.params| <= |t.args| && CompileFunction(t, meta, body).Some?
    ensures KeepsConvention(t, meta, CompileFunction(t, meta, body).value, m0)
  {
    hide CompileFunction, Compilable, Run, Match, InFrame, InLocals, FrameBytes, PartsOf, AllEnabled, Sized;
    var p, ma, mc := FunctionRun(t, meta, body, m0);
    var m1 := Run(CompileFunction(t, meta, body).value, m0);
    forall a | a >= m0.sp
      ensures Peek(m1.mem, a) == Peek(m0.mem, a)
    {
      if CallWrites(t, meta, m0.sp, a) {
        FrameBelow(t, meta, m0.sp, a);
      }
    }
  }

  ghost predicate KeepsConvention(t: Target, meta: Metadata, code: seq<Instr>, m0: State) {
    var m1 := Run(code, m0);
    && m1.sp == m0.sp
    && (forall r: Reg :: r !in t.callerSaved ==> m1.regs[r] == m0.regs[r])
    && (forall r: Reg :: r in t.calleeSaved ==> m1.regs[r] == m0.regs[r])
    && (forall a :: !CallWrites(t, meta, m0.sp, a) ==> Peek(m1.mem, a) == Peek(m0.mem, a))
    && (forall a :: a >= m0.sp ==> Peek(m1.mem, a) == Peek(m0.mem, a))
  }

  /** The frame of a call is below the stack pointer of its caller. */
  lemma FrameBelow(t: Target, meta: Metadata, sp: int, a: int)
    requires Sized(t, meta) && CallWrites(t, meta, sp, a)
    ensures a < sp
  {
    var d := a - (sp - FrameBytes(meta));
    StackSizeMeans(meta);
    if InFrame(t, meta, d) && !SpillOffset(meta, d) {
      var e := if LocalWord(meta, d) then d else d - 4;
      var i :| 0 <= i < |meta.LocalTypes()| && e == SlotOffset(meta, i);
      LocalLayout(meta, i);
      hide FrameBytes, SlotOffset;
    }
  }

  /** Meaning preservation, exactly: after the prologue the machine follows the interpreter up to the return
      at every instruction boundary if and only if the departures of the target do no harm to the run; a
      corrected target is never harmed. The call then returns the body's meaning if and only if the place
      the exit reads holds it at the return, and so it does when the code behind the return has left that
      place as it was. */
  lemma CallReturnsMeaning(t: Target, meta: Metadata, body: seq<Op>, m0: State) returns (p: Parts, ma: State)
    requires t.WellFormed() && Compilable(meta, body)
    ensures |meta.signature.params| <= |t.args| && CompileFunction(t, meta, body).Some?
    ensures AllEnabled(meta, Core(body), 0) && ma == Run(Prologue(t, meta), m0) && PartsOf(t, meta, body, p)
    ensures var s0 := Interpreter.Initial(InitialLocals(t, meta, m0));
      var harmless := HarmlessRun(t, meta, Core(body), s0, 0, EntryCarry(meta, m0));
      && (t.Corrected() ==> harmless)
      && (Follows(t, meta, [], {}, Core(body), s0, ma) <==> harmless)
    ensures meta.signature.results != [] ==>
      var meaning := Meaning(body, InitialLocals(t, meta, m0));
      var result := Run(CompileFunction(t, meta, body).value, m0).regs[t.ret];
      var held := Held(Run(p.core.code, ma), p.end.es[|p.end.es| - 1]);
      && meaning.Some?
      && (Low(result) == meaning.value <==> Low(held) == meaning.value)
      && (Unharmed(t, meta, body, m0) && ExitKept(t, meta, body) ==> result == meaning.value)
  {
    hide CompileFunction, Prologue, CompileOps, Compilable, Inv, AllEnabled, Contained, Epilogue;
    hide Run, Match, FrameBytes;
    hide Follows, HarmlessRun, Interpreter.Exec, Core, Held, FrameBytes;
    var mc;
    p, ma, mc := FunctionRun(t, meta, body, m0);
    var s0 := Interpreter.Initial(InitialLocals(t, meta, m0));
    StartInv(t);
    RunExact(t, meta, [], {}, 0, Core(body), s0, ma);
    CoreReady(meta, body, s0.locals);
    if Follows(t, meta, [], {}, Core(body), s0, ma) && meta.signature.results != [] {
      FollowsEnds(t, meta, [], {}, 0, Core(body), s0, ma);
      var s1 := Interpreter.Exec(Core(body), s0);
      MatchMeans(mc, meta, p.core.es, s1);
      TopHeld(mc, p.core.es, s1.stack);
      if ExitKept(t, meta, body) {
        PlaceHolds(mc, p.core.es[|p.core.es| - 1], p.end.es[|p.end.es| - 1]);
      }
    }
  }

  lemma TopHeld(m: State, es: seq<Entry>, stack: seq<Word>)
    requires StackMatch(m, es, stack) && stack != []
    ensures es != [] && Held(m, es[|es| - 1]) == stack[|stack| - 1]
  {
    SplitTop(m, es, stack);
  }

  lemma PlaceHolds(m: State, a: Entry, b: Entry)
    requires SamePlace(a, b)
    ensures Held(m, a) == Held(m, b)
  {
  }

  ghost predicate Unharmed(t: Target, meta: Metadata, body: seq<Op>, m0: State) {
    && |meta.signature.params| <= |t.args|
    && AllEnabled(meta, Core(body), 0)
    && HarmlessRun(t, meta, Core(body), Interpreter.Initial(InitialLocals(t, meta, m0)), 0, EntryCarry(meta, m0))
  }

  ghost predicate ReturnsMeaning(t: Target, meta: Metadata, body: seq<Op>, code: seq<Instr>, m0: State) {
    && |meta.signature.params| <= |t.args|
    && (meta.signature.results != [] ==>
          Meaning(body, InitialLocals(t, meta, m0)) == Some(Run(code, m0).regs[t.ret]))
  }

  /** One compiled call, in one statement. */
  lemma CallIsRight(t: Target, meta: Metadata, body: seq<Op>, m0: State)
    requires t.WellFormed() && Compilable(meta, body)
    ensures |meta.signature.params| <= |t.args| && CompileFunction(t, meta, body).Some?
    ensures KeepsConvention(t, meta, CompileFunction(t, meta, body).value, m0)
    ensures Unharmed(t, meta, body, m0) && ExitKept(t, meta, body) ==>
      ReturnsMeaning(t, meta, body, CompileFunction(t, meta, body).value, m0)
    ensures t.Corrected() ==> Unharmed(t, meta, body, m0)
  {
    CallKeepsConvention(t, meta, body, m0);
    var p, ma := CallReturnsMeaning(t, meta, body, m0);
    hide CompileFunction, Compilable, Run, HarmlessRun, AllEnabled, Follows, Prologue, EntryCarry, KeepsConvention;
    hide PartsOf, ExitKept;
  }

  // ---------- code behind a function ----------

  /** The exit code ends in the return instruction and jumps nowhere before it. */
  lemma ExitEnds(t: Target, meta: Metadata, es: seq<Entry>, used: set<Reg>, k: nat) returns (x: seq<Instr>)
    requires t.WellFormed() && Inv(t, es, used, k)
    requires meta.signature.results == [] || (meta.signature.results == [I32] && es != [])
    ensures Epilogue(t, meta, es, used).Some? && Epilogue(t, meta, es, used).value.code == [BindExit] + (x + [Ret])
    ensures Straight(x)
  {
    hide Inv, Ensure, FrameBytes;
    var leave := AddSp(FrameBytes(meta));
    if meta.signature.results == [] {
      x := [leave];
      assert [leave, Ret] == [leave] + [Ret];
    } else {
      var v := es[|es| - 1];
      var r := TopReload(t, es, used, k);
      TopIsWord(t, es, used, k);
      var move := MoveResult(t, I32, I32, r);
      x := Reload(v, r) + move + [leave];
      assert [BindExit] + Reload(v, r) + move + [leave, Ret] == [BindExit] + (x + [Ret]);
    }
  }

  lemma StopsAtRet(x: seq<Instr>, rest: seq<Instr>, m: State)
    requires Straight(x)
    ensures Run(x + [Ret] + rest, m) == Run(x, m)
  {
    assert x + [Ret] + rest == x + ([Ret] + rest);
    RunAppend(x, [Ret] + rest, m);
  }

  /** Whatever follows a compiled function in a buffer, its call does not run it. */
  lemma AppendedNeverRuns(t: Target, meta: Metadata, body: seq<Op>, rest: seq<Instr>, m0: State)
    requires t.WellFormed() && Compilable(meta, body)
    ensures |meta.signature.params| <= |t.args| && CompileFunction(t, meta, body).Some?
    ensures Run(CompileFunction(t, meta, body).value + rest, m0) == Run(CompileFunction(t, meta, body).value, m0)
  {
    hide CompileOps, Inv, AllEnabled, AllContained, Straight, Run, Epilogue, Check, Depths, DepthAfterAll, Core;
    var p := FunctionCode(t, meta, body);
    CoreReady(meta, body, seq(|meta.LocalTypes()|, _ => 0));
    CompilableImplemented(meta, body);
    StartInv(t);
    CompilesExactly(t, meta, [], {}, 0, body);
    var ma := PrologueRun(t, meta, m0);
    var x := ExitEnds(t, meta, p.end.es, p.end.used, SpilledAfterAll(t, body, 0, 0));
    assert p.exit == x + [Ret] && x + [Ret] + [] == x + [Ret];
    var pro, middle := Prologue(t, meta), p.core.code + p.tail;
    hide Compilable, Prologue, CompileFunction, PartsOf;
    assert pro + middle + ([BindExit] + p.exit) + rest == pro + middle + ([BindExit] + (p.exit + rest));
    VisitedStraight(t, meta, p.core, SpilledAfterAll(t, Core(body), 0, 0), |meta.signature.results|);
    RunToExit(pro, p.core.code, p.tail, p.exit, m0);
    RunToExit(pro, p.core.code, p.tail, p.exit + rest, m0);
    StopsAtRet(x, rest, Run(p.core.code, Run(pro, m0)));
    StopsAtRet(x, [], Run(p.core.code, Run(pro, m0)));
  }

  lemma VisitedStraight(t: Target, meta: Metadata, o: Out, k: nat, n: int)
    requires Visited(t, meta, Some(o), k, n)
    ensures Straight(o.code)
  {
  }
}
