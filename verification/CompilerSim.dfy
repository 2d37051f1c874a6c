/** The machine follows the interpreter: each entry of the compile-time stack finds its operand in its
    register or spill slot, and each i32 local its value in its slot. */
module CompilerSim {
  import opened Wrappers
  import opened WasmCore
  import Interpreter
  import opened Machine
  import opened Registers
  import opened RuntimeStack
  import opened FunctionFrame
  import opened CompilerSpec
  import opened CompilerShape

  ghost predicate Located(m: State, e: Entry, v: Word) {
    if e.reg.Some? then m.regs[e.reg.value] == v else Peek(m.mem, m.sp + e.slot) == v
  }

  ghost predicate StackMatch(m: State, es: seq<Entry>, stack: seq<Word>) {
    |es| == |stack| && forall i :: 0 <= i < |es| ==> Located(m, es[i], stack[i])
  }

  ghost predicate LocalsMatch(m: State, meta: Metadata, locals: seq<Word>) {
    && |locals| == |meta.LocalTypes()|
    && forall i :: 0 <= i < |locals| && meta.LocalTypes()[i] == I32 ==>
         Peek(m.mem, m.sp + SlotOffset(meta, i)) == locals[i]
  }

  ghost predicate Match(m: State, meta: Metadata, es: seq<Entry>, s: Interpreter.State) {
    StackMatch(m, es, s.stack) && LocalsMatch(m, meta, s.locals)
  }

  /** Running on after the first spilled entry hands each later operand its lower neighbour's register:
      no harm exactly when those operands are equal. */
  predicate HarmlessPush(t: Target, stack: seq<Word>, k: nat) {
    t.spillsOn && |stack| - k == |t.callerSaved| ==>
      forall i :: k < i < |stack| ==> stack[i] == stack[i - 1]
  }

  /** When the departures of the target do no harm to a visit: no carry is pending at an add-with-carry;
      a 64-bit store leaves the next local as it is; a load in place of a store finds the value there. */
  predicate HarmlessStep(t: Target, meta: Metadata, op: Op, s: Interpreter.State, k: nat, carry: bool)
    requires |s.locals| == |meta.LocalTypes()| && Enabled(meta, op, |s.stack|)
  {
    match op
    case ConstI32(_) => HarmlessPush(t, s.stack, k)
    case GetLocalI32(_) => HarmlessPush(t, s.stack, k)
    case AddI32 => t.addsCarry ==> !carry
    case SetLocalI32(i) =>
      (match t.setLocal
       case StoreWord => true
       case StorePair => i + 1 < |s.locals| && meta.LocalTypes()[i + 1] == I32 ==> s.locals[i + 1] == 0
       case LoadPair => s.locals[i] == s.stack[|s.stack| - 1])
    case _ => true
  }

  function CarryAfter(t: Target, op: Op, s: Interpreter.State, carry: bool): bool {
    var n := |s.stack|;
    if op == AddI32 && n >= 2 then
      s.stack[n - 2] + s.stack[n - 1] + (if t.addsCarry && carry then 1 else 0) >= TWO_32
    else carry
  }

  lemma {:induction false} RunStores(es: seq<Entry>, base: int, m: State)
    requires forall i :: 0 <= i < |es| ==> es[i].reg.Some? && es[i].vt == I32 && es[i].slot == base + 4 * i
    ensures var m1 := Run(Stores(es), m);
      && m1 == m.(mem := m1.mem)
      && (forall i :: 0 <= i < |es| ==> Peek(m1.mem, m.sp + es[i].slot) == Low(m.regs[es[i].reg.value]))
      && (forall a :: a < m.sp + base ==> Peek(m1.mem, a) == Peek(m.mem, a))
  {
    if es != [] {
      var code := Stores(es);
      assert code[1..] == Stores(es[1..]);
      var m' := Exec1(code[0], m);
      RunStores(es[1..], base + 4, m');
      var m1 := Run(code[1..], m');
      assert Peek(m1.mem, m.sp + es[0].slot) == Low(m.regs[es[0].reg.value]);
      forall i | 1 <= i < |es|
        ensures Peek(m1.mem, m.sp + es[i].slot) == Low(m.regs[es[i].reg.value])
      {
        assert es[i] == es[1..][i - 1];
      }
    }
  }

  /** The entries the spill loop stores. */
  function Stored(t: Target, es: seq<Entry>, k: nat): seq<Entry>
    requires k < |es|
  {
    if t.spillsOn then es[k..] else [es[k]]
  }

  lemma UnderPushShape(t: Target, es: seq<Entry>, k: nat)
    requires SpilledPrefix(es, k) && |es| - k == |t.callerSaved| && k < |es|
    ensures var under := UnderPush(t, es, k);
      && |under| == |es|
      && (forall i :: 0 <= i < k ==> under[i] == es[i])
      && (forall i :: k <= i < |es| ==> under[i] == Shifted(es, None, t.spillsOn, k, i))
    ensures PushCode(t, es, k) == Stores(Stored(t, es, k))
  {
    SpillShape(es, None, t.spillsOn, k);
    if !t.spillsOn {
      assert Stores([es[k]]) == [StoreOf(es[k])];
    }
  }

  lemma LocalsBelowSlots(meta: Metadata, locals: seq<Word>, m: State, m1: State)
    requires Fits(meta) && LocalsMatch(m, meta, locals) && m1.sp == m.sp
    requires forall a :: a < m.sp + 4 ==> Peek(m1.mem, a) == Peek(m.mem, a)
    ensures LocalsMatch(m1, meta, locals)
  {
    forall i | 0 <= i < |locals|
      ensures SlotOffset(meta, i) < 4
    {
      LocalLayout(meta, i);
    }
  }

  /** The operands as they are found after the spill: the loop that runs on shows each one above the first
      spilled its lower neighbour's value. */
  function Seen(t: Target, stack: seq<Word>, k: nat): (seen: seq<Word>)
    ensures |seen| == |stack|
  {
    if t.spillsOn && |stack| - k == |t.callerSaved| then
      seq(|stack|, i requires 0 <= i < |stack| => if i <= k then stack[i] else stack[i - 1])
    else stack
  }

  lemma SeenHarmless(t: Target, stack: seq<Word>, k: nat)
    ensures Seen(t, stack, k) == stack <==> HarmlessPush(t, stack, k)
  {
    var seen := Seen(t, stack, k);
    if seen == stack && t.spillsOn && |stack| - k == |t.callerSaved| {
      forall i | k < i < |stack|
        ensures stack[i] == stack[i - 1]
      {
        assert seen[i] == stack[i - 1];
      }
    }
  }

  /** Where operands are found, they are found with one value. */
  lemma MatchUnique(m: State, es: seq<Entry>, a: seq<Word>, b: seq<Word>)
    requires StackMatch(m, es, a)
    ensures StackMatch(m, es, b) <==> a == b
  {
    if StackMatch(m, es, b) {
      forall i | 0 <= i < |es|
        ensures a[i] == b[i]
      {
        assert Located(m, es[i], a[i]) && Located(m, es[i], b[i]);
      }
    }
  }

  lemma SpilledMatch(t: Target, es: seq<Entry>, k: nat, stack: seq<Word>, m: State, m1: State)
    requires SpilledPrefix(es, k) && WordEntries(es) && k < |es| && StackMatch(m, es, stack)
    requires |es| - k == |t.callerSaved|
    requires m1 == m.(mem := m1.mem)
    requires Peek(m1.mem, m.sp + es[k].slot) == Low(m.regs[es[k].reg.value])
    requires forall a :: a < m.sp + 4 * (k + 1) ==> Peek(m1.mem, a) == Peek(m.mem, a)
    ensures StackMatch(m1, UnderPush(t, es, k), Seen(t, stack, k))
  {
    UnderPushShape(t, es, k);
    hide UnderPush, PushCode, Peek;
    var under, seen := UnderPush(t, es, k), Seen(t, stack, k);
    forall i | 0 <= i <= k
      ensures Located(m1, under[i], seen[i])
    {
      assert Located(m, es[i], stack[i]);
    }
    forall i | k < i < |es|
      ensures Located(m1, under[i], seen[i])
    {
      hide StackMatch, WordEntries;
      assert under[i] == Shifted(es, None, t.spillsOn, k, i);
      assert Located(m, es[i], stack[i]) && Located(m, es[i - 1], stack[i - 1]) by {
        MatchedAt(m, es, stack, i);
        MatchedAt(m, es, stack, i - 1);
      }
    }
  }

  lemma MatchedAt(m: State, es: seq<Entry>, stack: seq<Word>, i: nat)
    requires StackMatch(m, es, stack) && i < |es|
    ensures Located(m, es[i], stack[i])
  {
  }

  /** Spilling moves operands to their slots; it keeps the match exactly when running on is harmless. */
  lemma PushCodeKeepsMatch(t: Target, meta: Metadata, es: seq<Entry>, used: set<Reg>, k: nat,
                           s: Interpreter.State, m: State)
    requires Sized(t, meta) && Inv(t, es, used, k) && Match(m, meta, es, s)
    ensures var m1 := Run(PushCode(t, es, k), m);
      && m1 == m.(mem := m1.mem)
      && LocalsMatch(m1, meta, s.locals)
      && StackMatch(m1, UnderPush(t, es, k), Seen(t, s.stack, k))
      && (StackMatch(m1, UnderPush(t, es, k), s.stack) <==> HarmlessPush(t, s.stack, k))
  {
    var m1 := Run(PushCode(t, es, k), m);
    if |es| - k == |t.callerSaved| {
      hide *;
      ExhaustedFacts(t, meta, es, used, k, s, m);
      m1 := SpillRun(t, es, k, m);
      LocalsBelowSlots(meta, s.locals, m, m1);
      SpilledMatch(t, es, k, s.stack, m, m1);
    } else {
      assert Run([], m) == m;
    }
    MatchUnique(m1, UnderPush(t, es, k), Seen(t, s.stack, k), s.stack);
    SeenHarmless(t, s.stack, k);
  }

  lemma ExhaustedFacts(t: Target, meta: Metadata, es: seq<Entry>, used: set<Reg>, k: nat,
                       s: Interpreter.State, m: State)
    requires Sized(t, meta) && Inv(t, es, used, k) && Match(m, meta, es, s) && |es| - k == |t.callerSaved|
    ensures Fits(meta) && SpilledPrefix(es, k) && WordEntries(es) && k < |es|
    ensures StackMatch(m, es, s.stack) && LocalsMatch(m, meta, s.locals)
  {
  }

  lemma SpillRun(t: Target, es: seq<Entry>, k: nat, m: State) returns (m1: State)
    requires SpilledPrefix(es, k) && WordEntries(es) && |es| - k == |t.callerSaved| && k < |es|
    ensures m1 == Run(PushCode(t, es, k), m)
    ensures m1 == m.(mem := m1.mem) && m1.sp == m.sp
    ensures es[k].reg.Some? && Peek(m1.mem, m.sp + es[k].slot) == Low(m.regs[es[k].reg.value])
    ensures forall a :: a < m.sp + 4 * (k + 1) ==> Peek(m1.mem, a) == Peek(m.mem, a)
    ensures forall a :: a < m.sp + 4 ==> Peek(m1.mem, a) == Peek(m.mem, a)
  {
    hide *;
    UnderPushShape(t, es, k);
    StoredWords(t, es, k);
    RunStores(Stored(t, es, k), 4 * (k + 1), m);
    m1 := Run(PushCode(t, es, k), m);
    assert Stored(t, es, k)[0] == es[k];
  }

  lemma StoredWords(t: Target, es: seq<Entry>, k: nat)
    requires SpilledPrefix(es, k) && WordEntries(es) && k < |es|
    ensures es[k].reg.Some?
    ensures var from := Stored(t, es, k);
      && from != [] && from[0] == es[k]
      && forall i :: 0 <= i < |from| ==>
           from[i].reg.Some? && from[i].vt == I32 && from[i].slot == 4 * (k + 1) + 4 * i
  {
  }

  /** `m1` differs from `m` in the registers of `rs` only. */
  ghost predicate OnlyRegs(m: State, m1: State, rs: set<Reg>) {
    m1 == m.(regs := m1.regs, carry := m1.carry) && forall q: Reg :: q !in rs ==> m1.regs[q] == m.regs[q]
  }

  lemma UntouchedStack(m: State, m1: State, rs: set<Reg>, es: seq<Entry>, stack: seq<Word>)
    requires OnlyRegs(m, m1, rs) && rs !! HeldRegs(es)
    ensures StackMatch(m1, es, stack) <==> StackMatch(m, es, stack)
  {
    forall i | 0 <= i < |es| && |es| == |stack|
      ensures Located(m1, es[i], stack[i]) <==> Located(m, es[i], stack[i])
    {
      if es[i].reg.Some? {
        assert es[i].reg.value in HeldRegs(es);
      }
    }
  }

  lemma UntouchedLocals(m: State, m1: State, rs: set<Reg>, meta: Metadata, locals: seq<Word>)
    requires OnlyRegs(m, m1, rs)
    ensures LocalsMatch(m1, meta, locals) <==> LocalsMatch(m, meta, locals)
  {
  }

  lemma MatchSnoc(m: State, es: seq<Entry>, stack: seq<Word>, e: Entry, v: Word)
    ensures StackMatch(m, es + [e], stack + [v]) <==> StackMatch(m, es, stack) && Located(m, e, v)
  {
    var es1, stack1 := es + [e], stack + [v];
    if |es| == |stack| {
      assert forall i :: 0 <= i < |es| ==> es1[i] == es[i] && stack1[i] == stack[i];
      assert es1[|es|] == e && stack1[|es|] == v;
    }
  }

  lemma SplitTop(m: State, es: seq<Entry>, stack: seq<Word>)
    requires StackMatch(m, es, stack) && es != []
    ensures StackMatch(m, es[..|es| - 1], stack[..|es| - 1])
    ensures Located(m, es[|es| - 1], stack[|es| - 1])
  {
  }

  lemma ReloadRun(m: State, e: Entry, r: Reg, v: Word) returns (m1: State)
    requires Located(m, e, v) && (e.reg.Some? ==> r == e.reg.value)
    ensures m1 == Run(Reload(e, r), m)
    ensures OnlyRegs(m, m1, {r}) && m1.regs[r] == v && m1.carry == m.carry
  {
    m1 := Run(Reload(e, r), m);
    if e.reg.None? {
      RunOne(Load32(r, e.slot), m);
    } else {
      assert Run([], m) == m;
    }
  }

  lemma RunOne(i: Instr, m: State)
    requires i != JmpExit && i != Ret
    ensures Run([i], m) == Exec1(i, m)
  {
    assert [i][1..] == [];
  }

  lemma PushFinal(m: State, meta: Metadata, r: Reg, slot: int, op: Op, locals: seq<Word>) returns (m1: State)
    requires op.ConstI32? || op.GetLocalI32?
    requires LocalsMatch(m, meta, locals)
    requires op.GetLocalI32? ==> op.idx < |meta.LocalTypes()| && meta.LocalTypes()[op.idx] == I32
    ensures m1 == Run(if op.ConstI32? then [Load32(r, slot), MovImm(r, op.value)]
                      else [Load32(r, SlotOffset(meta, op.idx))], m)
    ensures OnlyRegs(m, m1, {r}) && m1.carry == m.carry
    ensures m1.regs[r] == if op.ConstI32? then op.value else locals[op.idx]
  {
    if op.ConstI32? {
      assert [Load32(r, slot), MovImm(r, op.value)] == [Load32(r, slot)] + [MovImm(r, op.value)];
      RunAppend([Load32(r, slot)], [MovImm(r, op.value)], m);
      RunOne(Load32(r, slot), m);
      m1 := Exec1(Load32(r, slot), m);
      RunOne(MovImm(r, op.value), m1);
      m1 := Exec1(MovImm(r, op.value), m1);
    } else {
      RunOne(Load32(r, SlotOffset(meta, op.idx)), m);
      m1 := Exec1(Load32(r, SlotOffset(meta, op.idx)), m);
    }
  }

  lemma PushSim(t: Target, meta: Metadata, es: seq<Entry>, used: set<Reg>, k: nat, op: Op,
                s: Interpreter.State, m: State)
    requires Sized(t, meta) && Inv(t, es, used, k) && Enabled(meta, op, |es|)
    requires Match(m, meta, es, s) && s.mode.Running?
    requires op.ConstI32? || op.GetLocalI32?
    ensures var o := CompileOp(t, meta, es, used, op);
      o.Some? && var m1 := Run(o.value.code, m);
      && m1.carry == m.carry
      && (Match(m1, meta, o.value.es, Interpreter.Step(op, s)) <==> HarmlessPush(t, s.stack, k))
      && LocalsMatch(m1, meta, s.locals)
      && (op.ConstI32? ==> StackMatch(m1, o.value.es, Seen(t, s.stack, k) + [op.value]))
  {
    hide *;
    SizedParts(t, meta);
    PushStep(meta, op, s, |es|, m, es);
    var r := PushShape(t, meta, es, used, k, op);
    var n, under, code := |es|, UnderPush(t, es, k), PushCode(t, es, k);
    PushCodeContained(t, meta, es, used, k);
    PushCodeKeepsMatch(t, meta, es, used, k, s, m);
    var top := Entry(4 * (n + 1), Some(r), I32);
    var v := if op.ConstI32? then op.value else s.locals[op.idx];
    var ma := Run(code, m);
    var m1 := PushFinal(ma, meta, r, 4 * (n + 1), op, s.locals);
    RunAppend(code, if op.ConstI32? then [Load32(r, 4 * (n + 1)), MovImm(r, op.value)]
                    else [Load32(r, SlotOffset(meta, op.idx))], m);
    UntouchedStack(ma, m1, {r}, under, s.stack);
    UntouchedLocals(ma, m1, {r}, meta, s.locals);
    UntouchedStack(ma, m1, {r}, under, Seen(t, s.stack, k));
    MatchSnoc(m1, under, s.stack, top, v);
    MatchSnoc(m1, under, Seen(t, s.stack, k), top, v);
    LocatedInReg(m1, top, v);
    MatchMeans(m1, meta, under + [top], s.(stack := s.stack + [v]));
  }

  lemma PushStep(meta: Metadata, op: Op, s: Interpreter.State, n: nat, m: State, es: seq<Entry>)
    requires op.ConstI32? || op.GetLocalI32?
    requires Enabled(meta, op, n) && s.mode.Running? && Match(m, meta, es, s)
    ensures n < meta.maxStackElements && LocalsMatch(m, meta, s.locals) && |s.locals| == |meta.LocalTypes()|
    ensures op.GetLocalI32? ==> op.idx < |meta.LocalTypes()| && meta.LocalTypes()[op.idx] == I32
    ensures Interpreter.Step(op, s)
         == s.(stack := s.stack + [if op.ConstI32? then op.value else s.locals[op.idx]])
  {
  }

  lemma LocatedInReg(m: State, e: Entry, v: Word)
    ensures e.reg.Some? ==> (Located(m, e, v) <==> m.regs[e.reg.value] == v)
  {
  }

  lemma MatchMeans(m: State, meta: Metadata, es: seq<Entry>, s: Interpreter.State)
    ensures Match(m, meta, es, s) <==> StackMatch(m, es, s.stack) && LocalsMatch(m, meta, s.locals)
  {
  }

  lemma UntouchedEntry(m: State, m1: State, rs: set<Reg>, e: Entry, v: Word)
    requires OnlyRegs(m, m1, rs) && Located(m, e, v) && (e.reg.Some? ==> e.reg.value !in rs)
    ensures Located(m1, e, v)
  {
  }

  lemma AddFinal(t: Target, m: State, r1: Reg, r2: Reg, a: Word, b: Word) returns (m1: State)
    requires r1 != r2 && m.regs[r1] == a && m.regs[r2] == b
    ensures m1 == Run([if t.addsCarry then Adc32(r1, r2) else Add32(r1, r2)], m)
    ensures OnlyRegs(m, m1, {r1, r2})
    ensures m1.regs[r1] == Summed(t, a, b, m.carry)
    ensures m1.carry <==> a + b + (if t.addsCarry && m.carry then 1 else 0) >= TWO_32
  {
    var add := if t.addsCarry then Adc32(r1, r2) else Add32(r1, r2);
    RunOne(add, m);
    m1 := Exec1(add, m);
  }

  /** What the target's addition leaves in the register. */
  function Summed(t: Target, a: Word, b: Word, carry: bool): Word {
    (a + b + if t.addsCarry && carry then 1 else 0) % TWO_32
  }

  lemma CarryMatters(t: Target, a: Word, b: Word, carry: bool)
    ensures Summed(t, a, b, carry) == Interpreter.Plus(a, b) <==> (t.addsCarry ==> !carry)
  {
  }

  lemma OnlyRegsTrans(m0: State, m1: State, m2: State, rs: set<Reg>, rs1: set<Reg>, rs2: set<Reg>)
    requires OnlyRegs(m0, m1, rs1) && OnlyRegs(m1, m2, rs2) && rs1 <= rs && rs2 <= rs
    ensures OnlyRegs(m0, m2, rs)
  {
  }

  lemma RunThree(a: seq<Instr>, b: seq<Instr>, c: seq<Instr>, m: State)
    requires Straight(a) && Straight(b)
    ensures Run(a + b + c, m) == Run(c, Run(b, Run(a, m)))
  {
    assert a + b + c == a + (b + c);
    RunAppend(a, b + c, m);
    RunAppend(b, c, Run(a, m));
  }

  lemma TopTwo(m: State, es: seq<Entry>, stack: seq<Word>)
    requires StackMatch(m, es, stack) && |es| >= 2
    ensures var n := |es|;
      && StackMatch(m, es[..n - 2], stack[..n - 2])
      && Located(m, es[n - 2], stack[n - 2]) && Located(m, es[n - 1], stack[n - 1])
  {
  }

  lemma AddSim(t: Target, meta: Metadata, es: seq<Entry>, used: set<Reg>, k: nat,
               s: Interpreter.State, m: State)
    requires Sized(t, meta) && Inv(t, es, used, k) && |es| >= 2
    requires Match(m, meta, es, s) && s.mode.Running?
    ensures var o := CompileOp(t, meta, es, used, AddI32);
      o.Some? && var m1 := Run(o.value.code, m);
      && m1.carry == CarryAfter(t, AddI32, s, m.carry)
      && (Match(m1, meta, o.value.es, Interpreter.Step(AddI32, s)) <==> (t.addsCarry ==> !m.carry))
    ensures |s.stack| == |es|
    ensures var n := |es|;
      StackMatch(Run(CompileOp(t, meta, es, used, AddI32).value.code, m),
                 CompileOp(t, meta, es, used, AddI32).value.es,
                 s.stack[..n - 2] + [Summed(t, s.stack[n - 2], s.stack[n - 1], m.carry)])
  {
    hide *;
    SizedParts(t, meta);
    AddStep(t, s, m, meta, es);
    var r1, r2 := AddShape(t, meta, es, used, k);
    var n, init, rest := |es|, es[..|es| - 1], es[..|es| - 2];
    var a, b := s.stack[n - 2], s.stack[n - 1];
    var add := [if t.addsCarry then Adc32(r1, r2) else Add32(r1, r2)];
    TopTwo(m, es, s.stack);
    ReloadStraight(es[n - 1], r2);
    ReloadStraight(es[n - 2], r1);
    assert init[..n - 2] == rest;
    HeldBelow(init);
    var m2 := ReloadRun(m, es[n - 1], r2, b);
    UntouchedEntry(m, m2, {r2}, es[n - 2], a);
    var m3 := ReloadRun(m2, es[n - 2], r1, a);
    KeptRegister(m2, m3, {r1}, r2);
    var m4 := AddFinal(t, m3, r1, r2, a, b);
    RunThree(Reload(es[n - 1], r2), Reload(es[n - 2], r1), add, m);
    OnlyRegsTrans(m, m2, m3, {r1, r2}, {r2}, {r1});
    OnlyRegsTrans(m, m3, m4, {r1, r2}, {r1, r2}, {r1, r2});
    UntouchedStack(m, m4, {r1, r2}, rest, s.stack[..n - 2]);
    UntouchedLocals(m, m4, {r1, r2}, meta, s.locals);
    var top := Entry(4 * (n - 1), Some(r1), I32);
    var sum := Summed(t, a, b, m3.carry);
    MatchSnoc(m4, rest, s.stack[..n - 2], top, Interpreter.Plus(a, b));
    LocatedInReg(m4, top, Interpreter.Plus(a, b));
    MatchSnoc(m4, rest, s.stack[..n - 2], top, sum);
    LocatedInReg(m4, top, sum);
    CarryMatters(t, a, b, m3.carry);
    MatchMeans(m4, meta, rest + [top], s.(stack := s.stack[..n - 2] + [Interpreter.Plus(a, b)]));
  }

  lemma AddStep(t: Target, s: Interpreter.State, m: State, meta: Metadata, es: seq<Entry>)
    requires s.mode.Running? && |es| >= 2 && Match(m, meta, es, s)
    ensures var n := |es|;
      && |s.stack| == n && StackMatch(m, es, s.stack) && LocalsMatch(m, meta, s.locals)
      && Interpreter.Step(AddI32, s)
         == s.(stack := s.stack[..n - 2] + [Interpreter.Plus(s.stack[n - 2], s.stack[n - 1])])
      && CarryAfter(t, AddI32, s, m.carry)
         == (s.stack[n - 2] + s.stack[n - 1] + (if t.addsCarry && m.carry then 1 else 0) >= TWO_32)
  {
  }

  lemma ReloadStraight(e: Entry, r: Reg)
    ensures Straight(Reload(e, r))
  {
  }

  lemma KeptRegister(m: State, m1: State, rs: set<Reg>, q: Reg)
    requires OnlyRegs(m, m1, rs) && q !in rs
    ensures m1.regs[q] == m.regs[q]
  {
  }

  ghost predicate WordStored(t: Target, meta: Metadata, m: State, m1: State, idx: nat, v: Word)
    requires idx < |meta.LocalTypes()|
  {
    var at := m.sp + SlotOffset(meta, idx);
    var pair := t.setLocal == StorePair;
    forall a :: Peek(m1.mem, a) == if a == at then v else if pair && a == at + 4 then 0 else Peek(m.mem, a)
  }

  lemma StoreFinal(t: Target, meta: Metadata, m: State, idx: nat, r: Reg, v: Word) returns (m1: State)
    requires Fits(meta) && idx < |meta.LocalTypes()| && meta.LocalTypes()[idx] == I32 && m.regs[r] == v
    ensures m1 == Run([SetLocalInstr(t, SlotOffset(meta, idx), r)], m)
    ensures m1.carry == m.carry && m1.sp == m.sp
    ensures t.setLocal == LoadPair ==> OnlyRegs(m, m1, {r})
    ensures t.setLocal != LoadPair ==> m1.regs == m.regs && WordStored(t, meta, m, m1, idx, v)
  {
    var i := SetLocalInstr(t, SlotOffset(meta, idx), r);
    RunOne(i, m);
    m1 := Exec1(i, m);
  }

  /** A store below the spill slots leaves the stack alone. */
  lemma StackAboveLocals(m: State, m1: State, es: seq<Entry>, stack: seq<Word>)
    requires WordEntries(es) && m1.sp == m.sp && m1.regs == m.regs && StackMatch(m, es, stack)
    requires forall a :: a >= m.sp + 4 ==> Peek(m1.mem, a) == Peek(m.mem, a)
    ensures StackMatch(m1, es, stack)
  {
    forall i | 0 <= i < |es|
      ensures Located(m1, es[i], stack[i])
    {
      assert Located(m, es[i], stack[i]);
    }
  }

  /** The slot after a local's word is the next local's, if there is one. */
  lemma NextSlot(meta: Metadata, i: nat, j: nat)
    requires Fits(meta) && i < |meta.LocalTypes()| && j < |meta.LocalTypes()|
    requires meta.LocalTypes()[i] == I32
    ensures SlotOffset(meta, j) == SlotOffset(meta, i) <==> j == i
    ensures SlotOffset(meta, j) == SlotOffset(meta, i) + 4 <==> j == i + 1
    ensures SlotOffset(meta, i) + 4 <= 0
  {
    LocalLayout(meta, i);
    LocalLayout(meta, j);
    SnocBytes(meta.LocalTypes(), i);
    if i + 1 < j {
      LocalLayout(meta, i + 1);
    }
  }

  lemma StoredLocals(t: Target, meta: Metadata, m: State, m1: State, idx: nat, v: Word, locals: seq<Word>)
    requires Fits(meta) && idx < |meta.LocalTypes()| && meta.LocalTypes()[idx] == I32
    requires LocalsMatch(m, meta, locals) && m1.sp == m.sp && t.setLocal != LoadPair
    requires WordStored(t, meta, m, m1, idx, v)
    ensures LocalsMatch(m1, meta, locals[idx := v]) <==>
      (t.setLocal == StorePair && idx + 1 < |locals| && meta.LocalTypes()[idx + 1] == I32 ==> locals[idx + 1] == 0)
  {
    forall j | 0 <= j < |locals|
      ensures Peek(m1.mem, m.sp + SlotOffset(meta, j)) ==
        if j == idx then v
        else if t.setLocal == StorePair && j == idx + 1 then 0
        else Peek(m.mem, m.sp + SlotOffset(meta, j))
    {
      NextSlot(meta, idx, j);
    }
  }

  lemma SetLocalSim(t: Target, meta: Metadata, es: seq<Entry>, used: set<Reg>, k: nat, idx: nat,
                    s: Interpreter.State, m: State)
    requires Sized(t, meta) && Inv(t, es, used, k) && Enabled(meta, SetLocalI32(idx), |es|)
    requires Match(m, meta, es, s) && s.mode.Running?
    ensures |s.stack| == |es| && |s.locals| == |meta.LocalTypes()|
    ensures var o := CompileOp(t, meta, es, used, SetLocalI32(idx));
      o.Some? && var m1 := Run(o.value.code, m);
      && m1.carry == m.carry
      && (Match(m1, meta, o.value.es, Interpreter.Step(SetLocalI32(idx), s)) <==>
          HarmlessStep(t, meta, SetLocalI32(idx), s, k, m.carry))
  {
    hide *;
    SizedParts(t, meta);
    SetLocalStep(t, meta, es, used, k, idx, s, m);
    var r := SetLocalShape(t, meta, es, used, k, idx);
    var n, init := |es|, es[..|es| - 1];
    var v, below := s.stack[n - 1], s.stack[..n - 1];
    var store := [SetLocalInstr(t, SlotOffset(meta, idx), r)];
    SplitTop(m, es, s.stack);
    ReloadStraight(es[n - 1], r);
    var m2 := ReloadRun(m, es[n - 1], r, v);
    UntouchedStack(m, m2, {r}, init, below);
    UntouchedLocals(m, m2, {r}, meta, s.locals);
    var m3 := StoreFinal(t, meta, m2, idx, r, v);
    RunAppend(Reload(es[n - 1], r), store, m);
    MatchMeans(m3, meta, init, s.(stack := below, locals := s.locals[idx := v]));
    if t.setLocal == LoadPair {
      UntouchedStack(m2, m3, {r}, init, below);
      UntouchedLocals(m2, m3, {r}, meta, s.locals[idx := v]);
      LocalsDetermined(m2, meta, s.locals, idx, v);
    } else {
      StoredBelow(t, meta, m2, m3, idx, v);
      StackAboveLocals(m2, m3, init, below);
      StoredLocals(t, meta, m2, m3, idx, v, s.locals);
    }
  }

  lemma StoredBelow(t: Target, meta: Metadata, m: State, m1: State, idx: nat, v: Word)
    requires Fits(meta) && idx < |meta.LocalTypes()| && meta.LocalTypes()[idx] == I32
    requires WordStored(t, meta, m, m1, idx, v)
    ensures forall a :: a >= m.sp + 4 ==> Peek(m1.mem, a) == Peek(m.mem, a)
  {
    NextSlot(meta, idx, idx);
  }

  lemma LocalsDetermined(m: State, meta: Metadata, locals: seq<Word>, idx: nat, v: Word)
    requires LocalsMatch(m, meta, locals) && idx < |locals| && meta.LocalTypes()[idx] == I32
    ensures LocalsMatch(m, meta, locals[idx := v]) <==> locals[idx] == v
  {
    assert locals[idx := v][idx] == v;
    assert locals[idx] == v ==> locals[idx := v] == locals;
  }

  lemma SetLocalStep(t: Target, meta: Metadata, es: seq<Entry>, used: set<Reg>, k: nat, idx: nat,
                     s: Interpreter.State, m: State)
    requires Sized(t, meta) && Inv(t, es, used, k) && Enabled(meta, SetLocalI32(idx), |es|)
    requires Match(m, meta, es, s) && s.mode.Running?
    ensures Fits(meta) && idx < |meta.LocalTypes()| && meta.LocalTypes()[idx] == I32
    ensures es != [] && |s.stack| == |es| && |s.locals| == |meta.LocalTypes()| && WordEntries(es[..|es| - 1])
    ensures StackMatch(m, es, s.stack) && LocalsMatch(m, meta, s.locals)
    ensures Interpreter.Step(SetLocalI32(idx), s)
         == s.(stack := s.stack[..|es| - 1], locals := s.locals[idx := s.stack[|es| - 1]])
    ensures HarmlessStep(t, meta, SetLocalI32(idx), s, k, m.carry) <==>
      (match t.setLocal
       case StoreWord => true
       case StorePair => idx + 1 < |s.locals| && meta.LocalTypes()[idx + 1] == I32 ==> s.locals[idx + 1] == 0
       case LoadPair => s.locals[idx] == s.stack[|es| - 1])
  {
  }

  /** One visit, from a matching state: the match is kept if and only if the target's departures do no
      harm here. A corrected target keeps it always. */
  lemma StepExact(t: Target, meta: Metadata, es: seq<Entry>, used: set<Reg>, k: nat, op: Op,
                  s: Interpreter.State, m: State)
    requires Sized(t, meta) && Inv(t, es, used, k) && Enabled(meta, op, |es|) && op != Return
    requires Match(m, meta, es, s) && s.mode.Running?
    ensures |s.stack| == |es| && |s.locals| == |meta.LocalTypes()|
    ensures var o := CompileOp(t, meta, es, used, op);
      o.Some? && var m1 := Run(o.value.code, m);
      && m1.carry == CarryAfter(t, op, s, m.carry)
      && (Match(m1, meta, o.value.es, Interpreter.Step(op, s)) <==> HarmlessStep(t, meta, op, s, k, m.carry))
    ensures t.Corrected() ==> HarmlessStep(t, meta, op, s, k, m.carry)
  {
    hide CompileOp, Interpreter.Step, Inv, Run;
    match op
    case ConstI32(_) => PushSim(t, meta, es, used, k, op, s, m);
    case GetLocalI32(_) => PushSim(t, meta, es, used, k, op, s, m);
    case AddI32 => AddSim(t, meta, es, used, k, s, m);
    case SetLocalI32(i) => SetLocalSim(t, meta, es, used, k, i, s, m);
  }
}
