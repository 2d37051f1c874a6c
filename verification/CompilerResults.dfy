/** What the exact simulation means for callers: when corrected back ends return the WebAssembly meaning of a
    compiled body on its arguments, and on which bodies the back ends as written do. */
module CompilerResults {
  import opened Wrappers
  import opened WasmCore
  import Interpreter
  import opened Machine
  import opened Registers
  import opened RuntimeStack
  import opened FunctionFrame
  import opened CompilerSpec
  import opened CompilerShape
  import opened CompilerSim
  import opened ValidatorBounds
  import opened CompilerRun
  import opened Arguments
  import opened LinearMeaning

  // ---------- declared locals ----------

  /** WebAssembly's locals of a call: the arguments, then zeros. */
  function WasmLocals(meta: Metadata, args: seq<Word>): (locals: seq<Word>)
    requires |args| == |meta.signature.params|
    ensures |locals| == |meta.LocalTypes()|
  {
    args + seq(|meta.locals|, _ => 0)
  }

  /** What the call finds in the slots of the declared i32 locals. */
  ghost function SlotWords(meta: Metadata, m0: State): (d: seq<Word>)
    ensures |d| == |meta.locals|
  {
    var n := |meta.signature.params|;
    seq(|meta.locals|, j requires 0 <= j < |meta.locals| =>
      if meta.locals[j] == I32 then Peek(m0.mem, m0.sp - FrameBytes(meta) + SlotOffset(meta, n + j)) else 0)
  }

  /** No local is read before it is a parameter or has been set. */
  predicate ReadsAssigned(ops: seq<Op>, ready: set<nat>)
    decreases |ops|
  {
    ops == [] ||
    ((ops[0].GetLocalI32? ==> ops[0].idx in ready) &&
     ReadsAssigned(ops[1..], if ops[0].SetLocalI32? then ready + {ops[0].idx} else ready))
  }

  ghost predicate Agree(a: Interpreter.State, b: Interpreter.State, ready: set<nat>) {
    && a.mode == b.mode && a.stack == b.stack && |a.locals| == |b.locals|
    && (a.mode.Running? ==> forall i :: i in ready && i < |a.locals| ==> a.locals[i] == b.locals[i])
  }

  /** Runs that agree on the readable locals compute the same operands. */
  lemma {:induction false} AgreeingRuns(ops: seq<Op>, a: Interpreter.State, b: Interpreter.State, ready: set<nat>)
    requires ReadsAssigned(ops, ready) && Agree(a, b, ready)
    ensures var a', b' := Interpreter.Exec(ops, a), Interpreter.Exec(ops, b);
      a'.mode == b'.mode && a'.stack == b'.stack
    decreases |ops|
  {
    if ops != [] {
      var ready' := if ops[0].SetLocalI32? then ready + {ops[0].idx} else ready;
      AgreeingRuns(ops[1..], Interpreter.Step(ops[0], a), Interpreter.Step(ops[0], b), ready');
    }
  }

  function UpTo(n: nat): (s: set<nat>)
    ensures forall i: nat :: i in s <==> i < n
  {
    if n == 0 then {} else UpTo(n - 1) + {n - 1}
  }

  /** How often each declared local's old contents count in the result. */
  function SlotWeights(meta: Metadata, body: seq<Op>): (k: seq<int>)
    ensures |k| == |meta.locals|
  {
    Weights(meta, body)[|meta.signature.params|..]
  }

  /** The code returns WebAssembly's meaning of the body on these arguments. */
  ghost predicate Answers(t: Target, meta: Metadata, body: seq<Op>, code: seq<Instr>, args: seq<Word>, m0: State)
    requires |args| == |meta.signature.params|
  {
    Meaning(body, WasmLocals(meta, args)) == Some(Run(code, m0).regs[t.ret])
  }

  /** A corrected back end computes the meaning of the body on the locals the call starts with. So it is
      WebAssembly's meaning on any given arguments if and only if the difference between the two makes none
      in the weighted sum. */
  lemma ResultExactly(t: Target, meta: Metadata, body: seq<Op>, args: seq<Word>, m0: State)
    requires t.WellFormed() && t.Corrected() && Compilable(meta, body) && ExitKept(t, meta, body)
    requires |args| == |meta.signature.params| && meta.signature.results != []
    ensures |args| <= |t.args| && CompileFunction(t, meta, body).Some?
    ensures Answers(t, meta, body, CompileFunction(t, meta, body).value, args, m0) <==>
      Cancels(Weighted(meta, body, InitialLocals(t, meta, m0)) - Weighted(meta, body, WasmLocals(meta, args)))
  {
    hide *;
    ReturnsOwnMeaning(t, meta, body, m0);
    AnswersSame(t, meta, body, CompileFunction(t, meta, body).value, args, InitialLocals(t, meta, m0), m0);
    SameMeaningExactly(meta, body, InitialLocals(t, meta, m0), WasmLocals(meta, args));
  }

  lemma AnswersSame(t: Target, meta: Metadata, body: seq<Op>, code: seq<Instr>, args: seq<Word>, locals: seq<Word>,
                    m0: State)
    requires |args| == |meta.signature.params| && Meaning(body, locals) == Some(Run(code, m0).regs[t.ret])
    ensures Answers(t, meta, body, code, args, m0) <==> Meaning(body, locals) == Meaning(body, WasmLocals(meta, args))
  {
    hide Meaning, Run, WasmLocals;
  }

  lemma ReturnsOwnMeaning(t: Target, meta: Metadata, body: seq<Op>, m0: State)
    requires t.WellFormed() && t.Corrected() && Compilable(meta, body) && ExitKept(t, meta, body)
    requires meta.signature.results != []
    ensures |meta.signature.params| <= |t.args| && CompileFunction(t, meta, body).Some?
    ensures Meaning(body, InitialLocals(t, meta, m0))
         == Some(Run(CompileFunction(t, meta, body).value, m0).regs[t.ret])
  {
    hide *;
    CallIsRight(t, meta, body, m0);
    MeaningReturned(t, meta, body, m0);
  }

  lemma MeaningReturned(t: Target, meta: Metadata, body: seq<Op>, m0: State)
    requires CompileFunction.requires(t, meta, body) && CompileFunction(t, meta, body).Some?
    requires ReturnsMeaning(t, meta, body, CompileFunction(t, meta, body).value, m0) && meta.signature.results != []
    ensures |meta.signature.params| <= |t.args|
    ensures Meaning(body, InitialLocals(t, meta, m0))
         == Some(Run(CompileFunction(t, meta, body).value, m0).regs[t.ret])
  {
  }

  function NoWords(n: nat): (xs: seq<Word>)
    ensures |xs| == n && forall i :: 0 <= i < n ==> xs[i] == 0
  {
    seq(n, _ => 0)
  }

  /** At entry the machine's i32 locals are the arguments and what the slots hold; WebAssembly's are the
      arguments and zeros. */
  lemma StartWords(t: Target, meta: Metadata, args: seq<Word>, m0: State)
    requires ArgumentsIn(t, meta.signature.params, args, m0) && IntegersFirst(meta.signature.params)
    ensures var a := WordsOf(meta.signature.params, args);
      && WordsOf(meta.LocalTypes(), InitialLocals(t, meta, m0)) == a + SlotWords(meta, m0)
      && WordsOf(meta.LocalTypes(), WasmLocals(meta, args)) == a + NoWords(|meta.locals|)
  {
    IndexIsPosition(meta.signature.params);
    hide FrameBytes, SlotOffset, IntegersFirst, ArgIndex;
  }

  /** Corrected back ends compute the WebAssembly meaning of every compiled function, on all arguments,
      spills included, if and only if the old contents of the declared locals, which the prologue does not
      clear, cancel out in the result. The dead code must leave the result in place, and no parameter in a
      vector register may come before an integer one. */
  lemma MeaningPreserved(t: Target, meta: Metadata, body: seq<Op>, args: seq<Word>, m0: State)
    requires t.WellFormed() && t.Corrected() && Compilable(meta, body) && ExitKept(t, meta, body)
    requires ArgumentsIn(t, meta.signature.params, args, m0) && IntegersFirst(meta.signature.params)
    requires meta.signature.results != []
    ensures CompileFunction(t, meta, body).Some?
    ensures Answers(t, meta, body, CompileFunction(t, meta, body).value, args, m0) <==>
      Cancels(Dot(SlotWeights(meta, body), SlotWords(meta, m0)))
  {
    assert |args| == |meta.signature.params|;
    hide *;
    ResultExactly(t, meta, body, args, m0);
    StartsDiffer(t, meta, body, args, m0);
  }

  /** Two starts with the same arguments differ by their slots. */
  lemma SlotsMatter(meta: Metadata, body: seq<Op>, a: seq<Word>, d: seq<Word>, z: seq<Word>)
    requires |a| == |meta.signature.params| && |d| == |z| == |meta.locals| && z == NoWords(|z|)
    ensures Dot(Weights(meta, body), a + d) - Dot(Weights(meta, body), a + z) == Dot(SlotWeights(meta, body), d)
  {
    hide Dot, Weights;
    DotConcat(Weights(meta, body), a, d);
    DotConcat(Weights(meta, body), a, z);
    DotNothing(SlotWeights(meta, body), z);
  }

  lemma StartsDiffer(t: Target, meta: Metadata, body: seq<Op>, args: seq<Word>, m0: State)
    requires ArgumentsIn(t, meta.signature.params, args, m0) && IntegersFirst(meta.signature.params)
    ensures Weighted(meta, body, InitialLocals(t, meta, m0)) - Weighted(meta, body, WasmLocals(meta, args))
         == Dot(SlotWeights(meta, body), SlotWords(meta, m0))
  {
    StartWords(t, meta, args, m0);
    hide Dot, Weights, SlotWeights, SlotWords, WordsOf, InitialLocals, WasmLocals, NoWords;
    var a, d, z := WordsOf(meta.signature.params, args), SlotWords(meta, m0), NoWords(|meta.locals|);
    SlotsMatter(meta, body, a, d, z);
  }

  /** A simple check that is enough: set before they are read, the slots cancel out whatever they hold. */
  lemma AssignedSlots(meta: Metadata, body: seq<Op>, d: seq<Word>)
    requires Compilable(meta, body) && meta.signature.results != []
    requires |d| == |meta.locals| && WordsOf(meta.locals, d) == d && ReadsAssigned(body, UpTo(|meta.signature.params|))
    ensures Cancels(Dot(SlotWeights(meta, body), d))
  {
    var a, z := NoWords(|meta.signature.params|), NoWords(|meta.locals|);
    AgreeingStarts(meta, d);
    ZeroStart(meta, body, d);
    hide *;
    AgreeingMeaning(body, a + d, a + z, UpTo(|meta.signature.params|));
    SameMeaningExactly(meta, body, a + d, a + z);
  }

  lemma AgreeingStarts(meta: Metadata, d: seq<Word>)
    requires |d| == |meta.locals|
    ensures var a, z := NoWords(|meta.signature.params|), NoWords(|meta.locals|);
      && |meta.LocalTypes()| == |a + d| == |a + z|
      && Agree(Interpreter.Initial(a + d), Interpreter.Initial(a + z), UpTo(|meta.signature.params|))
  {
    hide UpTo;
  }

  lemma ZeroStart(meta: Metadata, body: seq<Op>, d: seq<Word>)
    requires |d| == |meta.locals| && WordsOf(meta.locals, d) == d
    ensures var a, z := NoWords(|meta.signature.params|), NoWords(|meta.locals|);
      Weighted(meta, body, a + d) - Weighted(meta, body, a + z) == Dot(SlotWeights(meta, body), d)
  {
    var a, z := NoWords(|meta.signature.params|), NoWords(|meta.locals|);
    forall i | 0 <= i < |a + d|
      ensures WordsOf(meta.LocalTypes(), a + d)[i] == (a + d)[i]
    {
      if i >= |a| {
        assert WordsOf(meta.locals, d)[i - |a|] == d[i - |a|];
      }
    }
    assert WordsOf(meta.LocalTypes(), a + d) == a + d && WordsOf(meta.LocalTypes(), a + z) == a + z;
    SlotsMatter(meta, body, a, d, z);
    hide Dot, WordsOf, NoWords, SlotWeights;
  }

  lemma AgreeingMeaning(body: seq<Op>, a: seq<Word>, b: seq<Word>, ready: set<nat>)
    requires ReadsAssigned(body, ready) && Agree(Interpreter.Initial(a), Interpreter.Initial(b), ready)
    ensures Meaning(body, a) == Meaning(body, b)
  {
    AgreeingRuns(body, Interpreter.Initial(a), Interpreter.Initial(b), ready);
  }

  lemma NoOtherSlots(meta: Metadata, m0: State)
    ensures WordsOf(meta.locals, SlotWords(meta, m0)) == SlotWords(meta, m0)
  {
    hide FrameBytes, SlotOffset;
  }

  /** So the call is right for bodies that pass the check. */
  lemma AssignedPreserved(t: Target, meta: Metadata, body: seq<Op>, args: seq<Word>, m0: State)
    requires t.WellFormed() && t.Corrected() && Compilable(meta, body) && ExitKept(t, meta, body)
    requires ArgumentsIn(t, meta.signature.params, args, m0) && IntegersFirst(meta.signature.params)
    requires meta.signature.results != [] && ReadsAssigned(body, UpTo(|args|))
    ensures CompileFunction(t, meta, body).Some?
    ensures Answers(t, meta, body, CompileFunction(t, meta, body).value, args, m0)
  {
    assert |args| == |meta.signature.params|;
    hide *;
    NoOtherSlots(meta, m0);
    AssignedSlots(meta, body, SlotWords(meta, m0));
    MeaningPreserved(t, meta, body, args, m0);
  }

  /** The call is right whatever the slots hold if and only if no declared i32 local has a weight. */
  lemma AnySlotsExactly(meta: Metadata, body: seq<Op>)
    ensures (forall d: seq<Word> :: |d| == |meta.locals| && WordsOf(meta.locals, d) == d ==>
               Cancels(Dot(SlotWeights(meta, body), d)))
      <==> forall j :: 0 <= j < |meta.locals| && meta.locals[j] == I32 ==> Cancels(SlotWeights(meta, body)[j])
  {
    hide Dot, Weights, SlotWeights;
    var k := SlotWeights(meta, body);
    forall j | 0 <= j < |meta.locals| && meta.locals[j] == I32 && !Cancels(k[j])
      ensures exists d: seq<Word> :: |d| == |meta.locals| && WordsOf(meta.locals, d) == d && !Cancels(Dot(k, d))
    {
      var d: seq<Word> := NoWords(|meta.locals|)[j := 1];
      assert WordsOf(meta.locals, d) == d;
      DotOnlyOne(k, j, d);
    }
    if forall j :: 0 <= j < |meta.locals| && meta.locals[j] == I32 ==> Cancels(k[j]) {
      forall d: seq<Word> | |d| == |meta.locals| && WordsOf(meta.locals, d) == d
        ensures Cancels(Dot(k, d))
      {
        forall i | 0 <= i < |k|
          ensures d[i] == 0 || Cancels(k[i])
        {
          assert WordsOf(meta.locals, d)[i] == d[i];
        }
        DotVanishes(k, d);
      }
    }
  }

  // ---------- the back ends as written ----------

  function AddCount(ops: seq<Op>): nat {
    if ops == [] then 0 else (if ops[0] == AddI32 then 1 else 0) + AddCount(ops[1..])
  }

  /** Bodies a back end as written is right for on every input: they fit in its registers, add at most
      once if the add takes the carry, and store no local the store form would spoil. */
  predicate StaticallyHarmless(t: Target, meta: Metadata, ops: seq<Op>) {
    && (t.spillsOn ==> meta.maxStackElements <= |t.callerSaved|)
    && (t.addsCarry ==> AddCount(ops) <= 1)
    && (forall i :: 0 <= i < |ops| && ops[i].SetLocalI32? ==> StoreHarmless(t, meta, ops[i].idx))
  }

  predicate StoreHarmless(t: Target, meta: Metadata, idx: nat) {
    match t.setLocal
    case StoreWord => true
    case StorePair => idx + 1 < |meta.LocalTypes()| ==> meta.LocalTypes()[idx + 1] != I32
    case LoadPair => false
  }

  lemma {:induction false} HarmlessByShape(t: Target, meta: Metadata, ops: seq<Op>, s: Interpreter.State,
                                           k: nat, carry: bool)
    requires s.mode.Running? && |s.locals| == |meta.LocalTypes()| && AllEnabled(meta, ops, |s.stack|)
    requires StaticallyHarmless(t, meta, ops) && (t.addsCarry && carry ==> AddCount(ops) == 0)
    requires t.spillsOn ==> k == 0
    ensures HarmlessRun(t, meta, ops, s, k, carry)
    decreases |ops|
  {
    if ops != [] {
      assert forall i :: 0 <= i < |ops| - 1 ==> ops[1..][i] == ops[i + 1];
      StepEnabled(meta, ops[0], s);
      HarmlessByShape(t, meta, ops[1..], Interpreter.Step(ops[0], s), SpilledAfter(t, ops[0], |s.stack|, k),
                      CarryAfter(t, ops[0], s, carry));
    }
  }

  /** On such bodies the back ends as written return the meaning for every call with room for the frame. */
  lemma AsWrittenReturnsMeaning(t: Target, meta: Metadata, body: seq<Op>, m0: State)
    requires t.WellFormed() && Compilable(meta, body) && ExitKept(t, meta, body)
    requires StaticallyHarmless(t, meta, Core(body))
    requires m0.sp >= FrameBytes(meta) && meta.signature.results != []
    ensures |meta.signature.params| <= |t.args| && CompileFunction(t, meta, body).Some?
    ensures Meaning(body, InitialLocals(t, meta, m0))
         == Some(Run(CompileFunction(t, meta, body).value, m0).regs[t.ret])
  {
    CallIsRight(t, meta, body, m0);
    hide CompileFunction, Compilable, Run, HarmlessRun, AllEnabled, FrameBytes, StaticallyHarmless;
    hide ExitKept, Meaning, Core;
    var p := FunctionCode(t, meta, body);
    HarmlessByShape(t, meta, Core(body), Interpreter.Initial(InitialLocals(t, meta, m0)), 0,
                    EntryCarry(meta, m0));
  }

  // ---------- when the result of a final addition is right ----------

  lemma CompileOpsAppend(t: Target, meta: Metadata, es: seq<Entry>, used: set<Reg>, ops: seq<Op>, op: Op)
    ensures CompileOps(t, meta, es, used, ops + [op])
         == (var o := CompileOps(t, meta, es, used, ops);
             if o.None? then None else
             var last := CompileOp(t, meta, o.value.es, o.value.used, op);
             if last.None? then None else Some(last.value.(code := o.value.code + last.value.code)))
  {
    CompileOpsConcat(t, meta, es, used, ops, [op]);
    var o := CompileOps(t, meta, es, used, ops);
    if o.Some? {
      CompileOne(t, meta, o.value.es, o.value.used, op);
    }
  }

  lemma CompileOne(t: Target, meta: Metadata, es: seq<Entry>, used: set<Reg>, op: Op)
    ensures CompileOps(t, meta, es, used, [op]) == CompileOp(t, meta, es, used, op)
  {
    hide CompileOp;
    var o := CompileOp(t, meta, es, used, op);
    assert [op][1..] == [];
    if o.Some? {
      assert CompileOps(t, meta, o.value.es, o.value.used, [op][1..]) == Some(Out(o.value.es, o.value.used, []));
      assert o.value.code + [] == o.value.code;
    }
  }

  lemma ExecAppend(ops: seq<Op>, op: Op, s: Interpreter.State)
    ensures Interpreter.Exec(ops + [op], s) == Interpreter.Step(op, Interpreter.Exec(ops, s))
  {
    RunsOn(ops, [op], s);
    assert [op][1..] == [];
  }

  lemma {:induction false} EnabledAppend(meta: Metadata, ops: seq<Op>, op: Op, s: Interpreter.State)
    requires s.mode.Running? && |s.locals| == |meta.LocalTypes()| && AllEnabled(meta, ops + [op], |s.stack|)
    ensures AllEnabled(meta, ops, |s.stack|)
    ensures var s' := Interpreter.Exec(ops, s);
      s'.mode.Running? && Enabled(meta, op, |s'.stack|)
    decreases |ops|
  {
    if ops == [] {
      assert ops + [op] == [op];
    } else {
      assert (ops + [op])[1..] == ops[1..] + [op];
      StepEnabled(meta, ops[0], s);
      EnabledAppend(meta, ops[1..], op, Interpreter.Step(ops[0], s));
    }
  }

  /** A body whose last computation is an addition, unharmed up to there: the call returns the meaning if
      and only if no carry is pending at an add that takes it. */
  lemma FinalAddExact(t: Target, meta: Metadata, body: seq<Op>, ops: seq<Op>, m0: State)
    requires t.WellFormed() && Compilable(meta, body) && ExitKept(t, meta, body) && Core(body) == ops + [AddI32]
    requires meta.signature.results != []
    ensures |meta.signature.params| <= |t.args| && CompileFunction(t, meta, body).Some?
    ensures AllEnabled(meta, ops, 0)
    ensures var s0 := Interpreter.Initial(InitialLocals(t, meta, m0));
      HarmlessRun(t, meta, ops, s0, 0, EntryCarry(meta, m0)) ==>
        (Meaning(body, s0.locals) == Some(Run(CompileFunction(t, meta, body).value, m0).regs[t.ret]) <==>
         (t.addsCarry ==> !CarryAfterAll(t, ops, s0, EntryCarry(meta, m0))))
  {
    hide CompileFunction, Prologue, CompileOps, CompileOp, Compilable, Inv, AllEnabled, Contained, Epilogue, Run;
    hide Match, StackMatch, FrameBytes, Follows, HarmlessRun, Interpreter.Exec, Interpreter.Step, CarryAfterAll;
    hide Core, Held, Visited, Framed;
    var p, ma, mc := FunctionRun(t, meta, body, m0);
    var s0 := Interpreter.Initial(InitialLocals(t, meta, m0));
    CoreReady(meta, body, s0.locals);
    EnabledAppend(meta, ops, AddI32, s0);
    StartInv(t);
    RunExact(t, meta, [], {}, 0, ops, s0, ma);
    if HarmlessRun(t, meta, ops, s0, 0, EntryCarry(meta, m0)) {
      FollowsEnds(t, meta, [], {}, 0, ops, s0, ma);
      ReachableInv(t, meta, [], {}, 0, ops);
      CompileOpsAppend(t, meta, [], {}, ops, AddI32);
      ExecAppend(ops, AddI32, s0);
      var o1 := CompileOps(t, meta, [], {}, ops).value;
      var m1, s1 := Run(o1.code, ma), Interpreter.Exec(ops, s0);
      MatchSizes(m1, meta, o1.es, s1);
      VisitedInv(t, meta, Some(o1), SpilledAfterAll(t, ops, 0, 0), DepthAfterAll(ops, 0));
      AddSim(t, meta, o1.es, o1.used, SpilledAfterAll(t, ops, 0, 0), s1, m1);
      var last := CompileOp(t, meta, o1.es, o1.used, AddI32).value;
      RunAppend(o1.code, last.code, ma);
      var a, b := s1.stack[|s1.stack| - 2], s1.stack[|s1.stack| - 1];
      TopHeld(mc, p.core.es, s1.stack[..|s1.stack| - 2] + [Summed(t, a, b, m1.carry)]);
      PlaceHolds(mc, p.core.es[|p.core.es| - 1], p.end.es[|p.end.es| - 1]);
      CarryMatters(t, a, b, m1.carry);
      AddMeaning(s1, a, b);
    }
  }

  lemma VisitedInv(t: Target, meta: Metadata, o: Option<Out>, k: nat, n: int)
    requires Visited(t, meta, o, k, n)
    ensures o.Some? && Inv(t, o.value.es, o.value.used, k) && |o.value.es| == n && Straight(o.value.code)
  {
  }

  lemma AddMeaning(s: Interpreter.State, a: Word, b: Word)
    requires s.mode.Running? && |s.stack| >= 2 && a == s.stack[|s.stack| - 2] && b == s.stack[|s.stack| - 1]
    ensures var s' := Interpreter.Step(AddI32, s);
      s'.stack != [] && s'.stack[|s'.stack| - 1] == Interpreter.Plus(a, b)
  {
  }
}
