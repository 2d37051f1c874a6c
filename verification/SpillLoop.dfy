/** The spill loop without a break, on a body that needs one register more than there are. */
module SpillLoop {
  import opened Wrappers
  import opened WasmCore
  import Interpreter
  import opened Machine
  import opened Registers
  import opened FunctionFrame
  import opened CompilerSpec
  import opened CompilerShape
  import opened CompilerSim
  import opened Validator
  import opened Accepting
  import opened ValidatorBounds
  import opened RuntimeStack
  import opened DeadCode
  import opened CompilerRun
  import opened CompilerResults
  import opened Counterexamples

  function Naturals(n: nat): (stack: seq<Word>)
    requires n < TWO_32
    ensures |stack| == n && forall i :: 0 <= i < n ==> stack[i] == i
  {
    seq(n, i requires 0 <= i < n => i)
  }

  /** Constants `i`, ..., `n - 1`. */
  function Count(i: nat, n: nat): seq<Op>
    requires i <= n < TWO_32
    decreases n - i
  {
    if i == n then [] else [ConstI32(i)] + Count(i + 1, n)
  }

  function Additions(n: nat): seq<Op> {
    if n == 0 then [] else [AddI32] + Additions(n - 1)
  }

  /** One operand more than there are registers, then the sum of all. */
  function SumBody(n: nat): seq<Op>
    requires n <= 32
  {
    Count(0, n) + ([ConstI32(n)] + Additions(n))
  }

  function SumMeta(n: nat): Metadata {
    Metadata(Signature(0), [], 4 * (n + 1), n + 1)
  }

  function Total(stack: seq<Word>): nat {
    if stack == [] then 0 else Total(stack[..|stack| - 1]) + stack[|stack| - 1]
  }

  lemma TotalSnoc(stack: seq<Word>, v: Word)
    ensures Total(stack + [v]) == Total(stack) + v
  {
    assert (stack + [v])[..|stack|] == stack;
  }

  lemma {:induction false} TotalShift(stack: seq<Word>)
    ensures Total([0] + stack) == Total(stack)
    decreases |stack|
  {
    if stack == [] {
      TotalSnoc([], 0);
      assert [] + [0] == [0] + stack;
    } else {
      var init, last := stack[..|stack| - 1], stack[|stack| - 1];
      TotalShift(init);
      TotalSnoc([0] + init, last);
      assert [0] + stack == [0] + init + [last];
    }
  }

  lemma {:induction false} TotalNaturals(n: nat)
    requires n <= 33
    ensures Total(Naturals(n)) <= 32 * n
  {
    if n > 0 {
      TotalNaturals(n - 1);
      TotalSnoc(Naturals(n - 1), n - 1);
      assert Naturals(n) == Naturals(n - 1) + [n - 1];
    }
  }

  /** One addition of such a sum. */
  lemma AddRun(t: Target, meta: Metadata, n: nat, s: Interpreter.State) returns (s': Interpreter.State)
    requires s.mode.Running? && |s.stack| == n + 1 && n >= 1 && Total(s.stack) < TWO_32
    ensures s' == Interpreter.Step(AddI32, s) && s' == s.(stack := s'.stack)
    ensures |s'.stack| == n && Total(s'.stack) == Total(s.stack)
    ensures !CarryAfter(t, AddI32, s, false)
  {
    var init, next, top := s.stack[..n - 1], s.stack[n - 1], s.stack[n];
    assert s.stack == init + [next] + [top];
    TotalSnoc(init + [next], top);
    TotalSnoc(init, next);
    hide Total;
    s' := s.(stack := init + [next + top]);
    assert Interpreter.Plus(next, top) == next + top;
    TotalSnoc(init, next + top);
  }

  /** Adding up `n + 1` operands whose sum is a word: no addition carries. */
  lemma {:induction false} AddsRun(t: Target, meta: Metadata, n: nat, s: Interpreter.State, k: nat)
    requires s.mode.Running? && |s.stack| == n + 1 && Total(s.stack) < TWO_32 && |s.locals| == |meta.LocalTypes()|
    ensures AllEnabled(meta, Additions(n), n + 1) && HarmlessRun(t, meta, Additions(n), s, k, false)
    ensures Interpreter.Exec(Additions(n), s) == s.(stack := [Total(s.stack)])
    decreases n
  {
    if n == 0 {
      var top := s.stack[0];
      assert s.stack == [] + [top];
      TotalSnoc([], top);
    } else {
      var s' := AddRun(t, meta, n, s);
      assert Additions(n)[0] == AddI32 && Additions(n)[1..] == Additions(n - 1);
      assert Enabled(meta, AddI32, n + 1) && Depth(AddI32, n + 1) == n;
      hide Interpreter.Step, Total, CarryAfter, SpilledAfter, Enabled, Depth;
      AddsRun(t, meta, n - 1, s', SpilledAfter(t, AddI32, n + 1, k));
      assert AllEnabled(meta, Additions(n), n + 1);
    }
  }

  /** Counting up while there are registers: nothing is spilled. */
  lemma {:induction false} CountRun(t: Target, meta: Metadata, i: nat, n: nat, s: Interpreter.State)
    requires t.WellFormed() && i <= n <= |t.callerSaved| && n < TWO_32 - 1 && meta.maxStackElements >= n
    requires s.mode.Running? && s.stack == Naturals(i) && |s.locals| == |meta.LocalTypes()|
    ensures AllEnabled(meta, Count(i, n), i) && HarmlessRun(t, meta, Count(i, n), s, 0, false)
    ensures SpilledAfterAll(t, Count(i, n), i, 0) == 0 && DepthAfterAll(Count(i, n), i) == n
    ensures Interpreter.Exec(Count(i, n), s) == s.(stack := Naturals(n))
    ensures CarryAfterAll(t, Count(i, n), s, false) == false
    decreases n - i
  {
    if i < n {
      assert Count(i, n)[1..] == Count(i + 1, n);
      var s' := s.(stack := Naturals(i + 1));
      assert Naturals(i) + [i] == Naturals(i + 1);
      assert Interpreter.Step(ConstI32(i), s) == s';
      CountRun(t, meta, i + 1, n, s');
      hide Interpreter.Step;
      assert AllEnabled(meta, Count(i, n), i);
    }
  }

  lemma {:induction false} CountVisited(c: Context, i: nat, n: nat)
    requires i <= n <= 33
    ensures VisitAll(c, Counted(false, i, i), Count(i, n)) == Some(Counted(false, n, n))
    decreases n - i
  {
    hide Visit, VisitAll, Counted;
    if i < n {
      PushVisited(c, false, i, i, ConstI32(i));
      VisitThen(c, Counted(false, i, i), ConstI32(i), Count(i + 1, n), Counted(false, i + 1, i + 1));
      CountVisited(c, i + 1, n);
    } else {
      VisitNone(c, Counted(false, n, n));
    }
  }

  lemma {:induction false} AddsVisited(c: Context, n: nat, mark: nat)
    requires n + 1 <= mark <= 33
    ensures VisitAll(c, Counted(false, n + 1, mark), Additions(n)) == Some(Counted(false, 1, mark))
    decreases n
  {
    hide Visit, VisitAll, Counted;
    if n > 0 {
      AddVisited(c, false, n + 1, mark);
      VisitThen(c, Counted(false, n + 1, mark), AddI32, Additions(n - 1), Counted(false, n, mark));
      AddsVisited(c, n - 1, mark);
    } else {
      VisitNone(c, Counted(false, 1, mark));
    }
  }

  lemma SumVisited(n: nat)
    requires n <= 32
    ensures Check(ContextOf(Signature(0), []), SumBody(n)) == Some(Counted(false, 0, n + 1))
  {
    var c := ContextOf(Signature(0), []);
    StartCounted();
    assert Count(n, n + 1) == [ConstI32(n)];
    EndVisited(c, false, n + 1);
    CountVisited(c, 0, n);
    CountVisited(c, n, n + 1);
    hide Visit, VisitAll, Count, Additions, Finalize, Counted;
    VisitAllAppend(c, START, Count(0, n), [ConstI32(n)] + Additions(n));
    VisitAllAppend(c, Counted(false, n, n), [ConstI32(n)], Additions(n));
    AddsVisited(c, n, n + 1);
  }

  lemma {:induction false} AddsOnly(n: nat)
    ensures forall i :: 0 <= i < |Additions(n)| ==> Additions(n)[i] == AddI32
  {
    if n > 0 {
      AddsOnly(n - 1);
    }
  }

  lemma {:induction false} CountOnly(i: nat, n: nat)
    requires i <= n < TWO_32
    ensures forall j :: 0 <= j < |Count(i, n)| ==> Count(i, n)[j].ConstI32?
    decreases n - i
  {
    if i < n {
      CountOnly(i + 1, n);
    }
  }

  lemma SumShape(n: nat)
    requires n <= 32
    ensures Supported(SumBody(n)) && Return !in SumBody(n) && ReturnOnlyLast(SumBody(n))
  {
    AddsOnly(n);
    CountOnly(0, n);
    hide Count, Additions;
  }

  lemma SumCompilable(t: Target, n: nat)
    requires t.WellFormed() && n <= 32
    ensures Compilable(SumMeta(n), SumBody(n)) && Core(SumBody(n)) == SumBody(n)
  {
    hide Check, Compilable, SumBody, Supported, ReturnOnlyLast;
    SumVisited(n);
    SumShape(n);
    WholeCore(SumBody(n));
    assert SumMeta(n).LocalTypes() == [] && Counted(false, 0, n + 1).maxElements == n + 1;
    ReturnLastCompilable(t, SumMeta(n), SumBody(n));
  }

  lemma FewRegisters(t: Target)
    requires t.WellFormed()
    ensures 2 <= |t.callerSaved| <= 32
  {
    SubsetSize(t.callerSaved, Interval(0, 32));
  }

  /** What the additions find after the loop has run on: each operand above the first spilled is its lower
      neighbour, and the sum is short by one for each. */
  lemma SeenTotal(t: Target, n: nat)
    requires t.spillsOn && n == |t.callerSaved| && 2 <= n <= 32
    ensures var seen := Seen(t, Naturals(n), 0) + [n];
      |seen| == n + 1 && Total(seen) + (n - 1) == Total(Naturals(n + 1)) < TWO_32
  {
    var seen := Seen(t, Naturals(n), 0);
    assert seen == [0] + Naturals(n - 1);
    hide Total, Seen;
    TotalShift(Naturals(n - 1));
    TotalSnoc(seen, n);
    TotalSnoc(Naturals(n - 1), n - 1);
    TotalSnoc(Naturals(n), n);
    assert Naturals(n) == Naturals(n - 1) + [n - 1] && Naturals(n + 1) == Naturals(n) + [n];
    TotalNaturals(n + 1);
  }

  lemma SumMeaning(t: Target, n: nat)
    requires t.WellFormed() && n <= 32
    ensures Meaning(SumBody(n), []) == Some(Total(Naturals(n + 1)))
  {
    var s0 := Interpreter.Initial([]);
    var meta := Metadata(BlockType([], []), [], 0, n);
    CountMeans(0, n, s0);
    CountMeans(n, n + 1, s0.(stack := Naturals(n)));
    assert Count(n, n + 1) == [ConstI32(n)];
    TotalNaturals(n + 1);
    AddsRun(t, meta, n, s0.(stack := Naturals(n + 1)), 0);
    hide Interpreter.Exec, Count, Additions, Total, Interpreter.Step;
    RunsOn(Count(0, n), [ConstI32(n)] + Additions(n), s0);
    RunsOn([ConstI32(n)], Additions(n), s0.(stack := Naturals(n)));
  }

  lemma {:induction false} CountMeans(i: nat, n: nat, s: Interpreter.State)
    requires i <= n < TWO_32 - 1 && s.mode.Running? && s.stack == Naturals(i)
    ensures Interpreter.Exec(Count(i, n), s) == s.(stack := Naturals(n))
    decreases n - i
  {
    if i < n {
      assert Count(i, n)[1..] == Count(i + 1, n);
      assert Naturals(i) + [i] == Naturals(i + 1);
      CountMeans(i + 1, n, s.(stack := Naturals(i + 1)));
    }
  }

  /** Running the code of the body: the operands that the loop shows are added up. */
  lemma SumRuns(t: Target, n: nat, ma: State) returns (o: Out)
    requires t.WellFormed() && t.spillsOn && n == |t.callerSaved| <= 32 && !ma.carry
    requires Match(ma, SumMeta(n), [], Interpreter.Initial([]))
    ensures CompileOps(t, SumMeta(n), [], {}, SumBody(n)) == Some(o) && o.es != []
    ensures Held(Run(o.code, ma), o.es[|o.es| - 1]) == Total(Seen(t, Naturals(n), 0) + [n])
  {
    var meta, s0 := SumMeta(n), Interpreter.Initial([]);
    SumSized(t, n);
    SumSmall(t, n);
    StartInv(t);
    CountRun(t, meta, 0, n, s0);
    hide *;
    RunExact(t, meta, [], {}, 0, Count(0, n), s0, ma);
    FollowsEnds(t, meta, [], {}, 0, Count(0, n), s0, ma);
    ReachableInv(t, meta, [], {}, 0, Count(0, n));
    var o1 := CompileOps(t, meta, [], {}, Count(0, n)).value;
    VisitedInv(t, meta, Some(o1), 0, n);
    var m1, s1 := Run(o1.code, ma), Interpreter.Exec(Count(0, n), s0);
    var o2, m2, s2 := LastPush(t, n, o1, s1, m1);
    AddsRun(t, meta, n, s2, 1);
    RunExact(t, meta, o2.es, o2.used, 1, Additions(n), s2, m2);
    FollowsEnds(t, meta, o2.es, o2.used, 1, Additions(n), s2, m2);
    var o3 := CompileOps(t, meta, o2.es, o2.used, Additions(n)).value;
    MatchStack(Run(o3.code, m2), meta, o3.es, Interpreter.Exec(Additions(n), s2));
    TopHeld(Run(o3.code, m2), o3.es, [Total(s2.stack)]);
    o := SumCode(t, n, o1, o2, o3);
    RunAppend(o1.code, o2.code + o3.code, ma);
    RunAppend(o2.code, o3.code, m1);
  }

  lemma MatchStack(m: State, meta: Metadata, es: seq<Entry>, s: Interpreter.State)
    requires Match(m, meta, es, s)
    ensures StackMatch(m, es, s.stack) && LocalsMatch(m, meta, s.locals)
  {
  }

  lemma SumSized(t: Target, n: nat)
    requires t.WellFormed() && n <= 32
    ensures Sized(t, SumMeta(n)) && SumMeta(n).LocalTypes() == [] && SumMeta(n).maxStackElements == n + 1
  {
  }

  lemma SumSmall(t: Target, n: nat)
    requires t.WellFormed() && t.spillsOn && n == |t.callerSaved| <= 32
    ensures n >= 2 && Total(Seen(t, Naturals(n), 0) + [n]) < TWO_32
  {
    SeenTotal(t, n);
  }

  lemma SumCode(t: Target, n: nat, o1: Out, o2: Out, o3: Out) returns (o: Out)
    requires n <= 32
    requires CompileOps(t, SumMeta(n), [], {}, Count(0, n)) == Some(o1)
    requires CompileOp(t, SumMeta(n), o1.es, o1.used, ConstI32(n)) == Some(o2)
    requires CompileOps(t, SumMeta(n), o2.es, o2.used, Additions(n)) == Some(o3)
    ensures CompileOps(t, SumMeta(n), [], {}, SumBody(n)) == Some(o)
    ensures o.es == o3.es && o.code == o1.code + (o2.code + o3.code)
  {
    hide CompileOps, CompileOp, Count, Additions, SumMeta;
    CompileOpsConcat(t, SumMeta(n), [], {}, Count(0, n), [ConstI32(n)] + Additions(n));
    CompileOpsConcat(t, SumMeta(n), o1.es, o1.used, [ConstI32(n)], Additions(n));
    CompileOne(t, SumMeta(n), o1.es, o1.used, ConstI32(n));
    o := o3.(code := o1.code + (o2.code + o3.code));
  }

  /** The push for which no register is left. */
  lemma LastPush(t: Target, n: nat, o1: Out, s1: Interpreter.State, m1: State)
    returns (o2: Out, m2: State, s2: Interpreter.State)
    requires t.WellFormed() && t.spillsOn && n == |t.callerSaved| <= 32 && !m1.carry
    requires Inv(t, o1.es, o1.used, 0) && |o1.es| == n
    requires s1 == Interpreter.Initial([]).(stack := Naturals(n)) && Match(m1, SumMeta(n), o1.es, s1)
    ensures CompileOp(t, SumMeta(n), o1.es, o1.used, ConstI32(n)) == Some(o2) && m2 == Run(o2.code, m1)
    ensures Straight(o2.code) && Inv(t, o2.es, o2.used, 1) && |o2.es| == n + 1 && !m2.carry
    ensures s2 == s1.(stack := Seen(t, Naturals(n), 0) + [n]) && Match(m2, SumMeta(n), o2.es, s2)
  {
    var meta, op := SumMeta(n), ConstI32(n);
    SumSized(t, n);
    assert Enabled(meta, op, n) && s1.mode.Running?;
    assert SpilledAfter(t, op, n, 0) == 1 && Depth(op, n) == n + 1;
    hide CompileOp, Inv, Run, Straight, Match, StackMatch, LocalsMatch, Seen, Sized, HarmlessPush;
    PushSim(t, meta, o1.es, o1.used, 0, op, s1, m1);
    VisitKeepsInv(t, meta, o1.es, o1.used, 0, op);
    o2 := CompileOp(t, meta, o1.es, o1.used, op).value;
    m2 := Run(o2.code, m1);
    s2 := s1.(stack := Seen(t, s1.stack, 0) + [n]);
    MatchMeans(m2, meta, o2.es, s2);
  }

  /** A spill loop that runs on returns a wrong sum: with N registers, the call of `0 + 1 + ... + N` falls
      short of its meaning by N - 1, from every state with room for the frame. */
  lemma RunningOnHarms(t: Target, m0: State)
    requires t.WellFormed() && t.spillsOn && m0.sp >= FrameBytes(SumMeta(|t.callerSaved|))
    ensures |t.callerSaved| <= 32
    ensures var n := |t.callerSaved|;
      var meta, body := SumMeta(n), SumBody(n);
      && Compilable(meta, body) && CompileFunction(t, meta, body).Some?
      && Meaning(body, InitialLocals(t, meta, m0)) == Some(Total(Naturals(n + 1)))
      && Run(CompileFunction(t, meta, body).value, m0).regs[t.ret] == Total(Naturals(n + 1)) - (n - 1)
  {
    hide *;
    FewRegisters(t);
    var n := |t.callerSaved|;
    var meta, body := SumMeta(n), SumBody(n);
    SumCompilable(t, n);
    SumSized(t, n);
    SeenTotal(t, n);
    SumLocals(t, n, m0);
    NoCarry(meta, m0);
    SumMeaning(t, n);
    var p, ma, mc := FunctionRun(t, meta, body, m0);
    var o := SumRuns(t, n, ma);
    SumParts(t, meta, body, p, o);
    SmallWord(Run(CompileFunction(t, meta, body).value, m0).regs[t.ret], Held(mc, o.es[|o.es| - 1]));
  }

  lemma SumLocals(t: Target, n: nat, m0: State)
    requires t.WellFormed()
    ensures SumMeta(n).signature.params == [] && SumMeta(n).signature.results != [] && |t.args| >= 6
    ensures InitialLocals(t, SumMeta(n), m0) == []
  {
    assert SumMeta(n).LocalTypes() == [];
  }

  lemma NoCarry(meta: Metadata, m0: State)
    requires m0.sp >= FrameBytes(meta)
    ensures !EntryCarry(meta, m0)
  {
  }

  lemma SumParts(t: Target, meta: Metadata, body: seq<Op>, p: Parts, o: Out)
    requires PartsOf(t, meta, body, p) && Core(body) == body && CompileOps(t, meta, [], {}, body) == Some(o)
    ensures p.core == o == p.end
    ensures meta.signature.results != [] ==> p.end.es != []
  {
  }
}
