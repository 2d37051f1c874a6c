/** Code behind a return: the compile-time stack is not reset there, so that such code moves the place the
    exit reads, and the validator counts values popped from nowhere, so that it can spoil the frame. */
module DeadCode {
  import opened Wrappers
  import opened WasmCore
  import Interpreter
  import opened Machine
  import opened Registers
  import opened RuntimeStack
  import opened CompilerSpec
  import opened CompilerShape
  import opened Validator
  import opened ValidatorBounds
  import opened ValidatorMarks
  import opened CompilerRun

  // ---------- the result ----------

  /** Dead code that leaves the bottom operand where it is: it stays above it, ends with it on top, and
      neither spills nor reloads it. `k` counts the spilled entries. */
  predicate KeepsBottom(t: Target, ops: seq<Op>, n: nat, k: nat)
    decreases |ops|
  {
    if ops == [] then n == 1
    else
      var n', k' := Depth(ops[0], n), SpilledAfter(t, ops[0], n, k);
      n' >= 1 && (k' == 0 <==> k == 0) && KeepsBottom(t, ops[1..], n', k')
  }

  lemma VisitKeepsBottom(t: Target, meta: Metadata, es: seq<Entry>, used: set<Reg>, k: nat, op: Op)
    requires t.WellFormed() && Inv(t, es, used, k) && Enabled(meta, op, |es|) && es != []
    requires Depth(op, |es|) >= 1 && (SpilledAfter(t, op, |es|, k) == 0 <==> k == 0)
    ensures var o := CompileOp(t, meta, es, used, op);
      o.Some? && o.value.es != [] && o.value.es[0] == es[0]
  {
    hide CompileOp, Spill;
    match op
    case ConstI32(_) | GetLocalI32(_) =>
      var r := PushShape(t, meta, es, used, k, op);
      if |es| - k == |t.callerSaved| {
        SpillShape(es, None, t.spillsOn, k);
      }
    case AddI32 =>
      var r1, r2 := AddShape(t, meta, es, used, k);
    case SetLocalI32(i) =>
      var r := SetLocalShape(t, meta, es, used, k, i);
    case Return => ReturnVisit(t, meta, es, used);
  }

  lemma {:induction false} BottomStays(t: Target, meta: Metadata, es: seq<Entry>, used: set<Reg>, k: nat, ops: seq<Op>)
    requires t.WellFormed() && Inv(t, es, used, k) && Depths(meta, ops, |es|) && es != []
    requires KeepsBottom(t, ops, |es|, k)
    ensures var o := CompileOps(t, meta, es, used, ops);
      o.Some? && o.value.es == [es[0]]
    decreases |ops|
  {
    if ops != [] {
      VisitKeepsBottom(t, meta, es, used, k, ops[0]);
      EnabledShape(t, meta, es, used, k, ops[0]);
      hide CompileOp, Inv, Enabled, Depth, SpilledAfter;
      var o := CompileOp(t, meta, es, used, ops[0]).value;
      BottomStays(t, meta, o.es, o.used, SpilledAfter(t, ops[0], |es|, k), ops[1..]);
    }
  }

  /** Dead code that the depths alone show to be harmless: there is none, there is no result, or it leaves
      the result where the return left it. */
  predicate DeadHarmless(t: Target, meta: Metadata, body: seq<Op>) {
    || Dead(body) == []
    || meta.signature.results == []
    || KeepsBottom(t, Dead(body), 1, SpilledAfterAll(t, Core(body), 0, 0))
  }

  /** Such code does not change what the call returns, for every target. */
  lemma DeadHarmlessKeepsExit(t: Target, meta: Metadata, body: seq<Op>)
    requires t.WellFormed() && Compilable(meta, body) && DeadHarmless(t, meta, body)
    ensures ExitKept(t, meta, body)
  {
    var p := FunctionCode(t, meta, body);
    var core, k := p.core, SpilledAfterAll(t, Core(body), 0, 0);
    DepthsSplit(meta, body, 0);
    SplitAtReturn(body);
    CompileOpsConcat(t, meta, [], {}, Core(body), Tail(body));
    CoreReady(meta, body, seq(|meta.LocalTypes()|, _ => 0));
    hide Compilable, Core, Dead, Inv, Epilogue, Straight, AllContained, KeepsBottom, Depths, AllEnabled;
    TailEnds(t, meta, core.es, core.used, body);
    if meta.signature.results != [] && Dead(body) != [] {
      DeadDepths(meta, body, 1);
      if Return in body {
        BottomStays(t, meta, core.es, core.used, k, Dead(body));
      }
    }
  }

  lemma DeadDepths(meta: Metadata, body: seq<Op>, n: nat)
    requires Depths(meta, Tail(body), n)
    ensures Return in body ==> Depths(meta, Dead(body), n)
  {
    if Return in body {
      assert Tail(body)[1..] == Dead(body);
    }
  }

  /** The state after a return is the state at it. */
  lemma TailEnds(t: Target, meta: Metadata, es: seq<Entry>, used: set<Reg>, body: seq<Op>)
    ensures Return !in body ==> CompileOps(t, meta, es, used, Tail(body)) == Some(Out(es, used, []))
    ensures Return in body ==>
      var o, dead := CompileOps(t, meta, es, used, Tail(body)), CompileOps(t, meta, es, used, Dead(body));
      (o.Some? <==> dead.Some?) && (o.Some? ==> o.value.es == dead.value.es)
    ensures Dead(body) == [] ==>
      var o := CompileOps(t, meta, es, used, Tail(body)); o.Some? && o.value.es == es
  {
    if Return in body {
      assert Tail(body)[1..] == Dead(body);
      ReturnVisit(t, meta, es, used);
    }
  }

  // ---------- the frame ----------

  /** With operands of 4 bytes the two marks agree if and only if nothing is pushed after a phantom has
      been popped. */
  lemma WordMarksExact(c: Context, body: seq<Op>)
    requires |c.results| <= 1 && Check(c, body).Some? && |body| < TWO_32
    ensures Check(c, body).value.maxUsage == 4 * Check(c, body).value.maxElements <==> CleanMarks(c, START, 0, body)
  {
    MarksExact(c, body);
    assert Law(START, 0);
    PeaksAgree(c, START, 0, body);
    hide Check, CleanMarks, BytePeak, ElementPeak;
  }

  lemma {:induction false} PeaksAgree(c: Context, v: VState, ph: nat, ops: seq<Op>)
    requires Law(v, ph)
    ensures BytePeak(c, v, ops) == 4 * ElementPeak(c, v, ops)
    decreases |ops|
  {
    WordsBytes(v.stack);
    if ops != [] && Visit(c, v, ops[0]).Some? {
      VisitLaw(c, v, ops[0], ph);
      hide Law, Visit, PhantomsOf, Pushes, TotalBytes;
      PeaksAgree(c, Visit(c, v, ops[0]).value, ph + PhantomsOf(c, v, ops[0]), ops[1..]);
    }
  }

  /** Accepted within the parser's limits, with its own marks, and small enough for a frame of 32-bit size. */
  ghost predicate AcceptedAs(meta: Metadata, body: seq<Op>) {
    var c := ContextOf(meta.signature, meta.locals);
    && |meta.signature.params| <= 6 && |meta.signature.results| <= 1 && Supported(body)
    && Check(c, body).Some? && Check(c, body).value.maxElements < TWO_32
    && meta == MetaOf(meta.signature, meta.locals, Check(c, body).value)
    && TotalBytes(meta.LocalTypes()) + 4 * meta.maxStackElements + 15 < 0x8000_0000
  }

  lemma SizedCompilable(meta: Metadata, body: seq<Op>)
    requires AcceptedAs(meta, body) && DepthsFit(meta, body)
    requires var v := Check(ContextOf(meta.signature, meta.locals), body).value; v.maxUsage == 4 * v.maxElements
    ensures Compilable(meta, body)
  {
    hide Check, DepthsFit, TotalBytes, Supported;
    SmallMark(Check(ContextOf(meta.signature, meta.locals), body).value.maxElements, meta.maxStackElements);
  }

  lemma CleanCompilable(meta: Metadata, body: seq<Op>)
    requires AcceptedAs(meta, body) && |body| < TWO_32 && DepthsFit(meta, body)
    requires CleanMarks(ContextOf(meta.signature, meta.locals), START, 0, body)
    ensures Compilable(meta, body)
  {
    WordMarksExact(ContextOf(meta.signature, meta.locals), body);
    hide Check, CleanMarks, DepthsFit, TotalBytes, Supported, Compilable;
    SizedCompilable(meta, body);
  }

  lemma SmallMark(e: nat, narrowed: nat)
    requires e < TWO_32 && narrowed == e % TWO_32 && 4 * narrowed < 0x8000_0000
    ensures narrowed == e && 4 * e % TWO_32 == 4 * narrowed
  {
  }

  /** With nothing after its return every accepted body with a frame of 32-bit size compiles, and the exit
      finds the result. */
  lemma ReturnLastCompilable(t: Target, meta: Metadata, body: seq<Op>)
    requires t.WellFormed() && AcceptedAs(meta, body) && ReturnOnlyLast(body)
    ensures Compilable(meta, body) && ExitKept(t, meta, body)
  {
    var c := ContextOf(meta.signature, meta.locals);
    SplitAtReturn(body);
    AcceptedCore(c, body);
    var ops, locals := Core(body), seq(|c.locals|, _ => 0);
    var v := VisitAll(c, START, ops).value;
    CoreMarks(c, v);
    hide Check, Core, Dead, Tail, TotalBytes, VisitAll, Supported, ReturnOnlyLast, Interpreter.Exec;
    hide Plain, Compilable;
    CoreRuns(c, START, ops, meta, Interpreter.Initial(locals));
    EnabledDepth(meta, ops, Interpreter.Initial(locals));
    EnabledDepths(meta, ops, 0);
    DepthsAppend(meta, ops, body);
    hide Depths, DepthAfterAll, AllEnabled;
    SizedCompilable(meta, body);
    DeadHarmlessKeepsExit(t, meta, body);
  }

  lemma CoreMarks(c: Context, v: VState)
    requires Plain(v)
    ensures v.maxUsage == 4 * v.maxElements && Plain(START)
  {
  }

  lemma {:induction false} EnabledDepths(meta: Metadata, ops: seq<Op>, n: nat)
    requires AllEnabled(meta, ops, n)
    ensures Depths(meta, ops, n)
    decreases |ops|
  {
    if ops != [] {
      EnabledDepths(meta, ops[1..], Depth(ops[0], n));
    }
  }

  lemma DepthsAppend(meta: Metadata, ops: seq<Op>, body: seq<Op>)
    requires Depths(meta, ops, 0) && ops == Core(body) && body == ops + Tail(body) && Dead(body) == []
    ensures Depths(meta, body, 0) && DepthAfterAll(body, 0) == DepthAfterAll(ops, 0)
  {
    if Return in body {
      assert Tail(body) == [Return] && [Return][1..] == [];
      ReturnDepths(meta, ops, 0);
    } else {
      assert ops + [] == ops;
    }
  }

  lemma {:induction false} ReturnDepths(meta: Metadata, ops: seq<Op>, n: nat)
    requires Depths(meta, ops, n)
    ensures Depths(meta, ops + [Return], n) && DepthAfterAll(ops + [Return], n) == DepthAfterAll(ops, n)
    decreases |ops|
  {
    if ops == [] {
      assert ops + [Return] == [Return] && [Return][1..] == [];
    } else {
      assert (ops + [Return])[1..] == ops[1..] + [Return];
      ReturnDepths(meta, ops[1..], Depth(ops[0], n));
    }
  }
}
