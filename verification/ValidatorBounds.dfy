/** What acceptance by the validator gives the compiler: operands are always there, the high-water marks
    are the true maxima, and the stack ends with the results. */
module ValidatorBounds {
  import opened Wrappers
  import opened WasmCore
  import Interpreter
  import opened Validator
  import opened ValidatorTyping
  import opened CompilerShape

  /** The metadata stored with an accepted body; the counters are narrowed to 32 bits. */
  function MetaOf(signature: BlockType, locals: seq<ValType>, v: VState): Metadata {
    Metadata(signature, locals, v.maxUsage % TWO_32, v.maxElements % TWO_32)
  }

  /** The body up to its first return. */
  function Core(body: seq<Op>): (core: seq<Op>)
    ensures Return !in core && |core| <= |body|
    ensures Supported(body) ==> Supported(core)
  {
    if body == [] || body[0] == Return then [] else
    var core := Core(body[1..]);
    assert Supported(body) ==> Supported(body[1..]) by {
      assert forall i :: 0 <= i < |body| - 1 ==> body[1..][i] == body[i + 1];
    }
    [body[0]] + core
  }

  /** The code behind the first return, which no run reaches. */
  function Dead(body: seq<Op>): seq<Op> {
    if body == [] then [] else if body[0] == Return then body[1..] else Dead(body[1..])
  }

  /** What is left of a body after its core. */
  function Tail(body: seq<Op>): seq<Op> {
    if Return in body then [Return] + Dead(body) else []
  }

  lemma {:induction false} SplitAtReturn(body: seq<Op>)
    ensures body == Core(body) + Tail(body)
    ensures ReturnOnlyLast(body) ==> Dead(body) == []
  {
    if body != [] {
      var rest := body[1..];
      assert forall i :: 0 <= i < |rest| ==> rest[i] == body[i + 1];
      assert body == [body[0]] + rest;
      if body[0] == Return {
        assert ReturnOnlyLast(body) ==> |body| == 1;
      } else {
        SplitAtReturn(rest);
        assert Return in body <==> Return in rest;
        assert ReturnOnlyLast(body) ==> ReturnOnlyLast(rest);
      }
    }
  }

  /** A state reached without a return by word instructions only. */
  ghost predicate Plain(v: VState) {
    && !v.unreachable
    && (forall i :: 0 <= i < |v.stack| ==> v.stack[i] == I32)
    && |v.stack| <= v.maxElements
    && v.usage == 4 * |v.stack|
    && v.maxUsage == 4 * v.maxElements
  }

  ghost predicate AllEnabled(meta: Metadata, ops: seq<Op>, n: nat)
    decreases |ops|
  {
    ops == [] ||
    (Enabled(meta, ops[0], n) && ops[0] != Return && AllEnabled(meta, ops[1..], Depth(ops[0], n)))
  }

  lemma PushPlain(v: VState)
    requires Plain(v) && 4 * Push(v, I32).maxElements < TWO_64
    ensures var p := Push(v, I32);
      Plain(p) && |p.stack| == |v.stack| + 1 && p.maxElements == MaxOf(v.maxElements, |p.stack|)
  {
  }

  lemma PopPlain(v: VState)
    requires Plain(v) && Pop(v, I32).Some?
    ensures var p := Pop(v, I32).value;
      Plain(p) && |v.stack| == |p.stack| + 1 && p.maxElements == v.maxElements
  {
    WrapBack(4 * |v.stack|);
  }

  lemma WrapBack(usage: Quad)
    ensures usage >= 4 ==> (usage + TWO_64 - 4) % TWO_64 == usage - 4
  {
  }

  lemma PopTwice(v: VState)
    ensures var p := Pop(v, I32);
      PopAll(v, [I32, I32]) == if p.None? then None else Pop(p.value, I32)
  {
    assert [I32, I32][1..] == [I32] && [I32][1..] == [];
  }

  lemma BelowMark(v: VState)
    requires Plain(v)
    ensures |v.stack| <= v.maxElements
  {
  }

  /** An accepted visit in reachable code is one the compiler is ready for. */
  lemma VisitPlain(c: Context, v: VState, op: Op, meta: Metadata)
    requires Plain(v) && op != Return && !op.Label? && !op.Br? && !op.BrIf?
    requires meta.LocalTypes() == c.locals
    requires var o := Visit(c, v, op);
      o.Some? && o.value.maxElements <= meta.maxStackElements && 4 * o.value.maxElements < TWO_64
    ensures var v' := Visit(c, v, op).value;
      && Plain(v')
      && |v'.stack| == Depth(op, |v.stack|)
      && v'.maxElements == MaxOf(v.maxElements, |v'.stack|)
    ensures Enabled(meta, op, |v.stack|)
  {
    hide Plain, Push, Pop, PopAll;
    BelowMark(v);
    match op
    case ConstI32(_) => PushPlain(v);
    case GetLocalI32(_) => PushPlain(v);
    case AddI32 =>
      PopTwice(v);
      var p1 := Pop(v, I32).value;
      PopPlain(v);
      PopPlain(p1);
      PushPlain(Pop(p1, I32).value);
    case SetLocalI32(_) => PopPlain(v);
  }

  lemma {:induction false} PopAllKeepsMarks(v: VState, ts: seq<ValType>)
    ensures var p := PopAll(v, ts);
      p.Some? ==> p.value.maxElements == v.maxElements && p.value.maxUsage == v.maxUsage
    decreases |ts|
  {
    if ts != [] && Pop(v, ts[0]).Some? {
      PopAllKeepsMarks(Pop(v, ts[0]).value, ts[1..]);
    }
  }

  lemma {:induction false} ElementMarkGrows(c: Context, v: VState, ops: seq<Op>)
    ensures var r := VisitAll(c, v, ops); r.Some? ==> v.maxElements <= r.value.maxElements
    decreases |ops|
  {
    if ops != [] && Visit(c, v, ops[0]).Some? {
      PopAllKeepsMarks(v, [I32, I32]);
      PopAllKeepsMarks(v, c.results);
      ElementMarkGrows(c, Visit(c, v, ops[0]).value, ops[1..]);
    }
  }

  lemma {:induction false} VisitAllAppend(c: Context, v: VState, a: seq<Op>, b: seq<Op>)
    ensures VisitAll(c, v, a + b)
         == (var r := VisitAll(c, v, a); if r.None? then None else VisitAll(c, r.value, b))
    decreases |a|
  {
    if a == [] {
      assert a + b == b;
    } else {
      assert (a + b)[1..] == a[1..] + b;
      if Visit(c, v, a[0]).Some? {
        VisitAllAppend(c, Visit(c, v, a[0]).value, a[1..], b);
      }
    }
  }

  /** The greatest operand depth over all prefixes of a run. */
  function Peak(ops: seq<Op>, s: Interpreter.State): nat
    decreases |ops|
  {
    if ops == [] then |s.stack| else MaxOf(|s.stack|, Peak(ops[1..], Interpreter.Step(ops[0], s)))
  }

  lemma {:induction false} PeakIsMaximum(ops: seq<Op>, s: Interpreter.State)
    ensures forall i :: 0 <= i <= |ops| ==> |Interpreter.Exec(ops[..i], s).stack| <= Peak(ops, s)
    ensures exists i :: 0 <= i <= |ops| && |Interpreter.Exec(ops[..i], s).stack| == Peak(ops, s)
    decreases |ops|
  {
    assert ops[..0] == [];
    if ops != [] {
      var s', rest := Interpreter.Step(ops[0], s), ops[1..];
      PeakIsMaximum(rest, s');
      forall i | 1 <= i <= |ops|
        ensures Interpreter.Exec(ops[..i], s) == Interpreter.Exec(rest[..i - 1], s')
      {
        assert ops[..i][0] == ops[0] && ops[..i][1..] == rest[..i - 1];
      }
      var j :| 0 <= j <= |rest| && |Interpreter.Exec(rest[..j], s').stack| == Peak(rest, s');
      assert Interpreter.Exec(ops[..j + 1], s) == Interpreter.Exec(rest[..j + 1 - 1], s');
    }
    assert Interpreter.Exec(ops[..0], s) == s;
  }

  /** Enabled instructions do not get stuck and change the depth as predicted. */
  lemma StepEnabled(meta: Metadata, op: Op, s: Interpreter.State)
    requires Enabled(meta, op, |s.stack|) && op != Return && s.mode.Running?
    requires |s.locals| == |meta.LocalTypes()|
    ensures var s' := Interpreter.Step(op, s);
      s'.mode.Running? && |s'.stack| == Depth(op, |s.stack|) && |s'.locals| == |s.locals|
  {
  }

  /** Accepted straight code: every visit is enabled, the interpreter never gets stuck, its depth is the
      validator's, and the mark is the peak. */
  lemma {:induction false} CoreRuns(c: Context, v: VState, ops: seq<Op>, meta: Metadata, s: Interpreter.State)
    requires Plain(v) && Supported(ops) && Return !in ops && meta.LocalTypes() == c.locals
    requires var r := VisitAll(c, v, ops);
      r.Some? && r.value.maxElements <= meta.maxStackElements && 4 * r.value.maxElements < TWO_64
    requires s.mode.Running? && |s.stack| == |v.stack| && |s.locals| == |c.locals|
    ensures AllEnabled(meta, ops, |v.stack|)
    ensures var v', s' := VisitAll(c, v, ops).value, Interpreter.Exec(ops, s);
      && Plain(v') && s'.mode.Running? && |s'.stack| == |v'.stack| && |s'.locals| == |c.locals|
      && v'.maxElements == MaxOf(v.maxElements, Peak(ops, s))
    decreases |ops|
  {
    BelowMark(v);
    if ops != [] {
      assert ops[0] in ops;
      assert Supported(ops[1..]) by {
        assert forall i :: 0 <= i < |ops| - 1 ==> ops[1..][i] == ops[i + 1];
      }
      var v1 := Visit(c, v, ops[0]).value;
      ElementMarkGrows(c, v1, ops[1..]);
      hide Visit, Plain, Enabled, Depth, Interpreter.Step;
      VisitPlain(c, v, ops[0], meta);
      StepEnabled(meta, ops[0], s);
      CoreRuns(c, v1, ops[1..], meta, Interpreter.Step(ops[0], s));
      PeakAtLeast(ops[1..], Interpreter.Step(ops[0], s));
    }
  }

  lemma PeakAtLeast(ops: seq<Op>, s: Interpreter.State)
    ensures Peak(ops, s) >= |s.stack|
  {
  }

  /** Acceptance, split at the first return: the part before it ends with exactly the results. With
      nothing after the return it has the marks of the whole body. */
  lemma AcceptedCore(c: Context, body: seq<Op>)
    requires Check(c, body).Some? && Supported(body) && 4 * Check(c, body).value.maxElements < TWO_64
    ensures var core := VisitAll(c, START, Core(body));
      && core.Some? && Plain(core.value)
      && core.value.stack == Reverse(c.results)
      && core.value.maxElements <= Check(c, body).value.maxElements
      && (Dead(body) == [] ==>
            && Check(c, body).value.maxElements == core.value.maxElements
            && Check(c, body).value.maxUsage == core.value.maxUsage)
  {
    var ops := Core(body);
    SplitAtReturn(body);
    VisitAllAppend(c, START, ops, Tail(body));
    var v := VisitAll(c, START, ops).value;
    FinalizeDescribes(c, v);
    TailVisited(c, v, body);
    hide Tail, Core, Dead, VisitAll, Finalize;
    var locals := seq(|c.locals|, _ => 0);
    CoreRuns(c, START, ops, Metadata(BlockType(c.locals, []), [], 0, v.maxElements),
             Interpreter.State(Interpreter.Running, [], locals));
  }

  lemma TailVisited(c: Context, v: VState, body: seq<Op>)
    requires var w := VisitAll(c, v, Tail(body)); w.Some? && Finalize(c, w.value).Some?
    ensures var f := Finalize(c, VisitAll(c, v, Tail(body)).value).value;
      && Finalize(c, v).Some? && v.maxElements <= f.maxElements
      && (Dead(body) == [] ==> f.maxElements == v.maxElements && f.maxUsage == v.maxUsage)
  {
    var w := VisitAll(c, v, Tail(body)).value;
    PopAllKeepsMarks(v, c.results);
    PopAllKeepsMarks(w, c.results);
    if Return in body {
      var r := Finalize(c, v).value.(unreachable := true);
      assert Tail(body)[1..] == Dead(body) && w == VisitAll(c, r, Dead(body)).value;
      ElementMarkGrows(c, r, Dead(body));
    }
  }

  /** A run that has returned or got stuck stays as it is. */
  lemma {:induction false} HaltedStays(ops: seq<Op>, s: Interpreter.State)
    requires !s.mode.Running?
    ensures Interpreter.Exec(ops, s) == s && Peak(ops, s) == |s.stack|
    decreases |ops|
  {
    if ops != [] {
      HaltedStays(ops[1..], s);
    }
  }

  lemma {:induction false} RunsOn(a: seq<Op>, b: seq<Op>, s: Interpreter.State)
    ensures var s' := Interpreter.Exec(a, s);
      && Interpreter.Exec(a + b, s) == Interpreter.Exec(b, s')
      && Peak(a + b, s) == MaxOf(Peak(a, s), Peak(b, s'))
    decreases |a|
  {
    if a == [] {
      assert a + b == b;
      PeakAtLeast(b, s);
    } else {
      assert (a + b)[1..] == a[1..] + b;
      RunsOn(a[1..], b, Interpreter.Step(a[0], s));
    }
  }

  /** The run of a body is the run of its core, then perhaps the return. */
  lemma CoreIsMeaning(body: seq<Op>, s: Interpreter.State)
    requires Interpreter.Exec(Core(body), s).mode.Running?
    ensures var s' := Interpreter.Exec(Core(body), s);
      && Interpreter.Exec(body, s) == (if Return in body then s'.(mode := Interpreter.Returned) else s')
      && Peak(body, s) == Peak(Core(body), s)
  {
    var s' := Interpreter.Exec(Core(body), s);
    SplitAtReturn(body);
    RunsOn(Core(body), Tail(body), s);
    PeakEnds(Core(body), s);
    if Return in body {
      assert Tail(body)[1..] == Dead(body);
      HaltedStays(Dead(body), s'.(mode := Interpreter.Returned));
    }
  }

  lemma {:induction false} PeakEnds(ops: seq<Op>, s: Interpreter.State)
    ensures Peak(ops, s) >= |Interpreter.Exec(ops, s).stack|
    decreases |ops|
  {
    if ops != [] {
      PeakEnds(ops[1..], Interpreter.Step(ops[0], s));
    }
  }

  /** For every accepted body, on any locals: the run never gets stuck, ends with exactly as many operands
      as results, and is never deeper than the element mark. With nothing after its return both marks are
      attained, in elements and in bytes. */
  lemma MarksAreMaxima(c: Context, body: seq<Op>, locals: seq<Word>)
    requires Check(c, body).Some? && Supported(body)
    requires 4 * Check(c, body).value.maxElements < TWO_64 && |locals| == |c.locals|
    ensures var v, s := Check(c, body).value, Interpreter.Exec(body, Interpreter.Initial(locals));
      && !s.mode.Stuck? && |s.stack| == |c.results|
      && (forall i :: 0 <= i <= |body| ==> |Interpreter.Exec(body[..i], Interpreter.Initial(locals)).stack| <= v.maxElements)
      && (Dead(body) == [] ==>
            && v.maxUsage == 4 * v.maxElements
            && exists i :: 0 <= i <= |body| && |Interpreter.Exec(body[..i], Interpreter.Initial(locals)).stack| == v.maxElements)
  {
    AcceptedCore(c, body);
    var ops, s0 := Core(body), Interpreter.Initial(locals);
    var v := VisitAll(c, START, ops).value;
    CoreRuns(c, START, ops, Metadata(BlockType(c.locals, []), [], 0, v.maxElements), s0);
    CoreIsMeaning(body, s0);
    PeakIsMaximum(body, s0);
    hide Check, VisitAll, Core, Dead, Interpreter.Exec, Supported;
  }

  /** After a return the byte counter is not a maximum: popping two phantoms takes 32 bytes off an empty
      stack, and the counter wraps. */
  lemma DeadCodeSpoilsByteMark()
    ensures var c, body := Context([I32], []), [Return, AddI32, SetLocalI32(0)];
      && Check(c, body).Some?
      && Check(c, body).value.maxElements == 1
      && Check(c, body).value.maxUsage == TWO_64 - 28
  {
    var c := Context([I32], []);
    var v1 := START.(unreachable := true);
    assert Visit(c, START, Return) == Some(v1);
    PopTwice(v1);
    var v2 := VState(true, [I32], TWO_64 - 28, 1, TWO_64 - 28);
    var p1, p2 := v1.(usage := TWO_64 - 16), v1.(usage := TWO_64 - 32);
    assert Pop(v1, I32) == Some(p1) && Pop(p1, I32) == Some(p2);
    assert [] + [I32] == [I32];
    assert Visit(c, v1, AddI32) == Some(v2);
    var v3 := v2.(stack := [], usage := TWO_64 - 32);
    assert Visit(c, v2, SetLocalI32(0)) == Some(v3);
    var body := [Return, AddI32, SetLocalI32(0)];
    assert body[1..] == [AddI32, SetLocalI32(0)] && body[1..][1..] == [SetLocalI32(0)];
    assert body[1..][1..][1..] == [];
    assert VisitAll(c, v2, [SetLocalI32(0)]) == Some(v3);
    assert VisitAll(c, v1, [AddI32, SetLocalI32(0)]) == Some(v3);
  }
}
