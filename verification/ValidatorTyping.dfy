/** The validator against a declarative typing of instruction sequences. */
module ValidatorTyping {
  import opened WasmCore
  import opened Validator

  function Reverse(ts: seq<ValType>): (r: seq<ValType>)
    ensures |r| == |ts|
    ensures |ts| <= 1 ==> r == ts
  {
    if ts == [] then [] else Reverse(ts[1..]) + [ts[0]]
  }

  /** One instruction takes the stack `s` to the stack `s'`. After a return any stack will do; before it
      there are the results and nothing else, with the first listed result on top, as the validator pops
      them. */
  ghost predicate OpTyped(c: Context, op: Op, s: seq<ValType>, s': seq<ValType>) {
    var n := |s|;
    match op
    case ConstI32(_) => s' == s + [I32]
    case AddI32 => n >= 2 && s[n - 2] == I32 && s[n - 1] == I32 && s' == s[..n - 2] + [I32]
    case GetLocalI32(i) => i < |c.locals| && c.locals[i] == I32 && s' == s + [I32]
    case SetLocalI32(i) => i < |c.locals| && c.locals[i] == I32 && s == s' + [I32]
    case Return => s == Reverse(c.results)
    case Label(_) | Br(_) | BrIf(_, _) => s' == s
  }

  ghost predicate Typed(c: Context, ops: seq<Op>, s: seq<ValType>, out: seq<ValType>)
    decreases |ops|
  {
    if ops == [] then s == out
    else exists s' :: OpTyped(c, ops[0], s, s') && Typed(c, ops[1..], s', out)
  }

  /** The concrete stacks a validator state stands for: after a return, anything may lie below. */
  ghost predicate Describes(v: VState, s: seq<ValType>) {
    if v.unreachable then |v.stack| <= |s| && s[|s| - |v.stack|..] == v.stack else s == v.stack
  }

  lemma PopDescribes(v: VState, t: ValType, s: seq<ValType>)
    ensures Describes(v, s + [t]) <==> Pop(v, t).Some? && Describes(Pop(v, t).value, s)
  {
    var st, n := s + [t], |v.stack|;
    if n > 0 {
      assert v.stack == v.stack[..n - 1] + [v.stack[n - 1]];
      if n <= |st| {
        assert st[|st| - n..] == s[|s| - (n - 1)..] + [t];
      }
      if Describes(v, st) {
        assert v.stack[n - 1] == t;
      }
    }
  }

  lemma PushDescribes(v: VState, t: ValType, s: seq<ValType>)
    ensures Describes(Push(v, t), s) ==> s != [] && s[|s| - 1] == t && Describes(v, s[..|s| - 1])
    ensures Describes(v, s) ==> Describes(Push(v, t), s + [t])
  {
    var n := |v.stack|;
    if Describes(Push(v, t), s) {
      var full := v.stack + [t];
      assert s[|s| - (n + 1)..] == full;
      assert s[|s| - 1] == full[n];
      assert s[..|s| - 1][|s| - 1 - n..] == full[..n];
    }
    if Describes(v, s) && v.unreachable {
      assert (s + [t])[|s| + 1 - (n + 1)..] == s[|s| - n..] + [t];
    }
  }

  lemma {:induction false} PopAllDescribes(v: VState, ts: seq<ValType>, s: seq<ValType>)
    ensures Describes(v, s + Reverse(ts)) <==> PopAll(v, ts).Some? && Describes(PopAll(v, ts).value, s)
    decreases |ts|
  {
    if ts == [] {
      assert s + Reverse(ts) == s;
    } else {
      var rest := s + Reverse(ts[1..]);
      assert s + Reverse(ts) == rest + [ts[0]];
      PopDescribes(v, ts[0], rest);
      if Pop(v, ts[0]).Some? {
        PopAllDescribes(Pop(v, ts[0]).value, ts[1..], s);
      }
    }
  }

  lemma FinalizeDescribes(c: Context, v: VState)
    ensures Finalize(c, v).Some? <==> Describes(v, Reverse(c.results))
  {
    PopAllDescribes(v, c.results, []);
    assert [] + Reverse(c.results) == Reverse(c.results);
  }

  lemma TwoWords()
    ensures Reverse([I32, I32]) == [I32, I32]
  {
    assert [I32, I32][1..] == [I32] && [I32][1..] == [];
  }

  lemma ReturnVisited(c: Context, v: VState, s': seq<ValType>)
    ensures Finalize(c, v).Some? ==> Visit(c, v, Return).Some? && Describes(Visit(c, v, Return).value, s')
  {
  }

  /** Every typed step from a described stack is accepted, and leads to a described stack. */
  lemma VisitComplete(c: Context, v: VState, op: Op, s: seq<ValType>, s': seq<ValType>)
    requires Describes(v, s) && OpTyped(c, op, s, s')
    ensures Visit(c, v, op).Some? && Describes(Visit(c, v, op).value, s')
  {
    hide Describes, Pop, Push, PopAll, Finalize, Reverse;
    match op
    case ConstI32(_) => PushDescribes(v, I32, s);
    case GetLocalI32(_) => PushDescribes(v, I32, s);
    case AddI32 =>
      var rest := s[..|s| - 2];
      TwoWords();
      assert s == rest + [I32, I32];
      PopAllDescribes(v, [I32, I32], rest);
      PushDescribes(PopAll(v, [I32, I32]).value, I32, rest);
    case SetLocalI32(_) => PopDescribes(v, I32, s');
    case Return =>
      FinalizeDescribes(c, v);
      ReturnVisited(c, v, s');
    case _ =>
  }

  /** Every described stack after an accepted step has a described predecessor. */
  lemma VisitSound(c: Context, v: VState, op: Op, s': seq<ValType>) returns (s: seq<ValType>)
    requires Visit(c, v, op).Some? && Describes(Visit(c, v, op).value, s')
    ensures Describes(v, s) && OpTyped(c, op, s, s')
  {
    hide Describes, Pop, Push, PopAll, Finalize, Reverse;
    match op
    case ConstI32(_) =>
      PushDescribes(v, I32, s');
      s := s'[..|s'| - 1];
    case GetLocalI32(_) =>
      PushDescribes(v, I32, s');
      s := s'[..|s'| - 1];
    case AddI32 =>
      var p := PopAll(v, [I32, I32]).value;
      PushDescribes(p, I32, s');
      var rest := s'[..|s'| - 1];
      PopAllDescribes(v, [I32, I32], rest);
      s := rest + [I32, I32];
      TwoWords();
      assert s[..|s| - 2] == rest;
    case SetLocalI32(_) =>
      PopDescribes(v, I32, s');
      s := s' + [I32];
    case Return =>
      FinalizeDescribes(c, v);
      s := Reverse(c.results);
    case _ =>
      s := s';
  }

  lemma {:induction false} AllComplete(c: Context, v: VState, ops: seq<Op>, s: seq<ValType>)
    requires Describes(v, s) && Typed(c, ops, s, Reverse(c.results))
    ensures VisitAll(c, v, ops).Some? && Finalize(c, VisitAll(c, v, ops).value).Some?
    decreases |ops|
  {
    if ops == [] {
      FinalizeDescribes(c, v);
    } else {
      var s' :| OpTyped(c, ops[0], s, s') && Typed(c, ops[1..], s', Reverse(c.results));
      VisitComplete(c, v, ops[0], s, s');
      AllComplete(c, Visit(c, v, ops[0]).value, ops[1..], s');
    }
  }

  lemma {:induction false} AllSound(c: Context, v: VState, ops: seq<Op>) returns (s: seq<ValType>)
    requires VisitAll(c, v, ops).Some? && Finalize(c, VisitAll(c, v, ops).value).Some?
    ensures Describes(v, s) && Typed(c, ops, s, Reverse(c.results))
    decreases |ops|
  {
    if ops == [] {
      FinalizeDescribes(c, v);
      s := Reverse(c.results);
    } else {
      var s' := AllSound(c, Visit(c, v, ops[0]).value, ops[1..]);
      s := VisitSound(c, v, ops[0], s');
    }
  }

  /** The validator accepts a body if and only if the body has a typing derivation from the empty stack
      to the results. */
  lemma AcceptsIffTyped(c: Context, body: seq<Op>)
    ensures Check(c, body).Some? <==> Typed(c, body, [], Reverse(c.results))
  {
    if Check(c, body).Some? {
      var s := AllSound(c, START, body);
    }
    if Typed(c, body, [], Reverse(c.results)) {
      AllComplete(c, START, body, []);
    }
  }
}
