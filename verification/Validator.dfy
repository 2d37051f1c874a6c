/** The function validator: types of the operand stack, the polymorphic stack after a return, and the
    high-water marks that size the compiler's stack and frame. */
module Validator {
  import opened Wrappers
  import opened WasmCore

  /** What a pop can find: a concrete type, or the phantom under an exhausted unreachable stack. */
  datatype Actual = Concrete(vt: ValType) | Any

  function ActualBytes(a: Actual): nat {
    match a
    case Concrete(vt) => SizeBytes(vt)
    case Any => 16
  }

  datatype Context = Context(locals: seq<ValType>, results: seq<ValType>)

  /** Byte counters are unsigned 64-bit and wrap around. Only concrete types are ever pushed. */
  datatype VState = VState(
    unreachable: bool,
    stack: seq<ValType>,
    usage: Quad,
    maxElements: nat,
    maxUsage: Quad)

  const START := VState(false, [], 0, 0, 0)

  function MaxOf(a: nat, b: nat): nat {
    if a < b then b else a
  }

  function Pop(v: VState, expected: ValType): Option<VState> {
    if v.stack == [] && !v.unreachable then None else
    var n := |v.stack|;
    var actual := if n == 0 then Any else Concrete(v.stack[n - 1]);
    if actual != Any && actual != Concrete(expected) then None
    else Some(v.(stack := if n == 0 then [] else v.stack[..n - 1],
                 usage := (v.usage + TWO_64 - ActualBytes(actual)) % TWO_64))
  }

  function Push(v: VState, vt: ValType): VState {
    var usage := (v.usage + SizeBytes(vt)) % TWO_64;
    v.(stack := v.stack + [vt], usage := usage,
       maxElements := MaxOf(v.maxElements, |v.stack| + 1), maxUsage := MaxOf(v.maxUsage, usage))
  }

  predicate HasLocal(c: Context, i: nat, vt: ValType) {
    i < |c.locals| && c.locals[i] == vt
  }

  /** Pops in the order the types are listed. */
  function PopAll(v: VState, types: seq<ValType>): Option<VState>
    decreases |types|
  {
    if types == [] then Some(v)
    else
      var p := Pop(v, types[0]);
      if p.None? then None else PopAll(p.value, types[1..])
  }

  /** Pops the results and demands that nothing is left. */
  function Finalize(c: Context, v: VState): Option<VState> {
    var p := PopAll(v, c.results);
    if p.None? || p.value.stack != [] then None else p
  }

  function Visit(c: Context, v: VState, op: Op): Option<VState> {
    match op
    case ConstI32(_) => Some(Push(v, I32))
    case AddI32 =>
      var p := PopAll(v, [I32, I32]);
      if p.None? then None else Some(Push(p.value, I32))
    case GetLocalI32(i) => if HasLocal(c, i, I32) then Some(Push(v, I32)) else None
    case SetLocalI32(i) =>
      var p := Pop(v, I32);
      if p.None? || !HasLocal(c, i, I32) then None else p
    case Return =>
      var f := Finalize(c, v);
      if f.None? then None else Some(f.value.(unreachable := true))
    case Label(_) | Br(_) | BrIf(_, _) => Some(v)
  }

  function VisitAll(c: Context, v: VState, ops: seq<Op>): Option<VState>
    decreases |ops|
  {
    if ops == [] then Some(v)
    else
      var n := Visit(c, v, ops[0]);
      if n.None? then None else VisitAll(c, n.value, ops[1..])
  }

  /** Validation of a whole body: the final state, with its high-water marks. */
  function Check(c: Context, body: seq<Op>): Option<VState> {
    var v := VisitAll(c, START, body);
    if v.None? then None else Finalize(c, v.value)
  }

  function ContextOf(signature: BlockType, locals: seq<ValType>): Context {
    Context(signature.params + locals, signature.results)
  }

  /** The validator's methods answer `false` where the source throws, which ends the validation. */
  class FunctionValidator {
    const locals: seq<ValType>
    const results: seq<ValType>
    var unreachable: bool
    var underlying: seq<ValType>
    var currentMemoryUsage: Quad
    var maxStackSize: nat
    var maxMemoryUsage: Quad

    function Abs(): VState
      reads this
    {
      VState(unreachable, underlying, currentMemoryUsage, maxStackSize, maxMemoryUsage)
    }

    function Ctx(): Context {
      Context(locals, results)
    }

    constructor (signature: BlockType, locals: seq<ValType>)
      ensures Ctx() == ContextOf(signature, locals) && Abs() == START
    {
      this.locals := signature.params + locals;
      this.results := signature.results;
      unreachable := false;
      underlying := [];
      currentMemoryUsage, maxStackSize, maxMemoryUsage := 0, 0, 0;
    }

    method MaximumStackElements() returns (n: nat)
      ensures n == Abs().maxElements
    {
      n := maxStackSize;
    }

    method MaximumStackSizeBytes() returns (n: Quad)
      ensures n == Abs().maxUsage
    {
      n := maxMemoryUsage;
    }

    method PopType(expected: ValType) returns (ok: bool)
      modifies this
      ensures ok <==> Pop(old(Abs()), expected).Some?
      ensures ok ==> Abs() == Pop(old(Abs()), expected).value
    {
      var actual := Any;
      if underlying == [] {
        if !unreachable {
          return false;
        }
      } else {
        actual := Concrete(underlying[|underlying| - 1]);
        underlying := underlying[..|underlying| - 1];
      }
      currentMemoryUsage := (currentMemoryUsage + TWO_64 - ActualBytes(actual)) % TWO_64;
      ok := actual == Concrete(expected);
      if actual == Any {
        ok := true;
      }
    }

    method PushType(vt: ValType)
      modifies this
      ensures Abs() == Push(old(Abs()), vt)
    {
      underlying := underlying + [vt];
      currentMemoryUsage := (currentMemoryUsage + SizeBytes(vt)) % TWO_64;
      maxStackSize := MaxOf(maxStackSize, |underlying|);
      maxMemoryUsage := MaxOf(maxMemoryUsage, currentMemoryUsage);
    }

    /** The loop over the results shared by `Return` and the end of the body. */
    method PopResults() returns (ok: bool)
      modifies this
      ensures ok <==> PopAll(old(Abs()), results).Some?
      ensures ok ==> Abs() == PopAll(old(Abs()), results).value
    {
      for i := 0 to |results|
        invariant PopAll(old(Abs()), results) == PopAll(Abs(), results[i..])
      {
        var popped := PopType(results[i]);
        if !popped {
          return false;
        }
      }
      return true;
    }

    method FinalizeBody() returns (ok: bool)
      modifies this
      ensures ok <==> Finalize(Ctx(), old(Abs())).Some?
      ensures ok ==> Abs() == Finalize(Ctx(), old(Abs())).value
    {
      ok := PopResults();
      if ok && underlying != [] {
        ok := false;
      }
    }

    method VisitOp(op: Op) returns (ok: bool)
      modifies this
      ensures ok <==> Visit(Ctx(), old(Abs()), op).Some?
      ensures ok ==> Abs() == Visit(Ctx(), old(Abs()), op).value
    {
      ok := true;
      match op
      case ConstI32(_) => PushType(I32);
      case AddI32 =>
        ok := PopType(I32);
        if ok {
          ok := PopType(I32);
        }
        if ok {
          PushType(I32);
        }
      case GetLocalI32(i) =>
        ok := HasLocal(Ctx(), i, I32);
        if ok {
          PushType(I32);
        }
      case SetLocalI32(i) =>
        ok := PopType(I32);
        ok := ok && HasLocal(Ctx(), i, I32);
      case Return =>
        ok := FinalizeBody();
        if ok {
          unreachable := true;
        }
      case Label(_) =>
      case Br(_) =>
      case BrIf(_, _) =>
    }
  }
}
