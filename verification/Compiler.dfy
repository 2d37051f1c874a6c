/** The one-pass compiler as the sources write it: an object that visits instructions, updating its
    compile-time stack and register tracker in place and appending to its code buffer. Each visit is
    proved against the specification of the same name. */
module Compiler {
  import opened Wrappers
  import opened WasmCore
  import opened Machine
  import opened Registers
  import RuntimeStack
  import FunctionFrame
  import Spec = CompilerSpec
  import Run = CompilerRun

  /** The spill loop after `i` entries: what it has done, followed by what is left to do. */
  ghost predicate SpilledTo(es0: seq<RuntimeStack.Entry>, on: bool, i: nat,
                            es: seq<RuntimeStack.Entry>, held: Option<Reg>, emitted: seq<Instr>) {
    && i <= |es0| == |es| && es[i..] == es0[i..]
    && var rest := Spec.Spill(es0[i..], held, on);
       Spec.Spill(es0, None, on) == Spec.SpillResult(es[..i] + rest.es, rest.held, emitted + rest.code)
  }

  lemma SpillStep(es0: seq<RuntimeStack.Entry>, on: bool, i: nat,
                  es: seq<RuntimeStack.Entry>, held: Option<Reg>, emitted: seq<Instr>)
    requires SpilledTo(es0, on, i, es, held, emitted) && i < |es|
    ensures es[i].reg.None? ==> SpilledTo(es0, on, i + 1, es, held, emitted)
    ensures es[i].reg.Some? ==>
      var es' := es[i := es[i].(reg := held)];
      var emitted' := emitted + [Spec.StoreFrom(es[i].vt, es[i].slot, es[i].reg.value)];
      if on then SpilledTo(es0, on, i + 1, es', es[i].reg, emitted')
      else Spec.Spill(es0, None, on) == Spec.SpillResult(es', es[i].reg, emitted')
  {
    var v, tail := es[i], es0[i + 1..];
    assert es0[i..] == [v] + tail && es[i + 1..] == tail;
    SpillCons(v, tail, held, on);
    hide Spec.Spill, Spec.StoreFrom;
    var rest := Spec.Spill(es0[i..], held, on);
    var all := Spec.Spill(es0, None, on);
    if v.reg.None? {
      var next := Spec.Spill(tail, held, on);
      SkipEntry(es, i, next.es);
      assert all == Spec.SpillResult(es[..i + 1] + next.es, next.held, emitted + next.code);
    } else {
      var store := [Spec.StoreFrom(v.vt, v.slot, v.reg.value)];
      var es' := es[i := v.(reg := held)];
      assert es'[i + 1..] == tail;
      if on {
        var next := Spec.Spill(tail, v.reg, on);
        SwapEntry(es, i, v.(reg := held), next.es);
        assert emitted + (store + next.code) == emitted + store + next.code;
        assert all == Spec.SpillResult(es'[..i + 1] + next.es, next.held, emitted + store + next.code);
      } else {
        SwapEntry(es, i, v.(reg := held), tail);
        assert es'[..i + 1] + tail == es';
      }
    }
  }

  lemma SkipEntry(es: seq<RuntimeStack.Entry>, i: nat, rest: seq<RuntimeStack.Entry>)
    requires i < |es|
    ensures es[..i] + ([es[i]] + rest) == es[..i + 1] + rest
  {
  }

  lemma SwapEntry(es: seq<RuntimeStack.Entry>, i: nat, v: RuntimeStack.Entry, rest: seq<RuntimeStack.Entry>)
    requires i < |es|
    ensures es[..i] + ([v] + rest) == es[i := v][..i + 1] + rest
  {
  }

  /** One turn of the pass. */
  lemma SpillCons(v: RuntimeStack.Entry, tail: seq<RuntimeStack.Entry>, held: Option<Reg>, on: bool)
    ensures var r := Spec.Spill([v] + tail, held, on);
      if v.reg.None? then
        var rest := Spec.Spill(tail, held, on);
        r == Spec.SpillResult([v] + rest.es, rest.held, rest.code)
      else
        var store := [Spec.StoreFrom(v.vt, v.slot, v.reg.value)];
        if !on then r == Spec.SpillResult([v.(reg := held)] + tail, v.reg, store)
        else
          var rest := Spec.Spill(tail, v.reg, on);
          r == Spec.SpillResult([v.(reg := held)] + rest.es, rest.held, store + rest.code)
  {
    assert ([v] + tail)[0] == v && ([v] + tail)[1..] == tail;
  }

  lemma SpillEnds(es0: seq<RuntimeStack.Entry>, on: bool, es: seq<RuntimeStack.Entry>, held: Option<Reg>,
                  emitted: seq<Instr>)
    ensures SpilledTo(es0, on, 0, es0, None, [])
    ensures SpilledTo(es0, on, |es0|, es, held, emitted) ==>
      Spec.Spill(es0, None, on) == Spec.SpillResult(es, held, emitted)
  {
    assert es0[0..] == es0 && es0[|es0|..] == [];
    var all := Spec.Spill(es0, None, on);
    assert es0[..0] + all.es == all.es && [] + all.code == all.code;
    if SpilledTo(es0, on, |es0|, es, held, emitted) {
      assert es[..|es0|] + [] == es && emitted + [] == emitted;
    }
  }

  class Compiler {
    const target: Target
    const meta: Metadata
    const regTracker: RegisterTracker
    const stack: RuntimeStack.RuntimeStack
    const frame: FunctionFrame.Frame
    var code: seq<Instr>

    ghost predicate Valid()
      reads stack, stack.stack, frame, frame.localsStackOffset
    {
      && stack.Valid() && frame.Valid() && frame.meta == meta
      && stack.stack.Length == meta.maxStackElements
      && Members(regTracker.callerSaved) == target.callerSaved
    }

    ghost function Es(): seq<RuntimeStack.Entry>
      requires stack.stackSize <= stack.stack.Length
      reads stack, stack.stack
    {
      stack.Contents()
    }

    ghost function Used(): set<Reg>
      reads regTracker
    {
      regTracker.Used()
    }

    /** The state after emitting what `o` says. */
    twostate predicate Did(o: Spec.Out)
      reads this, regTracker, stack, stack.stack, frame, frame.localsStackOffset
    {
      Valid() && Es() == o.es && Used() == o.used && code == old(code) + o.code
    }

    /** The assembler attaches to a code holder and appends to what is in it. */
    constructor (target: Target, meta: Metadata, holder: seq<Instr>)
      ensures Valid() && this.target == target && this.meta == meta
      ensures Es() == [] && Used() == {} && code == holder
      ensures fresh(regTracker) && fresh(stack) && fresh(stack.stack) && fresh(frame) && fresh(frame.localsStackOffset)
    {
      this.target := target;
      this.meta := meta;
      regTracker := new RegisterTracker(MaskOf(target.callerSaved));
      stack := new RuntimeStack.RuntimeStack(meta.maxStackElements);
      frame := new FunctionFrame.Frame(meta);
      code := holder;
    }

    method Emit(i: Instr)
      modifies this`code
      ensures code == old(code) + [i]
    {
      code := code + [i];
    }

    /** The spill loop over the stack from the bottom; in the sources it has no `break` (`spillsOn`). */
    method SpillForRegister() returns (reg: Option<Reg>)
      requires Valid()
      modifies this`code, stack.stack
      ensures var s := Spec.Spill(old(Es()), None, target.spillsOn);
        reg == s.held && Valid() && Es() == s.es && code == old(code) + s.code
    {
      hide Spec.Spill, SpilledTo;
      reg := None;
      ghost var es0, code0, emitted := Es(), code, [];
      SpillEnds(es0, target.spillsOn, [], None, []);
      var i := 0;
      while i < stack.stackSize
        invariant Valid() && i <= stack.stackSize == |es0| && code == code0 + emitted
        invariant SpilledTo(es0, target.spillsOn, i, Es(), reg, emitted)
      {
        var v := stack.stack[i];
        SpillStep(es0, target.spillsOn, i, Es(), reg, emitted);
        if v.reg.Some? {
          stack.SetRegister(i, reg);
          reg := v.reg;
          var store := Spec.StoreFrom(v.vt, v.slot, v.reg.value);
          Emit(store);
          emitted := emitted + [store];
          if !target.spillsOn {
            return;
          }
        }
        i := i + 1;
      }
      SpillEnds(es0, target.spillsOn, Es(), reg, emitted);
    }

    /** A free register, or else one that the spill loop has emptied. */
    method AllocateRegister() returns (r: Reg)
      requires Valid() && Spec.Allocate(target, Es(), Used()).Some?
      modifies this`code, regTracker, stack.stack
      ensures Spec.Allocate(target, old(Es()), old(Used())).value.reg == r
      ensures Did(Spec.Allocate(target, old(Es()), old(Used())).value.out)
    {
      var reg := regTracker.TakeUnusedRegister();
      if reg.None? {
        reg := SpillForRegister();
      }
      return reg.value;
    }

    /** `v` is an entry of the stack or a popped copy; the caller writes its register back. */
    method EnsureInRegister(v: RuntimeStack.Entry) returns (r: Reg)
      requires Valid() && Spec.Ensure(target, Es(), Used(), v).Some?
      modifies this`code, regTracker, stack.stack
      ensures Spec.Ensure(target, old(Es()), old(Used()), v).value.reg == r
      ensures Did(Spec.Ensure(target, old(Es()), old(Used()), v).value.out)
    {
      hide Spec.Allocate;
      if v.reg.None? {
        r := AllocateRegister();
        Emit(Spec.LoadTo(v.vt, r, v.slot));
      } else {
        r := v.reg.value;
      }
    }

    method PushI32()
      requires Valid() && stack.stackSize < stack.stack.Length
      modifies stack, stack.stack
      ensures Valid() && Es() == Spec.PushI32(old(Es()))
    {
      stack.Push(RuntimeStack.Entry(0, None, I32));
    }

    method SetTop(r: Reg)
      requires Valid() && stack.stackSize > 0
      modifies stack.stack
      ensures Valid() && Es() == Spec.SetTop(old(Es()), r)
    {
      stack.SetRegister(stack.stackSize - 1, Some(r));
    }

    /** Reloads the top entry through the pointer that `Peek` returns. */
    method TopIntoRegister() returns (r: Reg)
      requires Valid() && Es() != [] && Spec.Ensure(target, Es(), Used(), Es()[|Es()| - 1]).Some?
      modifies this`code, regTracker, stack.stack
      ensures var a := Spec.Ensure(target, old(Es()), old(Used()), old(Es())[|old(Es())| - 1]).value;
        r == a.reg && Did(a.out.(es := Spec.SetTop(a.out.es, r)))
    {
      hide Spec.Ensure;
      var top := stack.Peek();
      r := EnsureInRegister(top);
      SetTop(r);
    }

    method PopIntoRegister() returns (v: RuntimeStack.Entry, r: Reg)
      requires Valid() && Es() != []
      requires Spec.Ensure(target, Es()[..|Es()| - 1], Used(), Es()[|Es()| - 1]).Some?
      modifies this`code, regTracker, stack, stack.stack
      ensures v == old(Es())[|old(Es())| - 1]
      ensures var a := Spec.Ensure(target, old(Es())[..|old(Es())| - 1], old(Used()), v).value;
        r == a.reg && Did(a.out)
    {
      hide Spec.Ensure;
      ghost var es0 := Es();
      v := stack.Pop();
      assert Es() == es0[..|es0| - 1];
      r := EnsureInRegister(v);
    }

    method ConstI32(value: Word)
      requires Valid() && Spec.Const(target, meta, Es(), Used(), value).Some?
      modifies this`code, regTracker, stack, stack.stack
      ensures Did(Spec.Const(target, meta, old(Es()), old(Used()), value).value)
    {
      hide Spec.Ensure;
      PushI32();
      var r := TopIntoRegister();
      Emit(MovImm(r, value));
    }

    method AddI32()
      requires Valid() && Spec.Add(target, Es(), Used()).Some?
      modifies this`code, regTracker, stack, stack.stack
      ensures Did(Spec.Add(target, old(Es()), old(Used())).value)
    {
      hide Spec.Ensure;
      var _, r2 := PopIntoRegister();
      var r1 := TopIntoRegister();
      Emit(if target.addsCarry then Adc32(r1, r2) else Add32(r1, r2));
      regTracker.MarkRegisterUnused(r2);
    }

    method GetLocalI32(idx: nat)
      requires Valid() && Spec.GetLocal(target, meta, Es(), Used(), idx).Some?
      modifies this`code, regTracker, stack, stack.stack
      ensures Did(Spec.GetLocal(target, meta, old(Es()), old(Used()), idx).value)
    {
      PushI32();
      var r := AllocateRegister();
      SetTop(r);
      var offset := frame.LocalStackOffset(idx);
      Emit(Load32(r, offset));
    }

    method SetLocalI32(idx: nat)
      requires Valid() && Spec.SetLocal(target, meta, Es(), Used(), idx).Some?
      modifies this`code, regTracker, stack, stack.stack
      ensures Did(Spec.SetLocal(target, meta, old(Es()), old(Used()), idx).value)
    {
      hide Spec.Ensure;
      var _, r := PopIntoRegister();
      var offset := frame.LocalStackOffset(idx);
      Emit(Spec.SetLocalInstr(target, offset, r));
      regTracker.MarkRegisterUnused(r);
    }

    method VisitOp(op: Op)
      requires Valid() && Spec.CompileOp(target, meta, Es(), Used(), op).Some?
      modifies this`code, regTracker, stack, stack.stack
      ensures Did(Spec.CompileOp(target, meta, old(Es()), old(Used()), op).value)
    {
      match op
      case ConstI32(v) => ConstI32(v);
      case AddI32 => AddI32();
      case GetLocalI32(i) => GetLocalI32(i);
      case SetLocalI32(i) => SetLocalI32(i);
      case Return => Emit(JmpExit);
      case Label(_) =>
      case Br(_) =>
      case BrIf(_, _) =>
    }

    /** One visit per instruction, in order. */
    method VisitBody(body: seq<Op>)
      requires Valid() && Spec.CompileOps(target, meta, Es(), Used(), body).Some?
      modifies this`code, regTracker, stack, stack.stack
      ensures Did(Spec.CompileOps(target, meta, old(Es()), old(Used()), body).value)
    {
      hide Spec.CompileOp, Spec.CompileOps, StillToDo, Valid;
      InBounds();
      ghost var pro, emitted, ops := code, [], Spec.CompileOps(target, meta, Es(), Used(), body).value;
      VisitsStart(target, meta, Es(), Used(), body);
      assert body[0..] == body;
      for i := 0 to |body|
        invariant Valid() && stack.stackSize <= stack.stack.Length && code == pro + emitted
        invariant StillToDo(target, meta, Es(), Used(), body[i..], emitted, ops)
      {
        VisitNext(target, meta, Es(), Used(), body[i..], emitted, ops);
        assert body[i..][0] == body[i] && body[i..][1..] == body[i + 1..];
        emitted := emitted + Spec.CompileOp(target, meta, Es(), Used(), body[i]).value.code;
        VisitOp(body[i]);
        InBounds();
      }
      VisitsDone(target, meta, Es(), Used(), emitted, ops);
      assert body[|body|..] == [];
    }

    lemma InBounds()
      requires Valid()
      ensures stack.stackSize <= stack.stack.Length
    {
    }

    method Prologue()
      requires Valid() && |meta.signature.params| <= |target.args|
      modifies this`code
      ensures Valid() && code == old(code) + Spec.Prologue(target, meta)
    {
      var size := frame.StackSizeBytes();
      Emit(SubSp(size));
      ghost var code0 := code;
      for i := 0 to |meta.signature.params|
        invariant Valid() && code == code0 + Spec.SaveParams(target, meta, i)
      {
        var offset := frame.LocalStackOffset(i);
        Emit(Spec.StoreFrom(meta.signature.params[i], offset, target.args[i]));
      }
    }

    method Epilogue()
      requires Valid() && Spec.Epilogue(target, meta, Es(), Used()).Some?
      modifies this`code, regTracker, stack, stack.stack
      ensures Did(Spec.Epilogue(target, meta, old(Es()), old(Used())).value)
    {
      hide Spec.Ensure, Spec.MoveResult, FunctionFrame.FrameBytes;
      Emit(BindExit);
      if meta.signature.results != [] {
        var v, r := PopIntoRegister();
        MoveToReturn(meta.signature.results[0], v.vt, r);
      }
      Leave();
    }

    method Leave()
      requires frame.Valid() && frame.meta == meta
      modifies this`code
      ensures code == old(code) + [AddSp(FunctionFrame.FrameBytes(meta)), Ret]
    {
      var size := frame.StackSizeBytes();
      Emit(AddSp(size));
      Emit(Ret);
    }

    method MoveToReturn(result: ValType, vt: ValType, r: Reg)
      modifies this`code
      ensures code == old(code) + Spec.MoveResult(target, result, vt, r)
    {
      if r != target.ret || Is32Bit(result) != Is32Bit(vt) {
        Emit(if Is32Bit(result) then Mov32(target.ret, r) else Mov64(target.ret, r));
      }
    }
  }

  /** The driver: prologue, one visit per instruction, epilogue, all behind what the code holder has. */
  method Compile(target: Target, meta: Metadata, body: seq<Op>, holder: seq<Instr>) returns (code: seq<Instr>)
    requires |meta.signature.params| <= |target.args| && Spec.CompileFunction(target, meta, body).Some?
    ensures code == holder + Spec.CompileFunction(target, meta, body).value
  {
    hide Spec.Prologue, Spec.Epilogue, Spec.CompileOps;
    var compiler := new Compiler(target, meta, holder);
    compiler.Prologue();
    compiler.VisitBody(body);
    compiler.Epilogue();
    code := compiler.code;
    var ops := Spec.CompileOps(target, meta, [], {}, body).value;
    InOrder(holder, Spec.Prologue(target, meta), ops.code,
            Spec.Epilogue(target, meta, ops.es, ops.used).value.code);
  }

  lemma InOrder(a: seq<Instr>, b: seq<Instr>, c: seq<Instr>, d: seq<Instr>)
    ensures a + b + c + d == a + (b + c + d)
  {
  }

  /** The remaining visits, after what has been emitted, make up the whole body. */
  ghost predicate StillToDo(t: Target, meta: Metadata, es: seq<RuntimeStack.Entry>, used: set<Reg>,
                            todo: seq<Op>, emitted: seq<Instr>, ops: Spec.Out) {
    var rest := Spec.CompileOps(t, meta, es, used, todo);
    rest.Some? && Spec.Out(rest.value.es, rest.value.used, emitted + rest.value.code) == ops
  }

  lemma VisitsStart(t: Target, meta: Metadata, es: seq<RuntimeStack.Entry>, used: set<Reg>, body: seq<Op>)
    ensures var all := Spec.CompileOps(t, meta, es, used, body);
      all.Some? ==> StillToDo(t, meta, es, used, body, [], all.value)
  {
    var all := Spec.CompileOps(t, meta, es, used, body);
    if all.Some? {
      assert [] + all.value.code == all.value.code;
    }
  }

  lemma VisitNext(t: Target, meta: Metadata, es: seq<RuntimeStack.Entry>, used: set<Reg>,
                  todo: seq<Op>, emitted: seq<Instr>, ops: Spec.Out)
    requires StillToDo(t, meta, es, used, todo, emitted, ops) && todo != []
    ensures var o := Spec.CompileOp(t, meta, es, used, todo[0]);
      o.Some? && StillToDo(t, meta, o.value.es, o.value.used, todo[1..], emitted + o.value.code, ops)
  {
    hide Spec.CompileOp;
    var o := Spec.CompileOp(t, meta, es, used, todo[0]).value;
    var rest := Spec.CompileOps(t, meta, o.es, o.used, todo[1..]).value;
    assert emitted + (o.code + rest.code) == emitted + o.code + rest.code;
  }

  lemma VisitsDone(t: Target, meta: Metadata, es: seq<RuntimeStack.Entry>, used: set<Reg>,
                   emitted: seq<Instr>, ops: Spec.Out)
    ensures StillToDo(t, meta, es, used, [], emitted, ops) ==> ops == Spec.Out(es, used, emitted)
  {
    assert emitted + [] == emitted;
  }

  /** Compiling a function the validator has accepted never meets an undefined case if its depths fit; every
      call of the code keeps the calling convention, and returns the meaning of the body unless one of the
      target's departures does harm on the way or code behind a return moves the place of the result. */
  method CompileAccepted(target: Target, meta: Metadata, body: seq<Op>) returns (code: seq<Instr>)
    requires target.WellFormed() && Run.Compilable(meta, body)
    ensures forall m0: State :: Run.KeepsConvention(target, meta, code, m0)
    ensures forall m0: State ::
      (target.Corrected() || Run.Unharmed(target, meta, body, m0)) && Run.ExitKept(target, meta, body) ==>
        Run.ReturnsMeaning(target, meta, body, code, m0)
  {
    hide *;
    forall m0: State
      ensures |meta.signature.params| <= |target.args| && Spec.CompileFunction(target, meta, body).Some?
      ensures Run.KeepsConvention(target, meta, Spec.CompileFunction(target, meta, body).value, m0)
      ensures (target.Corrected() || Run.Unharmed(target, meta, body, m0)) && Run.ExitKept(target, meta, body) ==>
        Run.ReturnsMeaning(target, meta, body, Spec.CompileFunction(target, meta, body).value, m0)
    {
      Run.CallIsRight(target, meta, body, m0);
    }
    Run.CallIsRight(target, meta, body, BLANK);
    code := Compile(target, meta, body, []);
    assert [] + Spec.CompileFunction(target, meta, body).value == Spec.CompileFunction(target, meta, body).value;
  }
}
