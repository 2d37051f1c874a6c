/** What one visit of the one-pass compiler does to its compile-time state, and the code it emits.
    `None` stands for the undefined cases of the source: popping an empty stack, pushing past the
    fixed array, a local out of range, or the failed assertion in the register allocator. */
module CompilerSpec {
  import opened Wrappers
  import opened WasmCore
  import opened Machine
  import opened Registers
  import opened RuntimeStack
  import opened FunctionFrame

  /** The compile-time stack and register set afterwards, with the code emitted on the way. */
  datatype Out = Out(es: seq<Entry>, used: set<Reg>, code: seq<Instr>)

  datatype Taken = Taken(out: Out, reg: Reg)

  function StoreFrom(vt: ValType, off: int, src: Reg): Instr {
    if Is32Bit(vt) then Store32(off, src) else Store64(off, src)
  }

  function LoadTo(vt: ValType, dst: Reg, off: int): Instr {
    if Is32Bit(vt) then Load32(dst, off) else Load64(dst, off)
  }

  datatype SpillResult = SpillResult(es: seq<Entry>, held: Option<Reg>, code: seq<Instr>)

  /** The spill loop from the bottom of the stack up. Each entry that has a register is stored to its
      slot and exchanges its register with `held`. With `on` the loop never stops. */
  function Spill(es: seq<Entry>, held: Option<Reg>, on: bool): (r: SpillResult)
    ensures |r.es| == |es|
  {
    if es == [] then SpillResult([], held, [])
    else if es[0].reg.None? then
      var rest := Spill(es[1..], held, on);
      SpillResult([es[0]] + rest.es, rest.held, rest.code)
    else
      var store := StoreFrom(es[0].vt, es[0].slot, es[0].reg.value);
      var swapped := es[0].(reg := held);
      if !on then SpillResult([swapped] + es[1..], es[0].reg, [store])
      else
        var rest := Spill(es[1..], es[0].reg, on);
        SpillResult([swapped] + rest.es, rest.held, [store] + rest.code)
  }

  function Allocate(t: Target, es: seq<Entry>, used: set<Reg>): (r: Option<Taken>)
    ensures r.Some? ==> |r.value.out.es| == |es|
  {
    var free := FirstFree(t.callerSaved, used);
    if free.Some? then Some(Taken(Out(es, used + {free.value}, []), free.value))
    else
      var s := Spill(es, None, t.spillsOn);
      if s.held.Some? then Some(Taken(Out(s.es, used, s.code), s.held.value)) else None
  }

  /** `v` need not be on the stack: popped entries are handled the same way. */
  function Ensure(t: Target, es: seq<Entry>, used: set<Reg>, v: Entry): (r: Option<Taken>)
    ensures r.Some? ==> |r.value.out.es| == |es|
  {
    if v.reg.Some? then Some(Taken(Out(es, used, []), v.reg.value))
    else
      var a := Allocate(t, es, used);
      if a.None? then None
      else Some(a.value.(out := a.value.out.(code := a.value.out.code + [LoadTo(v.vt, a.value.reg, v.slot)])))
  }

  function PushI32(es: seq<Entry>): seq<Entry> {
    es + [Entry(TotalBytes(Types(es)) + 4, None, I32)]
  }

  function SetTop(es: seq<Entry>, r: Reg): seq<Entry>
    requires es != []
  {
    es[|es| - 1 := es[|es| - 1].(reg := Some(r))]
  }

  function Const(t: Target, meta: Metadata, es: seq<Entry>, used: set<Reg>, v: Word): Option<Out> {
    if |es| >= meta.maxStackElements then None else
    var pushed := PushI32(es);
    var a := Ensure(t, pushed, used, pushed[|es|]);
    if a.None? then None
    else
      var Taken(o, r) := a.value;
      Some(Out(SetTop(o.es, r), o.used, o.code + [MovImm(r, v)]))
  }

  function GetLocal(t: Target, meta: Metadata, es: seq<Entry>, used: set<Reg>, idx: nat): Option<Out> {
    if |es| >= meta.maxStackElements || idx >= |meta.LocalTypes()| then None else
    var a := Allocate(t, PushI32(es), used);
    if a.None? then None
    else
      var Taken(o, r) := a.value;
      Some(Out(SetTop(o.es, r), o.used, o.code + [Load32(r, SlotOffset(meta, idx))]))
  }

  function Add(t: Target, es: seq<Entry>, used: set<Reg>): Option<Out> {
    if |es| < 2 then None else
    var n := |es|;
    var a2 := Ensure(t, es[..n - 1], used, es[n - 1]);
    if a2.None? then None else
    var Taken(o2, r2) := a2.value;
    var a1 := Ensure(t, o2.es, o2.used, o2.es[n - 2]);
    if a1.None? then None else
    var Taken(o1, r1) := a1.value;
    var add := if t.addsCarry then Adc32(r1, r2) else Add32(r1, r2);
    Some(Out(SetTop(o1.es, r1), o1.used - {r2}, o2.code + o1.code + [add]))
  }

  function SetLocal(t: Target, meta: Metadata, es: seq<Entry>, used: set<Reg>, idx: nat): Option<Out> {
    if es == [] || idx >= |meta.LocalTypes()| then None else
    var n := |es|;
    var a := Ensure(t, es[..n - 1], used, es[n - 1]);
    if a.None? then None
    else
      var Taken(o, r) := a.value;
      Some(Out(o.es, o.used - {r}, o.code + [SetLocalInstr(t, SlotOffset(meta, idx), r)]))
  }

  function SetLocalInstr(t: Target, off: int, r: Reg): Instr {
    match t.setLocal
    case StoreWord => Store32(off, r)
    case StorePair => Store64(off, r)
    case LoadPair => Load64(r, off)
  }

  function CompileOp(t: Target, meta: Metadata, es: seq<Entry>, used: set<Reg>, op: Op): Option<Out> {
    match op
    case ConstI32(v) => Const(t, meta, es, used, v)
    case AddI32 => Add(t, es, used)
    case GetLocalI32(i) => GetLocal(t, meta, es, used, i)
    case SetLocalI32(i) => SetLocal(t, meta, es, used, i)
    case Return => Some(Out(es, used, [JmpExit]))
    case Label(_) | Br(_) | BrIf(_, _) => Some(Out(es, used, []))
  }

  function CompileOps(t: Target, meta: Metadata, es: seq<Entry>, used: set<Reg>, ops: seq<Op>): Option<Out>
    decreases |ops|
  {
    if ops == [] then Some(Out(es, used, []))
    else
      var first := CompileOp(t, meta, es, used, ops[0]);
      if first.None? then None else
      var rest := CompileOps(t, meta, first.value.es, first.value.used, ops[1..]);
      if rest.None? then None
      else Some(rest.value.(code := first.value.code + rest.value.code))
  }

  /** The stores of the first `n` parameters to their local slots. */
  function SaveParams(t: Target, meta: Metadata, n: nat): seq<Instr>
    requires n <= |meta.signature.params| <= |t.args|
  {
    if n == 0 then [] else
    var store := StoreFrom(meta.signature.params[n - 1], SlotOffset(meta, n - 1), t.args[n - 1]);
    SaveParams(t, meta, n - 1) + [store]
  }

  function Prologue(t: Target, meta: Metadata): seq<Instr>
    requires |meta.signature.params| <= |t.args|
  {
    [SubSp(FrameBytes(meta))] + SaveParams(t, meta, |meta.signature.params|)
  }

  /** Move the result into the return register unless it is there at the same width. */
  function MoveResult(t: Target, result: ValType, vt: ValType, r: Reg): seq<Instr> {
    if r == t.ret && Is32Bit(result) == Is32Bit(vt) then []
    else [if Is32Bit(result) then Mov32(t.ret, r) else Mov64(t.ret, r)]
  }

  function Epilogue(t: Target, meta: Metadata, es: seq<Entry>, used: set<Reg>): Option<Out> {
    var leave := [AddSp(FrameBytes(meta)), Ret];
    if meta.signature.results == [] then Some(Out(es, used, [BindExit] + leave))
    else if es == [] then None
    else
      var v := es[|es| - 1];
      var a := Ensure(t, es[..|es| - 1], used, v);
      if a.None? then None
      else
        var Taken(o, r) := a.value;
        Some(Out(o.es, o.used,
                 [BindExit] + o.code + MoveResult(t, meta.signature.results[0], v.vt, r) + leave))
  }

  function CompileFunction(t: Target, meta: Metadata, body: seq<Op>): Option<seq<Instr>>
    requires |meta.signature.params| <= |t.args|
  {
    var ops := CompileOps(t, meta, [], {}, body);
    if ops.None? then None else
    var epi := Epilogue(t, meta, ops.value.es, ops.value.used);
    if epi.None? then None
    else Some(Prologue(t, meta) + ops.value.code + epi.value.code)
  }
}
