/** Value types, instructions and function metadata shared by the parser, the validator and the
    compiler, with the plain stack-machine meaning of a function body. */
module WasmCore {
  const TWO_32 := 0x1_0000_0000
  const TWO_64 := 0x1_0000_0000_0000_0000

  type Word = x: nat | x < TWO_32
  type Quad = x: nat | x < TWO_64

  datatype ValType = I32 | I64 | F32 | F64 | V128 | FuncRef | ExternRef

  function SizeBytes(vt: ValType): nat {
    match vt
    case I32 | F32 => 4
    case I64 | F64 | FuncRef | ExternRef => 8
    case V128 => 16
  }

  /** The types a register is narrowed to 32 bits for; references are narrowed although they take 8 bytes. */
  predicate Is32Bit(vt: ValType) {
    vt in {I32, F32, ExternRef, FuncRef}
  }

  function TotalBytes(types: seq<ValType>): nat {
    if types == [] then 0 else SizeBytes(types[0]) + TotalBytes(types[1..])
  }

  lemma {:induction false} TotalBytesAppend(a: seq<ValType>, b: seq<ValType>)
    ensures TotalBytes(a + b) == TotalBytes(a) + TotalBytes(b)
  {
    if a == [] {
      assert a + b == b;
    } else {
      TotalBytesAppend(a[1..], b);
      assert (a + b)[1..] == a[1..] + b;
    }
  }

  datatype Op =
    | ConstI32(value: Word)
    | AddI32
    | GetLocalI32(idx: nat)
    | SetLocalI32(idx: nat)
    | Return
    | Label(id: string)
    | Br(target: string)
    | BrIf(thenId: string, elseId: string)

  datatype BlockType = BlockType(params: seq<ValType>, results: seq<ValType>)

  datatype Metadata = Metadata(
    signature: BlockType,
    locals: seq<ValType>,
    maxStackBytes: nat,
    maxStackElements: nat)
  {
    /** Parameters come first, then the declared locals. */
    function LocalTypes(): seq<ValType> {
      signature.params + locals
    }
  }

  datatype Function = Function(meta: Metadata, body: seq<Op>)

  /** Instructions the compilers give a meaning to; the branch instructions are still no-ops there. */
  predicate Supported(ops: seq<Op>) {
    forall i :: 0 <= i < |ops| ==> !ops[i].Label? && !ops[i].Br? && !ops[i].BrIf?
  }

  predicate ReturnOnlyLast(ops: seq<Op>) {
    forall i :: 0 <= i < |ops| - 1 ==> ops[i] != Return
  }
}

/** The reference meaning: a stack interpreter over unsigned 32-bit words. */
module Interpreter {
  import opened WasmCore

  datatype Mode = Running | Returned | Stuck

  datatype State = State(mode: Mode, stack: seq<Word>, locals: seq<Word>)

  function Initial(locals: seq<Word>): State {
    State(Running, [], locals)
  }

  function Plus(a: Word, b: Word): Word {
    (a + b) % TWO_32
  }

  function Step(op: Op, s: State): State {
    if !s.mode.Running? then s else
    var n := |s.stack|;
    match op
    case ConstI32(v) => s.(stack := s.stack + [v])
    case AddI32 =>
      if n < 2 then s.(mode := Stuck)
      else s.(stack := s.stack[..n - 2] + [Plus(s.stack[n - 2], s.stack[n - 1])])
    case GetLocalI32(i) =>
      if i >= |s.locals| then s.(mode := Stuck) else s.(stack := s.stack + [s.locals[i]])
    case SetLocalI32(i) =>
      if n < 1 || i >= |s.locals| then s.(mode := Stuck)
      else s.(stack := s.stack[..n - 1], locals := s.locals[i := s.stack[n - 1]])
    case Return => s.(mode := Returned)
    case Label(_) | Br(_) | BrIf(_, _) => s.(mode := Stuck)
  }

  function Exec(ops: seq<Op>, s: State): State {
    if ops == [] then s else Exec(ops[1..], Step(ops[0], s))
  }
}
