/** Where a caller passes an argument, and where the compiled code looks for it. */
module Arguments {
  import opened WasmCore
  import opened Machine
  import opened Registers
  import opened FunctionFrame
  import opened CompilerSpec
  import opened CompilerSim
  import opened CompilerRun

  /** Both calling conventions pass these in registers of their own, and such an argument uses up no integer
      register. */
  predicate InVectorRegister(vt: ValType) {
    vt in {F32, F64, V128}
  }

  /** Which of the integer registers has parameter `i`: integers are counted, the others skipped. */
  function ArgIndex(params: seq<ValType>, i: nat): (r: nat)
    requires i <= |params|
    ensures r <= i
  {
    if i == 0 then 0 else ArgIndex(params, i - 1) + if InVectorRegister(params[i - 1]) then 0 else 1
  }

  /** The caller has put the arguments where the convention wants them; where it puts those in vector
      registers does not matter here. */
  ghost predicate ArgumentsIn(t: Target, params: seq<ValType>, args: seq<Word>, m0: State) {
    && |args| == |params| <= |t.args|
    && forall i :: 0 <= i < |params| && !InVectorRegister(params[i]) ==>
         Low(m0.regs[t.args[ArgIndex(params, i)]]) == args[i]
  }

  /** No integer parameter behind one in a vector register. */
  predicate IntegersFirst(params: seq<ValType>) {
    forall i, j :: 0 <= i < j < |params| && InVectorRegister(params[i]) ==> InVectorRegister(params[j])
  }

  /** Then, and only then, the position of an integer parameter is the number of its register. */
  lemma IndexIsPosition(params: seq<ValType>)
    ensures IntegersFirst(params) <==>
      forall i :: 0 <= i < |params| && !InVectorRegister(params[i]) ==> ArgIndex(params, i) == i
  {
    forall i | 0 <= i < |params|
      ensures ArgIndex(params, i) == i <==> forall j :: 0 <= j < i ==> !InVectorRegister(params[j])
    {
      PositionBelow(params, i);
    }
    if IntegersFirst(params) {
      forall i | 0 <= i < |params| && !InVectorRegister(params[i])
        ensures ArgIndex(params, i) == i
      {
        assert forall j :: 0 <= j < i ==> !InVectorRegister(params[j]);
      }
    }
  }

  lemma {:induction false} PositionBelow(params: seq<ValType>, i: nat)
    requires i <= |params|
    ensures ArgIndex(params, i) == i <==> forall j :: 0 <= j < i ==> !InVectorRegister(params[j])
  {
    if i > 0 {
      PositionBelow(params, i - 1);
    }
  }

  /** The types a parameter of which takes one word: references are narrowed like i32. */
  predicate OneWord(vt: ValType) {
    vt == I32 || vt == F32 || vt == FuncRef || vt == ExternRef
  }

  lemma WordTypes(vt: ValType)
    ensures OneWord(vt) <==> Is32Bit(vt)
    ensures !OneWord(vt) ==> SizeBytes(vt) >= 8
  {
  }

  /** What of a register is an argument of this type. */
  function ArgumentOf(vt: ValType, q: Quad): Quad {
    if OneWord(vt) then Low(q) else q
  }

  /** What the prologue has left in the slot of parameter `i`: one word, or two. */
  ghost function InSlot(t: Target, meta: Metadata, m0: State, i: nat): nat
    requires i < |meta.signature.params| <= |t.args|
  {
    var m1 := Run(Prologue(t, meta), m0);
    var a := m1.sp + SlotOffset(meta, i);
    Peek(m1.mem, a) + if OneWord(meta.signature.params[i]) then 0 else TWO_32 * Peek(m1.mem, a + 4)
  }

  /** Every integer argument is in the slot of its parameter. */
  ghost predicate Delivered(t: Target, meta: Metadata, m0: State)
    requires |meta.signature.params| <= |t.args|
  {
    var params := meta.signature.params;
    forall i :: 0 <= i < |params| && !InVectorRegister(params[i]) ==>
      InSlot(t, meta, m0, i) == ArgumentOf(params[i], m0.regs[t.args[ArgIndex(params, i)]])
  }

  /** The prologue stores the argument registers by position, whatever the types. */
  lemma StoredByPosition(t: Target, meta: Metadata, m0: State, i: nat)
    requires Fits(meta) && i < |meta.signature.params| <= |t.args|
    ensures InSlot(t, meta, m0, i) == ArgumentOf(meta.signature.params[i], m0.regs[t.args[i]])
  {
    hide SlotOffset, FrameBytes, SaveParams;
    var n := |meta.signature.params|;
    var open := Exec1(SubSp(FrameBytes(meta)), m0);
    RunOne(SubSp(FrameBytes(meta)), m0);
    RunAppend([SubSp(FrameBytes(meta))], SaveParams(t, meta, n), m0);
    SaveParamsRun(t, meta, n, open);
    assert HasParam(t, meta, i, open, Run(SaveParams(t, meta, n), open));
    BothWords(m0.regs[t.args[i]]);
    WordTypes(meta.signature.params[i]);
  }

  lemma BothWords(q: Quad)
    ensures Low(q) + TWO_32 * High(q) == q
  {
  }

  lemma DeliveredInOrder(t: Target, meta: Metadata, m0: State)
    requires Fits(meta) && |meta.signature.params| <= |t.args| && IntegersFirst(meta.signature.params)
    ensures Delivered(t, meta, m0)
  {
    var params := meta.signature.params;
    IndexIsPosition(params);
    hide IntegersFirst, InSlot, Fits, ArgIndex, ArgumentOf;
    forall i | 0 <= i < |params| && !InVectorRegister(params[i])
      ensures InSlot(t, meta, m0, i) == ArgumentOf(params[i], m0.regs[t.args[ArgIndex(params, i)]])
    {
      StoredByPosition(t, meta, m0, i);
    }
  }

  /** A state in which a misplaced parameter gets something else. */
  lemma Misdelivered(t: Target, meta: Metadata, i: nat) returns (m0: State)
    requires t.DistinctArgs() && Fits(meta) && i < |meta.signature.params| <= |t.args|
    requires !InVectorRegister(meta.signature.params[i]) && ArgIndex(meta.signature.params, i) != i
    ensures !Delivered(t, meta, m0)
  {
    m0 := OnlyOne(t.args[i], t.args[ArgIndex(meta.signature.params, i)]);
    StoredByPosition(t, meta, m0, i);
    hide InSlot, Fits, ArgIndex, Low;
    assert ArgumentOf(meta.signature.params[i], m0.regs[t.args[i]]) != ArgumentOf(
      meta.signature.params[i], m0.regs[t.args[ArgIndex(meta.signature.params, i)]]);
  }

  lemma OnlyOne(r: Reg, q: Reg) returns (m0: State)
    requires r != q
    ensures m0.regs[r] == Low(m0.regs[r]) == 1 && m0.regs[q] == Low(m0.regs[q]) == 0
  {
    m0 := BLANK.(regs := BLANK.regs[r := 1]);
  }

  /** The prologue delivers every integer argument, whatever the state, if and only if no parameter in a
      vector register comes before an integer one. */
  lemma DeliveredExactly(t: Target, meta: Metadata)
    requires t.DistinctArgs() && Fits(meta) && |meta.signature.params| <= |t.args|
    ensures (forall m0 :: Delivered(t, meta, m0)) <==> IntegersFirst(meta.signature.params)
  {
    var params := meta.signature.params;
    IndexIsPosition(params);
    hide Delivered, ArgIndex, Fits;
    if IntegersFirst(params) {
      forall m0
        ensures Delivered(t, meta, m0)
      {
        DeliveredInOrder(t, meta, m0);
      }
    } else {
      var i :| 0 <= i < |params| && !InVectorRegister(params[i]) && ArgIndex(params, i) != i;
      var m0 := Misdelivered(t, meta, i);
    }
  }
}
