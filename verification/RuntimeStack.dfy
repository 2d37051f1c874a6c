/** The compile-time picture of the operand stack: each entry is in a register or in its spill slot. */
module RuntimeStack {
  import opened Wrappers
  import opened WasmCore
  import opened Machine

  datatype Entry = Entry(slot: int, reg: Option<Reg>, vt: ValType)

  function Types(es: seq<Entry>): (ts: seq<ValType>)
    ensures |ts| == |es|
    ensures forall i :: 0 <= i < |es| ==> ts[i] == es[i].vt
  {
    seq(|es|, i requires 0 <= i < |es| => es[i].vt)
  }

  /** Each slot is the stack size in bytes just after its entry was pushed. */
  ghost predicate SlotsMatch(es: seq<Entry>) {
    forall i :: 0 <= i < |es| ==> es[i].slot == TotalBytes(Types(es)[..i + 1])
  }

  lemma PushKeepsSlots(es: seq<Entry>, e: Entry)
    requires SlotsMatch(es) && e.slot == TotalBytes(Types(es)) + SizeBytes(e.vt)
    ensures SlotsMatch(es + [e])
    ensures TotalBytes(Types(es + [e])) == e.slot
  {
    var all := es + [e];
    assert Types(all) == Types(es) + [e.vt];
    TotalBytesAppend(Types(es), [e.vt]);
    forall i | 0 <= i < |all|
      ensures all[i].slot == TotalBytes(Types(all)[..i + 1])
    {
      if i < |es| {
        assert Types(all)[..i + 1] == Types(es)[..i + 1];
      } else {
        assert Types(all)[..i + 1] == Types(all);
      }
    }
  }

  lemma PopKeepsSlots(es: seq<Entry>)
    requires es != [] && SlotsMatch(es)
    ensures SlotsMatch(es[..|es| - 1])
    ensures TotalBytes(Types(es)) == TotalBytes(Types(es[..|es| - 1])) + SizeBytes(es[|es| - 1].vt)
    ensures es[|es| - 1].slot == TotalBytes(Types(es))
  {
    var init := es[..|es| - 1];
    assert Types(es) == Types(init) + [es[|es| - 1].vt];
    TotalBytesAppend(Types(init), [es[|es| - 1].vt]);
    assert Types(es)[..|es|] == Types(es);
    forall i | 0 <= i < |init|
      ensures init[i].slot == TotalBytes(Types(init)[..i + 1])
    {
      assert Types(init)[..i + 1] == Types(es)[..i + 1];
    }
  }

  class RuntimeStack {
    var stackMemoryOffset: int
    var stackSize: nat
    const stack: array<Entry>

    ghost predicate Valid()
      reads this, stack
    {
      && stackSize <= stack.Length
      && SlotsMatch(Contents())
      && stackMemoryOffset == TotalBytes(Types(Contents()))
    }

    ghost function Contents(): seq<Entry>
      requires stackSize <= stack.Length
      reads this, stack
    {
      stack[..stackSize]
    }

    constructor (maxStackElements: nat)
      ensures Valid() && Contents() == [] && stack.Length == maxStackElements && fresh(stack)
    {
      stackMemoryOffset := 0;
      stackSize := 0;
      stack := new Entry[maxStackElements](_ => Entry(0, None, I32));
    }

    method Push(v: Entry)
      requires Valid() && stackSize < stack.Length
      modifies this, stack
      ensures Valid()
      ensures Contents() == old(Contents()) + [v.(slot := stackMemoryOffset)]
      ensures stackMemoryOffset == old(stackMemoryOffset) + SizeBytes(v.vt)
    {
      ghost var before := Contents();
      stackMemoryOffset := stackMemoryOffset + SizeBytes(v.vt);
      stack[stackSize] := v.(slot := stackMemoryOffset);
      stackSize := stackSize + 1;
      assert Contents() == before + [v.(slot := stackMemoryOffset)];
      PushKeepsSlots(before, v.(slot := stackMemoryOffset));
    }

    method Pop() returns (top: Entry)
      requires Valid() && stackSize > 0
      modifies this
      ensures Valid()
      ensures old(Contents()) == Contents() + [top]
      ensures top.slot == old(stackMemoryOffset) == stackMemoryOffset + SizeBytes(top.vt)
    {
      PopKeepsSlots(Contents());
      stackSize := stackSize - 1;
      top := stack[stackSize];
      stackMemoryOffset := stackMemoryOffset - SizeBytes(top.vt);
      assert old(Contents())[..stackSize] == Contents();
    }

    method Peek() returns (top: Entry)
      requires Valid() && stackSize > 0
      ensures top == Contents()[stackSize - 1]
    {
      top := stack[stackSize - 1];
    }

    /** Write the register of an entry in place, as the source does through a pointer or reference. */
    method SetRegister(i: nat, reg: Option<Reg>)
      requires Valid() && i < stackSize
      modifies stack
      ensures Valid()
      ensures Contents() == old(Contents())[i := old(Contents())[i].(reg := reg)]
    {
      ghost var before := Contents();
      stack[i] := stack[i].(reg := reg);
      assert Contents() == before[i := before[i].(reg := reg)];
      assert Types(Contents()) == Types(before);
    }
  }
}
