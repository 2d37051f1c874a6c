/** Rounding to an alignment, on 32-bit unsigned values as the frame uses it. */
module Align {
  import opened WasmCore
  import opened Bits

  type Alignment = a: Word | a >= 1 witness 1

  /** `v & ~(alignment - 1)`; the complement of `a - 1` in 32 bits is `2^32 - a`. */
  function AlignDown(v: Word, alignment: Alignment): Word {
    And(v, TWO_32 - alignment)
  }

  /** The addition wraps around. */
  function AlignUp(v: Word, alignment: Alignment): Word {
    AlignDown((v + alignment - 1) % TWO_32, alignment)
  }

  lemma AlignDownMeans(v: Word, k: nat)
    requires k < 32
    ensures Pow2(k) < TWO_32
    ensures AlignDown(v, Pow2(k)) == v - v % Pow2(k)
  {
    TwoTo32();
    Pow2Strict(k, 32);
    AndHighMask(v, k, 32);
  }

  lemma AlignUpValue(v: Word, k: nat)
    requires k < 32
    ensures Pow2(k) < TWO_32
    ensures var sum := (v + Pow2(k) - 1) % TWO_32; AlignUp(v, Pow2(k)) == sum - sum % Pow2(k)
  {
    TwoTo32();
    Pow2Strict(k, 32);
    AlignDownMeans((v + Pow2(k) - 1) % TWO_32, k);
  }

  lemma RoundUp(v: Word, a: Alignment, sum: nat, r: int)
    requires sum == (v + a - 1) % TWO_32 && r == sum - sum % a
    ensures r % a == 0 && (v <= r <==> v + a - 1 < TWO_32)
    ensures v + a - 1 < TWO_32 ==> r < v + a
  {
    DivModUnique(r, a, sum / a, 0);
    if v + a - 1 >= TWO_32 {
      assert sum == v + a - 1 - TWO_32;
      SmallMod(sum, a);
    } else {
      assert sum == v + a - 1;
    }
  }

  /** For every power-of-two alignment, rounding up yields the next multiple exactly when the sum does
      not wrap; otherwise it falls below its argument. */
  lemma AlignUpMeans(v: Word, k: nat)
    requires k < 32
    ensures Pow2(k) < TWO_32
    ensures var r := AlignUp(v, Pow2(k)); r % Pow2(k) == 0 && (v <= r <==> v + Pow2(k) - 1 < TWO_32)
    ensures v + Pow2(k) - 1 < TWO_32 ==> AlignUp(v, Pow2(k)) < v + Pow2(k)
  {
    AlignUpValue(v, k);
    RoundUp(v, Pow2(k), (v + Pow2(k) - 1) % TWO_32, AlignUp(v, Pow2(k)));
  }
}

/** The stack frame of one compiled function: locals below, operand spill slots above. */
module FunctionFrame {
  import opened WasmCore
  import opened Bits
  import opened Align

  const STACK_ALIGNMENT: Alignment := 16

  function ToInt32(w: Word): int {
    if w < 0x8000_0000 then w else w - TWO_32
  }

  function FrameBytes(meta: Metadata): int {
    ToInt32(AlignUp((TotalBytes(meta.LocalTypes()) + meta.maxStackBytes) % TWO_32, STACK_ALIGNMENT))
  }

  /** Offset of local `i` from the lowered stack pointer. It is negative. */
  function SlotOffset(meta: Metadata, i: nat): int
    requires i <= |meta.LocalTypes()|
  {
    TotalBytes(meta.LocalTypes()[..i]) - FrameBytes(meta)
  }

  /** The sizes of the frame stay within a 32-bit signed integer. */
  predicate Fits(meta: Metadata) {
    TotalBytes(meta.LocalTypes()) + meta.maxStackBytes + 15 < 0x8000_0000
  }

  /** The frame size is the least multiple of 16 that holds the locals and the operand stack. */
  lemma StackSizeMeans(meta: Metadata)
    requires Fits(meta)
    ensures var s := FrameBytes(meta);
      var need := TotalBytes(meta.LocalTypes()) + meta.maxStackBytes;
      s % 16 == 0 && need <= s < need + 16
  {
    var need := TotalBytes(meta.LocalTypes()) + meta.maxStackBytes;
    Sixteen();
    hide Pow2, AlignUp;
    AlignUpMeans(need, 4);
  }

  lemma Sixteen()
    ensures Pow2(4) == 16
  {
  }

  /** Without a bound, the frame holds the locals and the operand stack if and only if their size fits the
      signed 32 bits it is kept in; beyond that the frame size wraps around or turns negative. */
  lemma FrameHoldsExactly(meta: Metadata)
    ensures TotalBytes(meta.LocalTypes()) + meta.maxStackBytes <= FrameBytes(meta) <==> Fits(meta)
  {
    var need := TotalBytes(meta.LocalTypes()) + meta.maxStackBytes;
    Sixteen();
    hide Pow2, AlignUp;
    AlignUpMeans(need % TWO_32, 4);
    if need >= TWO_32 {
      BelowModulus(need);
    }
  }

  lemma BelowModulus(n: nat)
    ensures n % TWO_32 < TWO_32
    ensures n < TWO_32 ==> n % TWO_32 == n
  {
  }

  lemma {:induction false} PrefixBytes(types: seq<ValType>, i: nat, j: nat)
    requires i < j <= |types|
    ensures TotalBytes(types[..i]) + SizeBytes(types[i]) <= TotalBytes(types[..j])
    ensures TotalBytes(types[..i]) % 4 == 0
  {
    var mid := types[..i] + [types[i]];
    assert types[..j] == mid + types[i + 1..j];
    TotalBytesAppend(mid, types[i + 1..j]);
    TotalBytesAppend(types[..i], [types[i]]);
    BytesAligned(types[..i]);
  }

  lemma {:induction false} BytesAligned(types: seq<ValType>)
    ensures TotalBytes(types) % 4 == 0
  {
    if types != [] {
      BytesAligned(types[1..]);
    }
  }

  /** Local slots are word aligned, pairwise disjoint, and end below every operand spill slot. */
  lemma LocalLayout(meta: Metadata, i: nat)
    requires Fits(meta) && i < |meta.LocalTypes()|
    ensures SlotOffset(meta, i) % 4 == 0
    ensures -FrameBytes(meta) <= SlotOffset(meta, i)
    ensures SlotOffset(meta, i) + SizeBytes(meta.LocalTypes()[i])
         <= TotalBytes(meta.LocalTypes()) - FrameBytes(meta)
    ensures TotalBytes(meta.LocalTypes()) - FrameBytes(meta) + meta.maxStackBytes <= 0
    ensures forall j :: i < j < |meta.LocalTypes()| ==>
      SlotOffset(meta, i) + SizeBytes(meta.LocalTypes()[i]) <= SlotOffset(meta, j)
  {
    hide FrameBytes, TotalBytes, SizeBytes;
    var types := meta.LocalTypes();
    StackSizeMeans(meta);
    PrefixBytes(types, i, |types|);
    assert types[..|types|] == types;
    AlignedDifference(TotalBytes(types[..i]), FrameBytes(meta));
    forall j | i < j < |types|
      ensures SlotOffset(meta, i) + SizeBytes(types[i]) <= SlotOffset(meta, j)
    {
      PrefixBytes(types, i, j);
    }
  }

  /** Slots lie one behind the other without a gap, references and 64-bit types at 8 bytes. */
  lemma SlotsPacked(meta: Metadata, i: nat)
    requires i < |meta.LocalTypes()|
    ensures SlotOffset(meta, 0) == -FrameBytes(meta)
    ensures SlotOffset(meta, i + 1) - SlotOffset(meta, i) ==
      match meta.LocalTypes()[i]
      case I32 => 4
      case F32 => 4
      case I64 => 8
      case F64 => 8
      case FuncRef => 8
      case ExternRef => 8
      case V128 => 16
  {
    hide FrameBytes;
    SnocBytes(meta.LocalTypes(), i);
    assert meta.LocalTypes()[..0] == [];
  }

  lemma AlignedDifference(a: int, b: int)
    requires a % 4 == 0 && b % 16 == 0
    ensures (a - b) % 4 == 0
  {
  }

  class Frame {
    const meta: Metadata
    var localsSizeBytes: int
    const localsStackOffset: array<int>

    ghost predicate Valid()
      reads this, localsStackOffset
    {
      && localsSizeBytes == TotalBytes(meta.LocalTypes())
      && localsStackOffset.Length == |meta.LocalTypes()|
      && forall i :: 0 <= i < localsStackOffset.Length ==> localsStackOffset[i] == SlotOffset(meta, i)
    }

    /** First the offsets from the bottom of the frame, then relative to the lowered stack pointer. */
    constructor (meta: Metadata)
      ensures Valid() && this.meta == meta && fresh(localsStackOffset)
    {
      this.meta := meta;
      localsSizeBytes := 0;
      localsStackOffset := new int[|meta.locals| + |meta.signature.params|];
      new;
      var i := Record(meta.signature.params, 0);
      i := Record(meta.locals, i);
      assert meta.LocalTypes()[..i] == meta.LocalTypes();
      RebaseToStackPointer();
    }

    /** The loop over parameters, and then over declared locals. */
    method Record(types: seq<ValType>, from: nat) returns (i: nat)
      requires from + |types| <= localsStackOffset.Length == |meta.LocalTypes()|
      requires meta.LocalTypes()[from..from + |types|] == types
      requires localsSizeBytes == TotalBytes(meta.LocalTypes()[..from])
      requires forall j :: 0 <= j < from ==> localsStackOffset[j] == TotalBytes(meta.LocalTypes()[..j])
      modifies this`localsSizeBytes, localsStackOffset
      ensures i == from + |types| && localsSizeBytes == TotalBytes(meta.LocalTypes()[..i])
      ensures forall j :: 0 <= j < i ==> localsStackOffset[j] == TotalBytes(meta.LocalTypes()[..j])
    {
      hide TotalBytes, SizeBytes;
      ghost var all := meta.LocalTypes();
      i := from;
      for p := 0 to |types|
        invariant i == from + p && localsSizeBytes == TotalBytes(all[..i])
        invariant forall j :: 0 <= j < i ==> localsStackOffset[j] == TotalBytes(all[..j])
      {
        assert types[p] == all[i];
        localsStackOffset[i] := localsSizeBytes;
        localsSizeBytes := localsSizeBytes + SizeBytes(types[p]);
        SnocBytes(all, i);
        i := i + 1;
      }
    }

    method RebaseToStackPointer()
      requires localsSizeBytes == TotalBytes(meta.LocalTypes())
      requires localsStackOffset.Length == |meta.LocalTypes()|
      modifies localsStackOffset
      ensures forall j :: 0 <= j < localsStackOffset.Length ==>
        localsStackOffset[j] == old(localsStackOffset[j]) - FrameBytes(meta)
    {
      for i := 0 to localsStackOffset.Length
        invariant forall j :: 0 <= j < i ==> localsStackOffset[j] == old(localsStackOffset[j]) - FrameBytes(meta)
        invariant forall j :: i <= j < localsStackOffset.Length ==> localsStackOffset[j] == old(localsStackOffset[j])
      {
        var size := StackSizeBytes();
        localsStackOffset[i] := localsStackOffset[i] - size;
      }
    }

    method StackSizeBytes() returns (size: int)
      requires localsSizeBytes == TotalBytes(meta.LocalTypes())
      ensures size == FrameBytes(meta)
    {
      size := ToInt32(AlignUp((localsSizeBytes + meta.maxStackBytes) % TWO_32, STACK_ALIGNMENT));
    }

    method LocalStackOffset(i: nat) returns (offset: int)
      requires Valid() && i < |meta.LocalTypes()|
      ensures offset == SlotOffset(meta, i)
    {
      offset := localsStackOffset[i];
    }
  }

  lemma SnocBytes(types: seq<ValType>, i: nat)
    requires i < |types|
    ensures TotalBytes(types[..i + 1]) == TotalBytes(types[..i]) + SizeBytes(types[i])
  {
    assert types[..i + 1] == types[..i] + [types[i]];
    TotalBytesAppend(types[..i], [types[i]]);
  }
}
