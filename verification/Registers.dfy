/** Register sets as 32-bit bitsets, the two calling conventions, and the allocator's tracker. */
module Registers {
  import opened Wrappers
  import opened Machine

  type Bitset = s: seq<bool> | |s| == 32 witness seq(32, _ => false)

  function Members(bits: Bitset): set<Reg> {
    set r: Reg | bits[r]
  }

  function MaskOf(regs: set<Reg>): (bits: Bitset)
    ensures Members(bits) == regs
  {
    seq(32, i requires 0 <= i < 32 => i in regs)
  }

  /** The lowest-numbered allocatable register at or after `from` that is not in use. */
  function FirstFree(allocatable: set<Reg>, used: set<Reg>, from: nat := 0): (r: Option<Reg>)
    requires from <= 32
    ensures r.Some? ==> from <= r.value && r.value in allocatable - used
    ensures forall i: Reg :: from <= i && i in allocatable - used ==> r.Some? && r.value <= i
    decreases 32 - from
  {
    if from == 32 then None
    else if from in allocatable && from !in used then Some(from)
    else FirstFree(allocatable, used, from + 1)
  }

  /** Advance an iterator: the next set bit after `index`, or 32 when there is none. */
  method SeekNext(mask: Bitset, index: int) returns (next: nat)
    requires -1 <= index < 32
    ensures index < next <= 32
    ensures next < 32 ==> mask[next]
    ensures forall i :: index < i < next ==> !mask[i]
  {
    next := index + 1;
    while next < 32
      invariant index < next <= 32
      invariant forall i :: index < i < next ==> !mask[i]
    {
      if mask[next] {
        break;
      }
      next := next + 1;
    }
  }

  class RegisterTracker {
    const callerSaved: Bitset
    var gpRegMask: Bitset

    ghost function Used(): set<Reg>
      reads this
    {
      Members(gpRegMask)
    }

    constructor (callerSaved: Bitset)
      ensures this.callerSaved == callerSaved && Used() == {}
    {
      this.callerSaved := callerSaved;
      gpRegMask := seq(32, _ => false);
    }

    method TakeUnusedRegister() returns (r: Option<Reg>)
      modifies this
      ensures r == FirstFree(Members(callerSaved), old(Used()))
      ensures Used() == if r.Some? then old(Used()) + {r.value} else old(Used())
    {
      var reg := SeekNext(callerSaved, -1);
      while reg < 32
        invariant reg <= 32 && (reg < 32 ==> callerSaved[reg])
        invariant gpRegMask == old(gpRegMask)
        invariant FirstFree(Members(callerSaved), Used()) == FirstFree(Members(callerSaved), Used(), reg)
        decreases 32 - reg
      {
        if !gpRegMask[reg] {
          gpRegMask := gpRegMask[reg := true];
          return Some(reg);
        }
        var next := SeekNext(callerSaved, reg);
        reg := next;
      }
      return None;
    }

    method MarkRegisterUnused(reg: Reg)
      modifies this
      ensures Used() == old(Used()) - {reg}
    {
      gpRegMask := gpRegMask[reg := false];
    }
  }

  /** How a back end stores a local. */
  datatype SetLocalForm =
    | StoreWord   // the 32-bit store both back ends mean
    | StorePair   // the x64 source: a 64-bit store of the whole register
    | LoadPair    // the arm64 source: a 64-bit load into the register

  /** A back end: its calling convention, and the three places where the two sources depart from the
      algorithm they share. */
  datatype Target = Target(
    callerSaved: set<Reg>,
    calleeSaved: set<Reg>,
    args: seq<Reg>,
    ret: Reg,
    addsCarry: bool,          // AddI32 is emitted as add-with-carry
    setLocal: SetLocalForm,
    spillsOn: bool)           // the spill loop runs on after the first spilled entry
  {
    predicate WellFormed() {
      && |callerSaved| >= 2
      && callerSaved !! calleeSaved
      && |args| >= 6
      && ret in callerSaved
    }

    predicate DistinctArgs() {
      forall i, j :: 0 <= i < j < |args| ==> args[i] != args[j]
    }

    predicate Corrected() {
      !addsCarry && setLocal == StoreWord && !spillsOn
    }

    function Correct(): Target {
      this.(addsCarry := false, setLocal := StoreWord, spillsOn := false)
    }
  }

  /** System V AMD64: rax rcx rdx rsi rdi r8-r11 are 0 1 2 6 7 8-11. */
  const X64 := Target(
    callerSaved := {0, 1, 2, 6, 7, 8, 9, 10, 11},
    calleeSaved := {3, 5, 12, 13, 14, 15},
    args := [7, 6, 2, 1, 8, 9],
    ret := 0,
    addsCarry := true,
    setLocal := StorePair,
    spillsOn := true)

  function Interval(lo: nat, hi: nat): (s: set<Reg>)
    requires lo <= hi <= 32
    ensures |s| == hi - lo
    ensures forall r: Reg :: r in s <==> lo <= r < hi
    decreases hi - lo
  {
    if lo == hi then {} else {lo} + Interval(lo + 1, hi)
  }

  /** AAPCS64: x0-x7 and x9-x15 are caller saved, x19-x29 callee saved. */
  const ARM64_CALLER_SAVED: set<Reg> := Interval(0, 8) + Interval(9, 16)
  const ARM64_CALLEE_SAVED: set<Reg> := Interval(19, 30)

  const ARM64 := Target(
    callerSaved := ARM64_CALLER_SAVED,
    calleeSaved := ARM64_CALLEE_SAVED,
    args := [0, 1, 2, 3, 4, 5, 6, 7],
    ret := 0,
    addsCarry := false,
    setLocal := LoadPair,
    spillsOn := true)

  lemma X64WellFormed()
    ensures X64.WellFormed() && |X64.callerSaved| == 9
    ensures X64.addsCarry && X64.setLocal == StorePair && X64.spillsOn
  {
  }

  lemma Disjoint(a: nat, b: nat, c: nat, d: nat)
    requires a <= b <= c <= d <= 32
    ensures |Interval(a, b) + Interval(c, d)| == b - a + d - c
    ensures forall r: Reg :: r in Interval(a, b) + Interval(c, d) <==> a <= r < b || c <= r < d
  {
    assert Interval(a, b) !! Interval(c, d);
  }

  lemma Arm64Registers()
    ensures |ARM64_CALLER_SAVED| == 15 && 0 in ARM64_CALLER_SAVED && ARM64_CALLER_SAVED !! ARM64_CALLEE_SAVED
  {
    hide Interval;
    Disjoint(0, 8, 9, 16);
  }

  lemma Arm64WellFormed()
    ensures ARM64.WellFormed() && |ARM64.callerSaved| == 15
    ensures !ARM64.addsCarry && ARM64.setLocal == LoadPair && ARM64.spillsOn
  {
    hide Interval, ARM64_CALLER_SAVED, ARM64_CALLEE_SAVED;
    Arm64Registers();
  }

  lemma ArgumentRegisters()
    ensures X64.DistinctArgs() && ARM64.DistinctArgs()
  {
    hide Interval, ARM64_CALLER_SAVED, ARM64_CALLEE_SAVED;
  }

  /** Both conventions carry the corrected algorithm. */
  lemma CorrectTargets()
    ensures X64.Correct().WellFormed() && X64.Correct().Corrected()
    ensures ARM64.Correct().WellFormed() && ARM64.Correct().Corrected()
  {
    X64WellFormed();
    Arm64WellFormed();
    hide Interval, ARM64_CALLER_SAVED, ARM64_CALLEE_SAVED;
  }
}
