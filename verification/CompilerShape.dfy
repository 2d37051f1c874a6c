/** What every reachable compile-time state keeps, whatever the emitted code computes: the allocator's
    accounting, the shape of the stack, and which registers and memory the emitted code may touch. */
module CompilerShape {
  import opened Wrappers
  import opened WasmCore
  import opened Machine
  import opened Registers
  import opened RuntimeStack
  import opened FunctionFrame
  import opened CompilerSpec

  ghost function HeldRegs(es: seq<Entry>): set<Reg> {
    set i | 0 <= i < |es| && es[i].reg.Some? :: es[i].reg.value
  }

  ghost predicate Distinct(es: seq<Entry>) {
    forall i, j :: 0 <= i < j < |es| && es[i].reg.Some? ==> es[i].reg != es[j].reg
  }

  ghost predicate WordEntries(es: seq<Entry>) {
    forall i :: 0 <= i < |es| ==> es[i].vt == I32 && es[i].slot == 4 * (i + 1)
  }

  /** Exactly the bottom `k` entries live in memory. */
  ghost predicate SpilledPrefix(es: seq<Entry>, k: nat) {
    k <= |es| && forall i :: 0 <= i < |es| ==> (es[i].reg.None? <==> i < k)
  }

  /** The state between two visits. */
  ghost predicate Inv(t: Target, es: seq<Entry>, used: set<Reg>, k: nat) {
    && SpilledPrefix(es, k)
    && WordEntries(es)
    && Distinct(es)
    && used == HeldRegs(es)
    && used <= t.callerSaved
  }

  /** Offsets of operand spill slots and of local slots. */
  predicate SpillOffset(meta: Metadata, off: int) {
    off % 4 == 0 && 4 <= off < meta.maxStackBytes
  }

  ghost predicate LocalWord(meta: Metadata, off: int) {
    exists i :: 0 <= i < |meta.LocalTypes()| && off == SlotOffset(meta, i)
  }

  /** What one emitted instruction of a body may write. */
  ghost predicate Contained(t: Target, meta: Metadata, i: Instr) {
    match i
    case MovImm(d, _) => d in t.callerSaved
    case Load32(d, _) => d in t.callerSaved
    case Load64(d, _) => d in t.callerSaved
    case Add32(d, _) => d in t.callerSaved
    case Adc32(d, _) => d in t.callerSaved
    case Store32(off, _) => SpillOffset(meta, off) || LocalWord(meta, off)
    case Store64(off, _) => t.setLocal == StorePair && LocalWord(meta, off)
    case JmpExit => true
    case _ => false
  }

  ghost predicate AllContained(t: Target, meta: Metadata, code: seq<Instr>) {
    forall i :: 0 <= i < |code| ==> Contained(t, meta, code[i])
  }

  /** The entry at or above `k` after the loop has passed, starting with `held` at `k`. */
  function Shifted(es: seq<Entry>, held: Option<Reg>, on: bool, k: nat, i: nat): Entry
    requires k <= i < |es|
  {
    if i == k then es[i].(reg := held)
    else if on then es[i].(reg := es[i - 1].reg)
    else es[i]
  }

  function StoreOf(e: Entry): Instr
    requires e.reg.Some?
  {
    StoreFrom(e.vt, e.slot, e.reg.value)
  }

  function Stores(es: seq<Entry>): (code: seq<Instr>)
    requires forall i :: 0 <= i < |es| ==> es[i].reg.Some?
    ensures |code| == |es|
    ensures forall i :: 0 <= i < |es| ==> code[i] == StoreOf(es[i])
  {
    seq(|es|, i requires 0 <= i < |es| => StoreOf(es[i]))
  }

  /** Closed form of the spill loop: the first entry with a register gives it up; if the loop runs on,
      every later entry takes its lower neighbour's register. */
  ghost predicate SpillsTo(es: seq<Entry>, held: Option<Reg>, on: bool, k: nat, r: SpillResult)
    requires SpilledPrefix(es, k)
  {
    && |r.es| == |es|
    && (forall i :: 0 <= i < k ==> r.es[i] == es[i])
    && (forall i :: k <= i < |es| ==> r.es[i] == Shifted(es, held, on, k, i))
    && r.held == (if k == |es| then held else if on then es[|es| - 1].reg else es[k].reg)
    && r.code == if k == |es| then [] else if on then Stores(es[k..]) else [StoreOf(es[k])]
  }

  lemma SpilledTail(es: seq<Entry>, k: nat)
    requires es != [] && SpilledPrefix(es, k)
    ensures SpilledPrefix(es[1..], if k > 0 then k - 1 else 0)
  {
    assert forall i :: 0 <= i < |es| - 1 ==> es[1..][i] == es[i + 1];
  }

  lemma SpillSkips(es: seq<Entry>, held: Option<Reg>, on: bool, k: nat, rest: SpillResult)
    requires SpilledPrefix(es, k) && k > 0 && SpilledPrefix(es[1..], k - 1)
    requires SpillsTo(es[1..], held, on, k - 1, rest)
    ensures SpillsTo(es, held, on, k, SpillResult([es[0]] + rest.es, rest.held, rest.code))
  {
    assert es[1..][k - 1..] == es[k..];
    forall i | k <= i < |es|
      ensures ([es[0]] + rest.es)[i] == Shifted(es, held, on, k, i)
    {
      assert rest.es[i - 1] == Shifted(es[1..], held, on, k - 1, i - 1);
    }
  }

  lemma SpillGoesOn(es: seq<Entry>, held: Option<Reg>, rest: SpillResult)
    requires es != [] && SpilledPrefix(es, 0) && SpilledPrefix(es[1..], 0)
    requires SpillsTo(es[1..], es[0].reg, true, 0, rest)
    ensures SpillsTo(es, held, true, 0,
                     SpillResult([es[0].(reg := held)] + rest.es, rest.held, [StoreOf(es[0])] + rest.code))
  {
    assert es[0..] == es && es[1..][0..] == es[1..];
    StoresCons(es);
    var r := SpillResult([es[0].(reg := held)] + rest.es, rest.held, [StoreOf(es[0])] + rest.code);
    EntriesGoOn(es, held, rest.es);
    assert r.held == es[|es| - 1].reg;
    assert r.code == Stores(es);
    hide Stores, StoreOf, SpilledPrefix, Shifted;
  }

  lemma EntriesGoOn(es: seq<Entry>, held: Option<Reg>, rest: seq<Entry>)
    requires es != [] && |rest| == |es| - 1
    requires forall i :: 0 <= i < |rest| ==> rest[i] == Shifted(es[1..], es[0].reg, true, 0, i)
    ensures var s := [es[0].(reg := held)] + rest;
      forall i :: 0 <= i < |es| ==> s[i] == Shifted(es, held, true, 0, i)
  {
    forall i | 1 <= i < |es|
      ensures rest[i - 1] == Shifted(es, held, true, 0, i)
    {
      assert rest[i - 1] == Shifted(es[1..], es[0].reg, true, 0, i - 1);
    }
  }

  lemma StoresCons(es: seq<Entry>)
    requires es != [] && SpilledPrefix(es, 0)
    ensures SpilledPrefix(es[1..], 0)
    ensures Stores(es) == [StoreOf(es[0])] + if |es| == 1 then [] else Stores(es[1..])
  {
  }

  lemma {:induction false} SpillShape(es: seq<Entry>, held: Option<Reg>, on: bool, k: nat)
    requires SpilledPrefix(es, k)
    ensures SpillsTo(es, held, on, k, Spill(es, held, on))
  {
    if es == [] {
    } else if k > 0 {
      SpilledTail(es, k);
      SpillShape(es[1..], held, on, k - 1);
      SpillSkips(es, held, on, k, Spill(es[1..], held, on));
    } else if on {
      SpilledTail(es, k);
      SpillShape(es[1..], es[0].reg, on, 0);
      SpillGoesOn(es, held, Spill(es[1..], es[0].reg, on));
    }
  }

  /** A fresh entry without a register on top takes no part in the loop. */
  lemma {:induction false} SpillUnderTop(es: seq<Entry>, top: Entry, held: Option<Reg>, on: bool)
    requires top.reg.None?
    ensures var r := Spill(es, held, on);
      Spill(es + [top], held, on) == SpillResult(r.es + [top], r.held, r.code)
  {
    if es == [] {
      assert es + [top] == [top];
      assert [top][1..] == [];
    } else {
      assert (es + [top])[1..] == es[1..] + [top];
      SpillUnderTop(es[1..], top, if es[0].reg.None? then held else es[0].reg, on);
    }
  }

  lemma {:induction false} HeldCount(es: seq<Entry>, k: nat)
    requires SpilledPrefix(es, k) && Distinct(es)
    ensures |HeldRegs(es)| == |es| - k
  {
    if es == [] {
      assert HeldRegs(es) == {};
    } else {
      var init, last := es[..|es| - 1], es[|es| - 1];
      if k == |es| {
        assert HeldRegs(es) == {};
      } else {
        HeldCount(init, k);
        assert HeldRegs(es) == HeldRegs(init) + {last.reg.value};
        assert last.reg.value !in HeldRegs(init);
      }
    }
  }

  /** Number of spilled entries after a push: one more exactly when every register is taken. */
  function SpilledAfterPush(t: Target, n: nat, k: nat): nat {
    if n - k == |t.callerSaved| then k + 1 else k
  }

  lemma Exhausted(t: Target, es: seq<Entry>, used: set<Reg>, k: nat)
    requires t.WellFormed() && Inv(t, es, used, k)
    ensures FirstFree(t.callerSaved, used).None? <==> |es| - k == |t.callerSaved|
    ensures |es| - k <= |t.callerSaved|
    ensures FirstFree(t.callerSaved, used).None? ==> used == t.callerSaved && k < |es|
  {
    HeldCount(es, k);
    SubsetSize(used, t.callerSaved);
    if FirstFree(t.callerSaved, used).None? {
      forall r | r in t.callerSaved
        ensures r in used
      {
        assert r in used || r in t.callerSaved - used;
      }
    }
  }

  lemma SubsetSize<T>(a: set<T>, b: set<T>)
    requires a <= b
    ensures |a| <= |b| && (|a| == |b| <==> a == b)
  {
    assert b == a + (b - a);
  }

  /** The registers and frame the per-visit lemmas are stated for. */
  ghost predicate Sized(t: Target, meta: Metadata) {
    && t.WellFormed()
    && Fits(meta)
    && meta.maxStackBytes == 4 * meta.maxStackElements
  }

  lemma SizedParts(t: Target, meta: Metadata)
    requires Sized(t, meta)
    ensures t.WellFormed() && Fits(meta)
  {
  }

  lemma {:induction false} WordBytes(es: seq<Entry>)
    requires WordEntries(es)
    ensures TotalBytes(Types(es)) == 4 * |es|
  {
    if es != [] {
      var init := es[..|es| - 1];
      assert Types(es) == Types(init) + [I32];
      TotalBytesAppend(Types(init), [I32]);
      WordBytes(init);
    }
  }

  lemma HeldSnoc(es: seq<Entry>, e: Entry)
    ensures HeldRegs(es + [e]) == HeldRegs(es) + if e.reg.Some? then {e.reg.value} else {}
  {
    var all := es + [e];
    assert forall i :: 0 <= i < |es| ==> all[i] == es[i];
    if e.reg.Some? {
      assert all[|es|].reg == e.reg;
    }
    forall r | r in HeldRegs(es)
      ensures r in HeldRegs(all)
    {
      var i :| 0 <= i < |es| && es[i].reg == Some(r);
      assert all[i].reg == Some(r);
    }
  }

  lemma HeldBelow(es: seq<Entry>)
    requires es != []
    ensures HeldRegs(es[..|es| - 1]) <= HeldRegs(es)
  {
    assert es == es[..|es| - 1] + [es[|es| - 1]];
    HeldSnoc(es[..|es| - 1], es[|es| - 1]);
  }

  /** Putting an entry that holds a fresh register on top. */
  lemma PushHolding(t: Target, es: seq<Entry>, used: set<Reg>, k: nat, r: Reg)
    requires Inv(t, es, used, k) && r in t.callerSaved && r !in used
    ensures Inv(t, es + [Entry(4 * (|es| + 1), Some(r), I32)], used + {r}, k)
  {
    HeldSnoc(es, Entry(4 * (|es| + 1), Some(r), I32));
    assert forall i :: 0 <= i < |es| && es[i].reg.Some? ==> es[i].reg.value in HeldRegs(es);
  }

  /** Taking the top entry off: the rest holds what it held. */
  lemma PopKeepsInv(t: Target, es: seq<Entry>, used: set<Reg>, k: nat)
    requires es != [] && Inv(t, es, used, k)
    ensures var n, v := |es| - 1, es[|es| - 1];
      && Inv(t, es[..n], HeldRegs(es[..n]), if k <= n then k else n)
      && used == HeldRegs(es[..n]) + (if v.reg.Some? then {v.reg.value} else {})
      && (v.reg.Some? ==> v.reg.value !in HeldRegs(es[..n]) && v.reg.value in t.callerSaved)
      && (v.reg.None? ==> HeldRegs(es[..n]) == {})
  {
    var n, v := |es| - 1, es[|es| - 1];
    assert es == es[..n] + [v];
    HeldSnoc(es[..n], v);
    if v.reg.Some? {
      assert v.reg.value in used;
    }
  }

  /** The entries below a push once the allocator has found a register for it. */
  function UnderPush(t: Target, es: seq<Entry>, k: nat): seq<Entry> {
    if |es| - k == |t.callerSaved| then Spill(es, None, t.spillsOn).es else es
  }

  /** The spill code, before which no register was free. */
  function PushCode(t: Target, es: seq<Entry>, k: nat): seq<Instr> {
    if |es| - k == |t.callerSaved| then Spill(es, None, t.spillsOn).code else []
  }

  lemma SpillKeepsInv(t: Target, es: seq<Entry>, used: set<Reg>, k: nat)
    requires t.WellFormed() && Inv(t, es, used, k) && k < |es|
    ensures var s := Spill(es, None, t.spillsOn);
      && s.held.Some? && s.held.value in used && s.held.value !in HeldRegs(s.es)
      && used == HeldRegs(s.es) + {s.held.value}
      && Inv(t, s.es, HeldRegs(s.es), k + 1)
  {
    var s := Spill(es, None, t.spillsOn);
    SpillShape(es, None, t.spillsOn, k);
    hide Spill;
    ShiftKeepsRegs(es, s.es, k, t.spillsOn);
    ShiftKeepsShape(es, s.es, k, t.spillsOn);
  }

  /** Closed form of one pass: `s` is `es` with entry `k` spilled and, if the loop runs on, the registers
      above it moved up by one. */
  ghost predicate Passed(es: seq<Entry>, s: seq<Entry>, k: nat, on: bool) {
    && |s| == |es|
    && (forall i :: 0 <= i < k < |es| ==> s[i] == es[i])
    && (forall i :: k <= i < |es| ==> s[i] == Shifted(es, None, on, k, i))
  }

  lemma ShiftKeepsRegs(es: seq<Entry>, s: seq<Entry>, k: nat, on: bool)
    requires SpilledPrefix(es, k) && Distinct(es) && k < |es| && Passed(es, s, k, on)
    ensures var out := es[if on then |es| - 1 else k].reg.value;
      HeldRegs(es) == HeldRegs(s) + {out} && out !in HeldRegs(s) && out in HeldRegs(es)
  {
    var last := if on then |es| - 1 else k;
    var out := es[last].reg.value;
    forall r | r in HeldRegs(es)
      ensures r in HeldRegs(s) + {out}
    {
      var i :| 0 <= i < |es| && es[i].reg == Some(r);
      if i != last {
        var to := if on then i + 1 else i;
        assert s[to].reg == Some(r);
      }
    }
    forall r | r in HeldRegs(s)
      ensures r in HeldRegs(es) && r != out
    {
      var i :| 0 <= i < |s| && s[i].reg == Some(r);
      var from := if on then i - 1 else i;
      assert es[from].reg == Some(r) && from != last;
    }
  }

  lemma ShiftKeepsShape(es: seq<Entry>, s: seq<Entry>, k: nat, on: bool)
    requires SpilledPrefix(es, k) && WordEntries(es) && Distinct(es) && k < |es| && Passed(es, s, k, on)
    ensures SpilledPrefix(s, k + 1) && WordEntries(s) && Distinct(s)
  {
    forall i, j | 0 <= i < j < |s| && s[i].reg.Some?
      ensures s[i].reg != s[j].reg
    {
      assert s[i] == Shifted(es, None, on, k, i) && s[j] == Shifted(es, None, on, k, j);
    }
  }

  /** Finding a register for a freshly pushed entry. */
  lemma AllocateForPush(t: Target, meta: Metadata, es: seq<Entry>, used: set<Reg>, k: nat)
    requires t.WellFormed() && Inv(t, es, used, k)
    ensures var a := Allocate(t, PushI32(es), used);
      var under := UnderPush(t, es, k);
      && a.Some?
      && a.value.out.es == under + [Entry(4 * (|es| + 1), None, I32)]
      && a.value.out.code == PushCode(t, es, k)
      && a.value.out.used == HeldRegs(under) + {a.value.reg}
      && a.value.reg in t.callerSaved && a.value.reg !in HeldRegs(under)
      && |under| == |es| && Inv(t, under, HeldRegs(under), SpilledAfterPush(t, |es|, k))
  {
    Exhausted(t, es, used, k);
    WordBytes(es);
    var top := Entry(4 * (|es| + 1), None, I32);
    assert PushI32(es) == es + [top];
    if FirstFree(t.callerSaved, used).None? {
      SpillUnderTop(es, top, None, t.spillsOn);
      SpillKeepsInv(t, es, used, k);
      hide Inv, FirstFree, Spill, HeldRegs;
    } else {
      hide FirstFree, SpilledPrefix, WordEntries, Distinct, HeldRegs, Spill;
    }
  }

  /** A reload of the top entry, or of the one below it when only the top's register is in use, finds a
      free register: it never spills. */
  lemma ReloadNeverSpills(t: Target, es: seq<Entry>, used: set<Reg>, v: Entry)
    requires t.WellFormed() && v.vt == I32
    requires used <= t.callerSaved
    requires v.reg.None? ==> |used| <= 1
    requires v.reg.Some? ==> v.reg.value in t.callerSaved
    ensures var a := Ensure(t, es, used, v);
      && a.Some? && a.value.out.es == es && a.value.reg in t.callerSaved
      && (v.reg.Some? ==> a.value.reg == v.reg.value && a.value.out == Out(es, used, []))
      && (v.reg.None? ==> a.value.reg !in used)
      && (v.reg.None? ==> a.value.out == Out(es, used + {a.value.reg}, [Load32(a.value.reg, v.slot)]))
  {
    if v.reg.None? {
      SubsetSize(used, t.callerSaved);
      var r :| r in t.callerSaved && r !in used;
      assert r in t.callerSaved - used;
    }
  }

  /** Static conditions under which the validator lets a visit happen at depth `n`. */
  predicate Enabled(meta: Metadata, op: Op, n: nat) {
    match op
    case ConstI32(_) => n < meta.maxStackElements
    case AddI32 => n >= 2
    case GetLocalI32(i) => n < meta.maxStackElements && i < |meta.LocalTypes()| && meta.LocalTypes()[i] == I32
    case SetLocalI32(i) => n >= 1 && i < |meta.LocalTypes()| && meta.LocalTypes()[i] == I32
    case Return => true
    case _ => false
  }

  function Min(a: nat, b: nat): nat {
    if a <= b then a else b
  }

  function SpilledAfter(t: Target, op: Op, n: nat, k: nat): nat {
    match op
    case ConstI32(_) => SpilledAfterPush(t, n, k)
    case GetLocalI32(_) => SpilledAfterPush(t, n, k)
    case AddI32 => if n >= 2 then Min(k, n - 2) else k
    case SetLocalI32(_) => if n >= 1 then Min(k, n - 1) else k
    case _ => k
  }

  function Reload(e: Entry, r: Reg): seq<Instr> {
    if e.reg.Some? then [] else [Load32(r, e.slot)]
  }

  lemma PushCodeContained(t: Target, meta: Metadata, es: seq<Entry>, used: set<Reg>, k: nat)
    requires Sized(t, meta) && Inv(t, es, used, k) && |es| < meta.maxStackElements
    ensures AllContained(t, meta, PushCode(t, es, k))
    ensures Straight(PushCode(t, es, k)) && BindExit !in PushCode(t, es, k)
  {
    SpillShape(es, None, t.spillsOn, k);
    forall i | 0 <= i < |PushCode(t, es, k)|
      ensures PushCode(t, es, k)[i].Store32? && SpillOffset(meta, PushCode(t, es, k)[i].off)
    {
      var e := es[k + i];
      assert e.slot == 4 * (k + i + 1);
    }
  }

  /** The code of a push: spill, then a load of the new slot for a constant, then the value. */
  lemma PushShape(t: Target, meta: Metadata, es: seq<Entry>, used: set<Reg>, k: nat, op: Op) returns (r: Reg)
    requires t.WellFormed() && Inv(t, es, used, k) && Enabled(meta, op, |es|)
    requires op.ConstI32? || op.GetLocalI32?
    ensures var n, under := |es|, UnderPush(t, es, k);
      var final := if op.ConstI32? then [Load32(r, 4 * (n + 1)), MovImm(r, op.value)]
                   else [Load32(r, SlotOffset(meta, op.idx))];
      && r in t.callerSaved && r !in HeldRegs(under) && |under| == n
      && Inv(t, under, HeldRegs(under), SpilledAfterPush(t, n, k))
      && CompileOp(t, meta, es, used, op)
         == Some(Out(under + [Entry(4 * (n + 1), Some(r), I32)], HeldRegs(under) + {r},
                     PushCode(t, es, k) + final))
  {
    AllocateForPush(t, meta, es, used, k);
    WordBytes(es);
    var under := UnderPush(t, es, k);
    var a := Allocate(t, PushI32(es), used).value;
    r := a.reg;
    var top := Entry(4 * (|es| + 1), None, I32);
    assert SetTop(under + [top], r) == under + [top.(reg := Some(r))];
    if op.ConstI32? {
      assert PushI32(es)[|es|] == top;
      assert PushCode(t, es, k) + [Load32(r, top.slot)] + [MovImm(r, op.value)]
          == PushCode(t, es, k) + [Load32(r, top.slot), MovImm(r, op.value)];
    }
  }

  lemma InvWords(t: Target, meta: Metadata, es: seq<Entry>, used: set<Reg>, k: nat)
    requires t.WellFormed() && Inv(t, es, used, k) && |es| >= 2
    ensures t.WellFormed() && WordEntries(es)
    ensures Min(Min(k, |es| - 1), |es| - 2) == Min(k, |es| - 2)
  {
  }

  /** Popping and reloading the top entry. */
  lemma TopReload(t: Target, es: seq<Entry>, used: set<Reg>, k: nat) returns (r: Reg)
    requires t.WellFormed() && Inv(t, es, used, k) && es != []
    ensures var init, v := es[..|es| - 1], es[|es| - 1];
      && r in t.callerSaved && r !in HeldRegs(init)
      && (v.reg.Some? ==> r == v.reg.value)
      && Inv(t, init, HeldRegs(init), Min(k, |init|))
      && Ensure(t, init, used, v) == Some(Taken(Out(init, HeldRegs(init) + {r}, Reload(v, r)), r))
  {
    PopKeepsInv(t, es, used, k);
    ReloadNeverSpills(t, es[..|es| - 1], used, es[|es| - 1]);
    r := Ensure(t, es[..|es| - 1], used, es[|es| - 1]).value.reg;
  }

  /** Reloading the entry below a popped one whose register `r2` is still marked. */
  lemma SecondReload(t: Target, es: seq<Entry>, k: nat, r2: Reg) returns (r1: Reg)
    requires t.WellFormed() && Inv(t, es, HeldRegs(es), k) && es != []
    requires r2 in t.callerSaved && r2 !in HeldRegs(es)
    ensures var rest, v := es[..|es| - 1], es[|es| - 1];
      && r1 != r2 && r1 in t.callerSaved && r1 !in HeldRegs(rest)
      && (v.reg.Some? ==> r1 == v.reg.value)
      && Inv(t, rest, HeldRegs(rest), Min(k, |rest|))
      && Ensure(t, es, HeldRegs(es) + {r2}, v)
         == Some(Taken(Out(es, HeldRegs(rest) + {r1, r2}, Reload(v, r1)), r1))
  {
    PopKeepsInv(t, es, HeldRegs(es), k);
    ReloadNeverSpills(t, es, HeldRegs(es) + {r2}, es[|es| - 1]);
    var a := Ensure(t, es, HeldRegs(es) + {r2}, es[|es| - 1]).value;
    r1 := a.reg;
    assert a.out.used == HeldRegs(es[..|es| - 1]) + {r1, r2};
  }

  lemma AddFrom(t: Target, meta: Metadata, es: seq<Entry>, used: set<Reg>, init: seq<Entry>,
                rest: seq<Entry>, o2: Out, r2: Reg, o1: Out, r1: Reg)
    requires |es| >= 2 && init == es[..|es| - 1] && rest == es[..|es| - 2] && WordEntries(es)
    requires Ensure(t, init, used, es[|es| - 1]) == Some(Taken(o2, r2))
    requires Ensure(t, init, o2.used, es[|es| - 2]) == Some(Taken(o1, r1))
    requires o2.es == init == o1.es
    ensures CompileOp(t, meta, es, used, AddI32)
         == Some(Out(rest + [Entry(4 * (|es| - 1), Some(r1), I32)], o1.used - {r2}, o2.code + o1.code
                     + [if t.addsCarry then Adc32(r1, r2) else Add32(r1, r2)]))
  {
    hide Ensure;
    assert init[|es| - 2] == es[|es| - 2];
    assert SetTop(init, r1) == rest + [Entry(4 * (|es| - 1), Some(r1), I32)];
  }

  /** The code of an addition: at most two reloads, then the add into the lower operand's register. */
  lemma AddShape(t: Target, meta: Metadata, es: seq<Entry>, used: set<Reg>, k: nat) returns (r1: Reg, r2: Reg)
    requires t.WellFormed() && Inv(t, es, used, k) && |es| >= 2
    ensures var n := |es|;
      && r1 != r2 && r1 in t.callerSaved && r2 in t.callerSaved
      && (es[n - 1].reg.Some? ==> r2 == es[n - 1].reg.value)
      && (es[n - 2].reg.Some? ==> r1 == es[n - 2].reg.value)
      && r1 !in HeldRegs(es[..n - 2]) && r2 !in HeldRegs(es[..n - 1])
      && Inv(t, es[..n - 2], HeldRegs(es[..n - 2]), Min(k, n - 2))
      && CompileOp(t, meta, es, used, AddI32)
         == Some(Out(es[..n - 2] + [Entry(4 * (n - 1), Some(r1), I32)], HeldRegs(es[..n - 2]) + {r1},
                     Reload(es[n - 1], r2) + Reload(es[n - 2], r1)
                     + [if t.addsCarry then Adc32(r1, r2) else Add32(r1, r2)]))
  {
    hide *;
    InvWords(t, meta, es, used, k);
    var n := |es|;
    var init, rest := es[..n - 1], es[..n - 2];
    assert init[..n - 2] == rest && init[n - 2] == es[n - 2];
    r2 := TopReload(t, es, used, k);
    r1 := SecondReload(t, init, Min(k, n - 1), r2);
    AddFrom(t, meta, es, used, init, rest, Out(init, HeldRegs(init) + {r2}, Reload(es[n - 1], r2)), r2,
            Out(init, HeldRegs(rest) + {r1, r2}, Reload(es[n - 2], r1)), r1);
    HeldBelow(init);
    assert HeldRegs(rest) + {r1, r2} - {r2} == HeldRegs(rest) + {r1};
  }

  /** The code of a local assignment: at most one reload, then the store. */
  lemma SetLocalShape(t: Target, meta: Metadata, es: seq<Entry>, used: set<Reg>, k: nat, idx: nat)
    returns (r: Reg)
    requires t.WellFormed() && Inv(t, es, used, k) && Enabled(meta, SetLocalI32(idx), |es|)
    ensures var n := |es|;
      && r in t.callerSaved && r !in HeldRegs(es[..n - 1])
      && (es[n - 1].reg.Some? ==> r == es[n - 1].reg.value)
      && Inv(t, es[..n - 1], HeldRegs(es[..n - 1]), Min(k, n - 1))
      && CompileOp(t, meta, es, used, SetLocalI32(idx))
         == Some(Out(es[..n - 1], HeldRegs(es[..n - 1]),
                     Reload(es[n - 1], r) + [SetLocalInstr(t, SlotOffset(meta, idx), r)]))
  {
    var n := |es|;
    r := TopReload(t, es, used, k);
    assert HeldRegs(es[..n - 1]) + {r} - {r} == HeldRegs(es[..n - 1]);
  }

  ghost predicate Visited(t: Target, meta: Metadata, o: Option<Out>, k: nat, n: int) {
    && o.Some?
    && Inv(t, o.value.es, o.value.used, k)
    && |o.value.es| == n
    && AllContained(t, meta, o.value.code)
    && Straight(o.value.code)
    && BindExit !in o.value.code
  }

  /** A visit of an instruction the compilers implement succeeds exactly when it is enabled, and then keeps
      the invariant; nothing is assumed of the frame. */
  lemma VisitShape(t: Target, meta: Metadata, es: seq<Entry>, used: set<Reg>, k: nat, op: Op)
    requires t.WellFormed() && Inv(t, es, used, k) && Implemented(meta, op)
    ensures var o := CompileOp(t, meta, es, used, op);
      && (o.Some? <==> Enabled(meta, op, |es|))
      && (o.Some? ==> Inv(t, o.value.es, o.value.used, SpilledAfter(t, op, |es|, k)) && |o.value.es| == Depth(op, |es|))
  {
    if Enabled(meta, op, |es|) {
      EnabledShape(t, meta, es, used, k, op);
    } else {
      hide Ensure, Allocate;
    }
  }

  /** No branch, and no local of another type than the instruction's. */
  predicate Implemented(meta: Metadata, op: Op) {
    match op
    case GetLocalI32(i) => i < |meta.LocalTypes()| ==> meta.LocalTypes()[i] == I32
    case SetLocalI32(i) => i < |meta.LocalTypes()| ==> meta.LocalTypes()[i] == I32
    case Label(_) | Br(_) | BrIf(_, _) => false
    case _ => true
  }

  lemma EnabledShape(t: Target, meta: Metadata, es: seq<Entry>, used: set<Reg>, k: nat, op: Op)
    requires t.WellFormed() && Inv(t, es, used, k) && Enabled(meta, op, |es|)
    ensures var o := CompileOp(t, meta, es, used, op);
      o.Some? && Inv(t, o.value.es, o.value.used, SpilledAfter(t, op, |es|, k)) && |o.value.es| == Depth(op, |es|)
  {
    hide CompileOp, Inv, HeldRegs;
    match op
    case ConstI32(_) | GetLocalI32(_) =>
      var r := PushShape(t, meta, es, used, k, op);
      var under := UnderPush(t, es, k);
      PushHolding(t, under, HeldRegs(under), SpilledAfterPush(t, |es|, k), r);
    case AddI32 =>
      var r1, r2 := AddShape(t, meta, es, used, k);
      var rest := es[..|es| - 2];
      PushHolding(t, rest, HeldRegs(rest), Min(k, |es| - 2), r1);
    case SetLocalI32(i) =>
      var r := SetLocalShape(t, meta, es, used, k, i);
    case Return => ReturnVisit(t, meta, es, used);
  }

  /** Every enabled visit succeeds, keeps the invariant with the predicted number of spilled entries,
      and emits jump-free code confined to caller-saved registers, spill slots and local slots. */
  lemma VisitKeepsInv(t: Target, meta: Metadata, es: seq<Entry>, used: set<Reg>, k: nat, op: Op)
    requires Sized(t, meta) && Inv(t, es, used, k) && Enabled(meta, op, |es|)
    ensures var o := CompileOp(t, meta, es, used, op);
      && o.Some?
      && Inv(t, o.value.es, o.value.used, SpilledAfter(t, op, |es|, k))
      && |o.value.es| == Depth(op, |es|)
      && AllContained(t, meta, o.value.code)
      && (op != Return ==> Straight(o.value.code))
      && BindExit !in o.value.code
  {
    hide CompileOp, Inv, Contained;
    match op
    case ConstI32(_) => PushVisit(t, meta, es, used, k, op);
    case GetLocalI32(_) => PushVisit(t, meta, es, used, k, op);
    case AddI32 => AddVisit(t, meta, es, used, k);
    case SetLocalI32(i) => SetLocalVisit(t, meta, es, used, k, i);
    case Return => ReturnVisit(t, meta, es, used);
  }

  lemma AddVisit(t: Target, meta: Metadata, es: seq<Entry>, used: set<Reg>, k: nat)
    requires Sized(t, meta) && Inv(t, es, used, k) && |es| >= 2
    ensures Visited(t, meta, CompileOp(t, meta, es, used, AddI32), Min(k, |es| - 2), |es| - 1)
  {
    hide CompileOp, Inv, HeldRegs;
    var r1, r2 := AddShape(t, meta, es, used, k);
    var rest := es[..|es| - 2];
    PushHolding(t, rest, HeldRegs(rest), Min(k, |es| - 2), r1);
    AddCodeContained(t, meta, es[|es| - 1], es[|es| - 2], r1, r2);
  }

  lemma AddCodeContained(t: Target, meta: Metadata, e2: Entry, e1: Entry, r1: Reg, r2: Reg)
    requires r1 in t.callerSaved && r2 in t.callerSaved
    ensures var code := Reload(e2, r2) + Reload(e1, r1) + [if t.addsCarry then Adc32(r1, r2) else Add32(r1, r2)];
      AllContained(t, meta, code) && Straight(code) && BindExit !in code
  {
  }

  lemma SetLocalVisit(t: Target, meta: Metadata, es: seq<Entry>, used: set<Reg>, k: nat, i: nat)
    requires Sized(t, meta) && Inv(t, es, used, k) && Enabled(meta, SetLocalI32(i), |es|)
    ensures Visited(t, meta, CompileOp(t, meta, es, used, SetLocalI32(i)), Min(k, |es| - 1), |es| - 1)
  {
    hide CompileOp, Inv;
    var r := SetLocalShape(t, meta, es, used, k, i);
    assert LocalWord(meta, SlotOffset(meta, i));
  }

  lemma ReturnVisit(t: Target, meta: Metadata, es: seq<Entry>, used: set<Reg>)
    ensures CompileOp(t, meta, es, used, Return) == Some(Out(es, used, [JmpExit]))
    ensures AllContained(t, meta, [JmpExit])
  {
  }

  lemma PushVisit(t: Target, meta: Metadata, es: seq<Entry>, used: set<Reg>, k: nat, op: Op)
    requires Sized(t, meta) && Inv(t, es, used, k) && Enabled(meta, op, |es|)
    requires op.ConstI32? || op.GetLocalI32?
    ensures Visited(t, meta, CompileOp(t, meta, es, used, op), SpilledAfterPush(t, |es|, k), |es| + 1)
  {
    hide CompileOp, Inv;
    var r := PushShape(t, meta, es, used, k, op);
    PushCodeContained(t, meta, es, used, k);
    var under := UnderPush(t, es, k);
    PushHolding(t, under, HeldRegs(under), SpilledAfterPush(t, |es|, k), r);
  }

  function Depth(op: Op, n: nat): int {
    match op
    case ConstI32(_) => n + 1
    case GetLocalI32(_) => n + 1
    case AddI32 => n - 1
    case SetLocalI32(_) => n - 1
    case _ => n
  }
}
