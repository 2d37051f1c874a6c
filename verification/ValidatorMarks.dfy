/** The high-water marks of every accepted body, dead code included: the element mark is always the true
    maximum, the byte mark exactly when nothing is pushed after a phantom has been popped. */
module ValidatorMarks {
  import opened WasmCore
  import opened Validator

  /** Phantoms an accepted visit pops: what it needs beyond the stack it finds in dead code. */
  function PhantomsOf(c: Context, v: VState, op: Op): nat {
    var needs := match op case AddI32 => 2 case SetLocalI32(_) => 1 case Return => |c.results| case _ => 0;
    if needs > |v.stack| then needs - |v.stack| else 0
  }

  predicate Pushes(op: Op) {
    op.ConstI32? || op.AddI32? || op.GetLocalI32?
  }

  /** Nothing is pushed once a phantom has been popped; `ph` were popped before. */
  predicate CleanMarks(c: Context, v: VState, ph: nat, ops: seq<Op>)
    decreases |ops|
  {
    ops == [] ||
    (var ph' := ph + PhantomsOf(c, v, ops[0]);
     var v' := Visit(c, v, ops[0]);
     (Pushes(ops[0]) ==> ph' == 0) && (v'.Some? ==> CleanMarks(c, v'.value, ph', ops[1..])))
  }

  /** The largest stacks met on the way, in bytes and in elements. */
  function BytePeak(c: Context, v: VState, ops: seq<Op>): nat
    decreases |ops|
  {
    if ops == [] || Visit(c, v, ops[0]).None? then TotalBytes(v.stack)
    else MaxOf(TotalBytes(v.stack), BytePeak(c, Visit(c, v, ops[0]).value, ops[1..]))
  }

  function ElementPeak(c: Context, v: VState, ops: seq<Op>): nat
    decreases |ops|
  {
    if ops == [] || Visit(c, v, ops[0]).None? then |v.stack|
    else MaxOf(|v.stack|, ElementPeak(c, Visit(c, v, ops[0]).value, ops[1..]))
  }

  ghost predicate Words(stack: seq<ValType>) {
    forall i :: 0 <= i < |stack| ==> stack[i] == I32
  }

  lemma {:induction false} WordsBytes(stack: seq<ValType>)
    requires Words(stack)
    ensures TotalBytes(stack) == 4 * |stack|
  {
    if stack != [] {
      WordsBytes(stack[1..]);
    }
  }

  /** The byte counter, with `ph` phantoms popped so far. */
  function Counter(n: nat, ph: nat): Quad {
    (4 * n - 16 * ph) % TWO_64
  }

  /** The usage law: the counter is the stack's size less 16 bytes a phantom, modulo 2^64. */
  ghost predicate Law(v: VState, ph: nat) {
    Words(v.stack) && v.usage == Counter(|v.stack|, ph) && (ph > 0 ==> v.unreachable)
  }

  lemma Wraps(a: int, b: int)
    ensures (a % TWO_64 + b) % TWO_64 == (a + b) % TWO_64
  {
    var q := a / TWO_64;
    assert a + b == (a % TWO_64 + b) + q * TWO_64;
    ModMultiple(a % TWO_64 + b, q);
  }

  lemma ModMultiple(a: int, q: int)
    ensures (a + q * TWO_64) % TWO_64 == a % TWO_64
  {
    var x, y := a / TWO_64, (a + q * TWO_64) / TWO_64;
    assert (a + q * TWO_64) % TWO_64 - a % TWO_64 == (x + q - y) * TWO_64;
  }

  lemma PopLaw(v: VState, vt: ValType, ph: nat)
    requires Law(v, ph) && Pop(v, vt).Some?
    ensures var p := Pop(v, vt).value;
      && Law(p, if v.stack == [] then ph + 1 else ph)
      && p.stack == (if v.stack == [] then [] else v.stack[..|v.stack| - 1])
      && SameMarks(v, p)
  {
    var n := |v.stack|;
    var a := 4 * n - 16 * ph;
    Wraps(a, TWO_64 - 4);
    Wraps(a, TWO_64 - 16);
    ModMultiple(a - 4, 1);
    ModMultiple(a - 16, 1);
  }

  predicate SameMarks(a: VState, b: VState) {
    a.maxElements == b.maxElements && a.maxUsage == b.maxUsage && a.unreachable == b.unreachable
  }

  function Below(n: nat, taken: nat): nat {
    if taken > n then 0 else n - taken
  }

  lemma {:induction false} PopAllLaw(v: VState, types: seq<ValType>, ph: nat)
    requires Law(v, ph) && PopAll(v, types).Some?
    ensures var p := PopAll(v, types).value;
      && Law(p, ph + Below(|types|, |v.stack|)) && |p.stack| == Below(|v.stack|, |types|)
      && SameMarks(v, p)
    decreases |types|
  {
    if types != [] {
      PopLaw(v, types[0], ph);
      hide Law, Pop;
      PopAllLaw(Pop(v, types[0]).value, types[1..], if v.stack == [] then ph + 1 else ph);
    }
  }

  lemma PushLaw(v: VState, ph: nat)
    requires Law(v, ph)
    ensures Law(Push(v, I32), ph) && Push(v, I32).stack == v.stack + [I32]
    ensures var p := Push(v, I32);
      && p.maxElements == MaxOf(v.maxElements, |v.stack| + 1)
      && p.maxUsage == MaxOf(v.maxUsage, Counter(|v.stack| + 1, ph))
  {
    Wraps(4 * |v.stack| - 16 * ph, 4);
  }

  /** Every accepted visit keeps the usage law, counting the phantoms it pops; only pushes move the marks. */
  lemma VisitLaw(c: Context, v: VState, op: Op, ph: nat)
    requires Law(v, ph) && Visit(c, v, op).Some?
    ensures var v', ph' := Visit(c, v, op).value, ph + PhantomsOf(c, v, op);
      && Law(v', ph')
      && |v'.stack| <= |v.stack| + 1
      && (Pushes(op) ==>
            && v'.stack != [] && v'.maxElements == MaxOf(v.maxElements, |v'.stack|)
            && v'.maxUsage == MaxOf(v.maxUsage, Counter(|v'.stack|, ph')))
      && (!Pushes(op) ==> v'.maxElements == v.maxElements && v'.maxUsage == v.maxUsage && |v'.stack| <= |v.stack|)
      && (ph' > ph ==> |v'.stack| == if Pushes(op) then 1 else 0)
      && (Pushes(op) && v.stack == [] && ph' == ph ==> |v'.stack| == 1)
  {
    hide Law, Pop, Push, Counter;
    match op
    case ConstI32(_) => PushLaw(v, ph);
    case GetLocalI32(_) => PushLaw(v, ph);
    case AddI32 =>
      PopAllLaw(v, [I32, I32], ph);
      PushLaw(PopAll(v, [I32, I32]).value, ph + PhantomsOf(c, v, op));
    case SetLocalI32(_) => PopOneLaw(v, ph);
    case Return =>
      PopAllLaw(v, c.results, ph);
      ReturnLaw(PopAll(v, c.results).value, ph + PhantomsOf(c, v, op));
    case Label(_) =>
    case Br(_) =>
    case BrIf(_, _) =>
  }

  lemma PopOneLaw(v: VState, ph: nat)
    requires Law(v, ph) && Pop(v, I32).Some?
    ensures var p := Pop(v, I32).value;
      Law(p, ph + Below(1, |v.stack|)) && |p.stack| == Below(|v.stack|, 1) && SameMarks(v, p)
  {
    PopLaw(v, I32, ph);
  }

  lemma ReturnLaw(v: VState, ph: nat)
    requires Law(v, ph)
    ensures Law(v.(unreachable := true), ph)
  {
  }

  // ---------- whole bodies ----------

  lemma {:induction false} ByteMarkGrows(c: Context, v: VState, ph: nat, ops: seq<Op>)
    requires Law(v, ph) && VisitAll(c, v, ops).Some?
    ensures VisitAll(c, v, ops).value.maxUsage >= v.maxUsage
    decreases |ops|
  {
    if ops != [] {
      VisitLaw(c, v, ops[0], ph);
      hide Law, Visit, PhantomsOf, Pushes;
      ByteMarkGrows(c, Visit(c, v, ops[0]).value, ph + PhantomsOf(c, v, ops[0]), ops[1..]);
    }
  }

  lemma {:induction false} PeakBounded(c: Context, v: VState, ph: nat, ops: seq<Op>)
    requires Law(v, ph)
    ensures BytePeak(c, v, ops) <= 4 * (|v.stack| + |ops|)
    decreases |ops|
  {
    WordsBytes(v.stack);
    if ops != [] && Visit(c, v, ops[0]).Some? {
      VisitLaw(c, v, ops[0], ph);
      hide Law, Visit, PhantomsOf, Pushes, TotalBytes;
      PeakBounded(c, Visit(c, v, ops[0]).value, ph + PhantomsOf(c, v, ops[0]), ops[1..]);
    }
  }

  /** The element mark counts every stack met on the way. */
  lemma {:induction false} ElementMark(c: Context, v: VState, ph: nat, ops: seq<Op>)
    requires Law(v, ph) && VisitAll(c, v, ops).Some? && |v.stack| <= v.maxElements
    ensures VisitAll(c, v, ops).value.maxElements == MaxOf(v.maxElements, ElementPeak(c, v, ops))
    decreases |ops|
  {
    if ops != [] {
      VisitLaw(c, v, ops[0], ph);
      hide Law, Visit, PhantomsOf;
      ElementMark(c, Visit(c, v, ops[0]).value, ph + PhantomsOf(c, v, ops[0]), ops[1..]);
    }
  }

  /** No wrap-around but the phantoms' own: the run is far shorter than 2^64 bytes of operands. */
  predicate Short(v: VState, ph: nat, n: nat) {
    36 * n + 16 * ph + 4 * |v.stack| < TWO_64
  }

  /** What a push counts: the true size without phantoms, and a huge value on the stack a phantom left. */
  lemma CounterValue(n: nat, ph: nat)
    requires 4 * n + 16 * ph < TWO_64
    ensures ph == 0 ==> Counter(n, ph) == 4 * n
    ensures ph > 0 && n == 1 ==> Counter(n, ph) == TWO_64 + 4 - 16 * ph
  {
    if ph > 0 {
      ModMultiple(4 * n - 16 * ph, 1);
    }
  }

  /** What a visit does to the byte mark while it is still right: keeps it right, or pushes on the stack a
      phantom left and spoils it for good. */
  lemma ByteStep(c: Context, v: VState, ph: nat, op: Op, n: nat)
    requires |c.results| <= 2 && Law(v, ph) && Visit(c, v, op).Some? && Short(v, ph, n + 1)
    requires 4 * |v.stack| <= v.maxUsage && (ph > 0 ==> v.stack == [])
    ensures var v', ph' := Visit(c, v, op).value, ph + PhantomsOf(c, v, op);
      && Law(v', ph') && Short(v', ph', n) && ph' <= ph + 2
      && (if Pushes(op) && ph' > 0 then v'.maxUsage + 16 * ph' >= TWO_64
          else v'.maxUsage == MaxOf(v.maxUsage, 4 * |v'.stack|) && (ph' > 0 ==> v'.stack == []))
  {
    var v', ph' := Visit(c, v, op).value, ph + PhantomsOf(c, v, op);
    VisitLaw(c, v, op, ph);
    assert ph' <= ph + 2;
    CounterValue(|v'.stack|, ph');
    hide Law, Visit, Counter, PhantomsOf;
  }

  lemma {:induction false} ByteMark(c: Context, v: VState, ph: nat, ops: seq<Op>)
    requires |c.results| <= 2 && Law(v, ph) && VisitAll(c, v, ops).Some? && Short(v, ph, |ops|)
    requires 4 * |v.stack| <= v.maxUsage && (ph > 0 ==> v.stack == [])
    ensures var mark := VisitAll(c, v, ops).value.maxUsage;
      if CleanMarks(c, v, ph, ops) then mark == MaxOf(v.maxUsage, BytePeak(c, v, ops))
      else mark + 16 * (ph + 2 * |ops|) >= TWO_64
    decreases |ops|
  {
    WordsBytes(v.stack);
    if ops != [] {
      var v', ph' := Visit(c, v, ops[0]).value, ph + PhantomsOf(c, v, ops[0]);
      ByteStep(c, v, ph, ops[0], |ops| - 1);
      WordsBytes(v'.stack);
      hide Law, Visit, TotalBytes, PhantomsOf, Short, Pushes;
      if Pushes(ops[0]) && ph' > 0 {
        ByteMarkGrows(c, v', ph', ops[1..]);
      } else {
        ByteMark(c, v', ph', ops[1..]);
        PeakFromHere(c, v', ops[1..]);
      }
    }
  }

  lemma PeakFromHere(c: Context, v: VState, ops: seq<Op>)
    ensures BytePeak(c, v, ops) >= TotalBytes(v.stack)
  {
  }

  /** For every accepted body, dead code and all: the element mark is the largest stack met; the byte
      mark is the largest number of operand bytes if and only if nothing is pushed after a phantom has
      been popped. (A body has less than 2^32 bytes, so it has fewer instructions.) */
  lemma MarksExact(c: Context, body: seq<Op>)
    requires |c.results| <= 1 && Check(c, body).Some? && |body| < TWO_32
    ensures Check(c, body).value.maxElements == ElementPeak(c, START, body)
    ensures Check(c, body).value.maxUsage == BytePeak(c, START, body) <==> CleanMarks(c, START, 0, body)
  {
    var v := VisitAll(c, START, body).value;
    assert Law(START, 0);
    hide Law, VisitAll, CleanMarks, BytePeak, ElementPeak;
    ElementMark(c, START, 0, body);
    ByteMark(c, START, 0, body);
    PeakBounded(c, START, 0, body);
    PopAllMarks(v, c.results);
  }

  lemma {:induction false} PopAllMarks(v: VState, types: seq<ValType>)
    requires PopAll(v, types).Some?
    ensures SameMarks(v, PopAll(v, types).value)
    decreases |types|
  {
    if types != [] {
      PopAllMarks(Pop(v, types[0]).value, types[1..]);
    }
  }
}
