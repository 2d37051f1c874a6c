/** The result of a body as a linear form over the locals it starts on: with additions only, every operand is
    a constant plus a weighted sum of these locals, modulo 2^32. The weights are computed from the body. */
module LinearMeaning {
  import opened Wrappers
  import opened WasmCore
  import Interpreter
  import opened CompilerShape
  import opened ValidatorBounds
  import opened CompilerRun

  // ---------- weighted sums ----------

  function Dot(k: seq<int>, xs: seq<Word>): int
    requires |k| == |xs|
  {
    if k == [] then 0 else k[0] * xs[0] + Dot(k[1..], xs[1..])
  }

  /** No difference in 32 bits. */
  predicate Cancels(x: int) {
    x % TWO_32 == 0
  }

  function Zeros(n: nat): (k: seq<int>)
    ensures |k| == n
  {
    seq(n, _ => 0)
  }

  function Unit(n: nat, i: nat): (k: seq<int>)
    ensures |k| == n
  {
    seq(n, j => if j == i then 1 else 0)
  }

  function Sums(a: seq<int>, b: seq<int>): (k: seq<int>)
    requires |a| == |b|
    ensures |k| == |a|
  {
    seq(|a|, i requires 0 <= i < |a| => a[i] + b[i])
  }

  lemma {:induction false} DotSums(a: seq<int>, b: seq<int>, xs: seq<Word>)
    requires |a| == |b| == |xs|
    ensures Dot(Sums(a, b), xs) == Dot(a, xs) + Dot(b, xs)
  {
    if a != [] {
      assert Sums(a, b)[1..] == Sums(a[1..], b[1..]);
      DotSums(a[1..], b[1..], xs[1..]);
      assert (a[0] + b[0]) * xs[0] == a[0] * xs[0] + b[0] * xs[0];
    }
  }

  lemma {:induction false} DotZeros(n: nat, xs: seq<Word>)
    requires |xs| == n
    ensures Dot(Zeros(n), xs) == 0
  {
    if n > 0 {
      assert Zeros(n)[1..] == Zeros(n - 1);
      DotZeros(n - 1, xs[1..]);
    }
  }

  lemma {:induction false} DotUnit(n: nat, i: nat, xs: seq<Word>)
    requires |xs| == n && i < n
    ensures Dot(Unit(n, i), xs) == xs[i]
  {
    if i == 0 {
      assert Unit(n, 0)[1..] == Zeros(n - 1);
      DotZeros(n - 1, xs[1..]);
    } else {
      assert Unit(n, i)[1..] == Unit(n - 1, i - 1);
      DotUnit(n - 1, i - 1, xs[1..]);
    }
  }

  lemma {:induction false} DotConcat(k: seq<int>, xs: seq<Word>, ys: seq<Word>)
    requires |k| == |xs| + |ys|
    ensures Dot(k, xs + ys) == Dot(k[..|xs|], xs) + Dot(k[|xs|..], ys)
  {
    if xs == [] {
      assert xs + ys == ys && k[0..] == k;
    } else {
      assert (xs + ys)[1..] == xs[1..] + ys;
      assert k[..|xs|][1..] == k[1..][..|xs| - 1] && k[|xs|..] == k[1..][|xs| - 1..];
      DotConcat(k[1..], xs[1..], ys);
    }
  }

  lemma {:induction false} DotNothing(k: seq<int>, xs: seq<Word>)
    requires |k| == |xs| && forall i :: 0 <= i < |xs| ==> xs[i] == 0
    ensures Dot(k, xs) == 0
  {
    if k != [] {
      DotNothing(k[1..], xs[1..]);
    }
  }

  /** Only weights that are no multiples of the modulus count. */
  lemma {:induction false} DotVanishes(k: seq<int>, xs: seq<Word>)
    requires |k| == |xs| && forall i :: 0 <= i < |k| ==> xs[i] == 0 || Cancels(k[i])
    ensures Cancels(Dot(k, xs))
  {
    if k != [] {
      DotVanishes(k[1..], xs[1..]);
      ProductVanishes(k[0], xs[0]);
      SumVanishes(k[0] * xs[0], Dot(k[1..], xs[1..]));
    }
  }

  lemma ProductVanishes(k: int, x: Word)
    requires x == 0 || Cancels(k)
    ensures Cancels(k * x)
  {
    if x != 0 {
      var q := k / TWO_32;
      assert k == q * TWO_32;
      assert k * x == (q * x) * TWO_32;
      MultipleVanishes(q * x);
    }
  }

  lemma MultipleVanishes(q: int)
    ensures Cancels(q * TWO_32)
  {
  }

  lemma SumVanishes(a: int, b: int)
    requires Cancels(a) && Cancels(b)
    ensures Cancels(a + b)
  {
  }

  lemma {:induction false} DotOnlyOne(k: seq<int>, i: nat, xs: seq<Word>)
    requires |k| == |xs| && i < |xs| && xs[i] == 1 && forall j :: 0 <= j < |xs| && j != i ==> xs[j] == 0
    ensures Dot(k, xs) == k[i]
  {
    if i == 0 {
      DotNothing(k[1..], xs[1..]);
    } else {
      DotOnlyOne(k[1..], i - 1, xs[1..]);
    }
  }

  // ---------- symbolic execution ----------

  /** `constant` plus the weighted sum of the locals at the start. */
  datatype Form = Form(constant: int, weights: seq<int>)

  datatype Forms = Forms(stack: seq<Form>, locals: seq<Form>)

  predicate Over(s: Forms, n: nat) {
    && (forall i :: 0 <= i < |s.stack| ==> |s.stack[i].weights| == n)
    && |s.locals| == n && (forall i :: 0 <= i < n ==> |s.locals[i].weights| == n)
  }

  function StartForms(n: nat): (s: Forms)
    ensures Over(s, n)
  {
    Forms([], seq(n, i requires 0 <= i < n => Form(0, Unit(n, i))))
  }

  function FormSum(a: Form, b: Form): Form
    requires |a.weights| == |b.weights|
  {
    Form(a.constant + b.constant, Sums(a.weights, b.weights))
  }

  function StepForms(op: Op, s: Forms, n: nat): (s': Forms)
    requires Over(s, n)
    ensures Over(s', n)
  {
    var d := |s.stack|;
    match op
    case ConstI32(v) => s.(stack := s.stack + [Form(v, Zeros(n))])
    case AddI32 =>
      if d < 2 then s else s.(stack := s.stack[..d - 2] + [FormSum(s.stack[d - 2], s.stack[d - 1])])
    case GetLocalI32(i) => if i >= n then s else s.(stack := s.stack + [s.locals[i]])
    case SetLocalI32(i) =>
      if d < 1 || i >= n then s else s.(stack := s.stack[..d - 1], locals := s.locals[i := s.stack[d - 1]])
    case _ => s
  }

  function ExecForms(ops: seq<Op>, s: Forms, n: nat): (s': Forms)
    requires Over(s, n)
    ensures Over(s', n)
  {
    if ops == [] then s else ExecForms(ops[1..], StepForms(ops[0], s, n), n)
  }

  function Denoted(f: Form, xs: seq<Word>): Word
    requires |f.weights| == |xs|
  {
    (f.constant + Dot(f.weights, xs)) % TWO_32
  }

  /** The i32 locals, and nothing in place of the others: no instruction reads these. */
  function WordsOf(types: seq<ValType>, locals: seq<Word>): (xs: seq<Word>)
    requires |types| == |locals|
    ensures |xs| == |locals|
  {
    seq(|locals|, i requires 0 <= i < |locals| => if types[i] == I32 then locals[i] else 0)
  }

  /** The forms give the interpreter's operands and i32 locals, on these words to start with. */
  ghost predicate Denotes(meta: Metadata, f: Forms, xs: seq<Word>, s: Interpreter.State) {
    var n := |meta.LocalTypes()|;
    && Over(f, n) && |xs| == n && s.mode.Running?
    && |f.stack| == |s.stack| && |s.locals| == n
    && (forall i :: 0 <= i < |s.stack| ==> Denoted(f.stack[i], xs) == s.stack[i])
    && (forall i :: 0 <= i < n && meta.LocalTypes()[i] == I32 ==> Denoted(f.locals[i], xs) == s.locals[i])
  }

  lemma StartDescribed(meta: Metadata, locals: seq<Word>)
    requires |locals| == |meta.LocalTypes()|
    ensures Denotes(meta, StartForms(|locals|), WordsOf(meta.LocalTypes(), locals), Interpreter.Initial(locals))
  {
    var n, xs := |locals|, WordsOf(meta.LocalTypes(), locals);
    forall i | 0 <= i < n && meta.LocalTypes()[i] == I32
      ensures Denoted(StartForms(n).locals[i], xs) == locals[i]
    {
      DotUnit(n, i, xs);
    }
  }

  lemma SumDenoted(a: Form, b: Form, xs: seq<Word>)
    requires |a.weights| == |b.weights| == |xs|
    ensures Denoted(FormSum(a, b), xs) == Interpreter.Plus(Denoted(a, xs), Denoted(b, xs))
  {
    DotSums(a.weights, b.weights, xs);
    ModSum(a.constant + Dot(a.weights, xs), b.constant + Dot(b.weights, xs));
  }

  lemma ModSum(a: int, b: int)
    ensures (a + b) % TWO_32 == (a % TWO_32 + b % TWO_32) % TWO_32
  {
  }

  lemma ConstDenoted(v: Word, xs: seq<Word>)
    ensures Denoted(Form(v, Zeros(|xs|)), xs) == v
  {
    DotZeros(|xs|, xs);
  }

  lemma StepDescribed(meta: Metadata, op: Op, f: Forms, xs: seq<Word>, s: Interpreter.State)
    requires Denotes(meta, f, xs, s) && Enabled(meta, op, |s.stack|) && op != Return
    ensures Denotes(meta, StepForms(op, f, |xs|), xs, Interpreter.Step(op, s))
  {
    var d := |s.stack|;
    hide Denoted, FormSum, Zeros, Interpreter.Plus;
    match op
    case ConstI32(v) => ConstDenoted(v, xs);
    case AddI32 => SumDenoted(f.stack[d - 2], f.stack[d - 1], xs);
    case GetLocalI32(i) =>
    case SetLocalI32(i) =>
  }

  lemma {:induction false} ExecDescribed(meta: Metadata, ops: seq<Op>, f: Forms, xs: seq<Word>, s: Interpreter.State)
    requires Denotes(meta, f, xs, s) && AllEnabled(meta, ops, |s.stack|)
    ensures Denotes(meta, ExecForms(ops, f, |xs|), xs, Interpreter.Exec(ops, s))
    decreases |ops|
  {
    if ops != [] {
      StepDescribed(meta, ops[0], f, xs, s);
      StepEnabled(meta, ops[0], s);
      hide StepForms, Interpreter.Step, Denoted, Enabled, Depth;
      ExecDescribed(meta, ops[1..], StepForms(ops[0], f, |xs|), xs, Interpreter.Step(ops[0], s));
    }
  }

  // ---------- the result ----------

  /** The result of a body as a form. */
  function ResultForm(meta: Metadata, body: seq<Op>): (f: Form)
    ensures |f.weights| == |meta.LocalTypes()|
  {
    var n := |meta.LocalTypes()|;
    var stack := ExecForms(Core(body), StartForms(n), n).stack;
    if stack == [] then Form(0, Zeros(n)) else stack[|stack| - 1]
  }

  /** How often each local counts in the result. */
  function Weights(meta: Metadata, body: seq<Op>): (k: seq<int>)
    ensures |k| == |meta.LocalTypes()|
  {
    ResultForm(meta, body).weights
  }

  /** The weighted sum of the i32 locals in the result. */
  function Weighted(meta: Metadata, body: seq<Op>, locals: seq<Word>): int
    requires |locals| == |meta.LocalTypes()|
  {
    Dot(Weights(meta, body), WordsOf(meta.LocalTypes(), locals))
  }

  /** The meaning of a body is its form, on all locals. */
  lemma MeaningLinear(meta: Metadata, body: seq<Op>, locals: seq<Word>)
    requires Compilable(meta, body) && meta.signature.results != [] && |locals| == |meta.LocalTypes()|
    ensures Meaning(body, locals)
         == Some((ResultForm(meta, body).constant + Weighted(meta, body, locals)) % TWO_32)
  {
    var s0, xs := Interpreter.Initial(locals), WordsOf(meta.LocalTypes(), locals);
    CoreReady(meta, body, locals);
    StartDescribed(meta, locals);
    ExecDescribed(meta, Core(body), StartForms(|locals|), xs, s0);
    hide Compilable, AllEnabled, Interpreter.Exec, Core, Dot, ExecForms, StartForms, WordsOf;
    var s := Interpreter.Exec(Core(body), s0);
    assert |s.stack| == 1;
    assert Denoted(ResultForm(meta, body), xs) == s.stack[0];
  }

  /** Two sets of locals give a body the same meaning if and only if their weighted sums agree. */
  lemma SameMeaningExactly(meta: Metadata, body: seq<Op>, a: seq<Word>, b: seq<Word>)
    requires Compilable(meta, body) && meta.signature.results != [] && |a| == |b| == |meta.LocalTypes()|
    ensures Meaning(body, a) == Meaning(body, b) <==> Cancels(Weighted(meta, body, a) - Weighted(meta, body, b))
  {
    MeaningLinear(meta, body, a);
    MeaningLinear(meta, body, b);
    hide *;
    SameRemainder(ResultForm(meta, body).constant, Weighted(meta, body, a), Weighted(meta, body, b));
  }

  lemma SameRemainder(c: int, a: int, b: int)
    ensures (c + a) % TWO_32 == (c + b) % TWO_32 <==> Cancels(a - b)
  {
  }
}
