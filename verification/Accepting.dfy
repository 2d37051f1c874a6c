/** The validator on bodies of words: its states are a depth, a mark and whether code is dead. */
module Accepting {
  import opened Wrappers
  import opened WasmCore
  import opened Validator
  import opened ValidatorBounds

  function Words32(n: nat): (ts: seq<ValType>)
    ensures |ts| == n
  {
    seq(n, _ => I32)
  }

  lemma WordsSnoc(n: nat)
    ensures Words32(n) + [I32] == Words32(n + 1)
    ensures Words32(n + 1)[..n] == Words32(n) && Words32(n + 1)[n] == I32
  {
  }

  function Counted(dead: bool, n: nat, mark: nat): VState
    requires n <= mark <= 33
  {
    VState(dead, Words32(n), 4 * n, mark, 4 * mark)
  }

  lemma StartCounted()
    ensures START == Counted(false, 0, 0)
  {
  }

  lemma PushVisited(c: Context, dead: bool, n: nat, mark: nat, op: Op)
    requires n <= mark <= 33 && n < 33 && (op.ConstI32? || (op.GetLocalI32? && HasLocal(c, op.idx, I32)))
    ensures Visit(c, Counted(dead, n, mark), op) == Some(Counted(dead, n + 1, MaxOf(mark, n + 1)))
  {
    WordsSnoc(n);
    hide Words32;
  }

  lemma PopCounted(dead: bool, n: nat, mark: nat)
    requires 1 <= n <= mark <= 33
    ensures Pop(Counted(dead, n, mark), I32) == Some(Counted(dead, n - 1, mark))
  {
    WordsSnoc(n - 1);
    WrapBack(4 * n);
    hide Words32;
  }

  lemma SetVisited(c: Context, dead: bool, n: nat, mark: nat, i: nat)
    requires 1 <= n <= mark <= 33 && HasLocal(c, i, I32)
    ensures Visit(c, Counted(dead, n, mark), SetLocalI32(i)) == Some(Counted(dead, n - 1, mark))
  {
    PopCounted(dead, n, mark);
    hide Pop, Counted;
  }

  lemma AddVisited(c: Context, dead: bool, n: nat, mark: nat)
    requires 2 <= n <= mark <= 33
    ensures Visit(c, Counted(dead, n, mark), AddI32) == Some(Counted(dead, n - 1, mark))
  {
    PopTwice(Counted(dead, n, mark));
    PopCounted(dead, n, mark);
    PopCounted(dead, n - 1, mark);
    PushVisited(c, dead, n - 2, mark, ConstI32(0));
    hide Pop, Push, PopAll, Counted;
  }

  lemma EndVisited(c: Context, dead: bool, mark: nat)
    requires 1 <= mark <= 33 && c.results == [I32]
    ensures Finalize(c, Counted(dead, 1, mark)) == Some(Counted(dead, 0, mark))
  {
    PopCounted(dead, 1, mark);
    assert c.results[1..] == [];
    assert PopAll(Counted(dead, 0, mark), []) == Some(Counted(dead, 0, mark));
    hide Pop;
  }

  lemma ReturnCounted(c: Context, dead: bool, mark: nat)
    requires 1 <= mark <= 33 && c.results == [I32]
    ensures Visit(c, Counted(dead, 1, mark), Return) == Some(Counted(true, 0, mark))
  {
    EndVisited(c, dead, mark);
    hide Finalize;
  }

  /** A visit, and the rest. */
  lemma VisitThen(c: Context, v: VState, op: Op, rest: seq<Op>, w: VState)
    requires Visit(c, v, op) == Some(w)
    ensures VisitAll(c, v, [op] + rest) == VisitAll(c, w, rest)
  {
    hide Visit;
    assert ([op] + rest)[1..] == rest;
  }

  lemma VisitNone(c: Context, v: VState)
    ensures VisitAll(c, v, []) == Some(v)
  {
  }
}
