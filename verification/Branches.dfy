/** What becomes of `if` and `else`: the branch instructions read for them are visited by the validator and the
    compilers without effect. */
module Branches {
  import opened Wrappers
  import opened WasmCore
  import opened Machine
  import opened Registers
  import opened RuntimeStack
  import opened ByteStream
  import opened CompilerSpec
  import opened Validator
  import opened ParserSpec
  import opened BinaryGrammar
  import opened ParserErrors

  predicate IsBranch(op: Op) {
    op.Label? || op.Br? || op.BrIf?
  }

  /** A body without its branch instructions: both arms of every `if`, one behind the other, and the condition
      still on the stack. */
  function Straightened(ops: seq<Op>): (r: seq<Op>)
    ensures Supported(r)
  {
    if ops == [] then []
    else if IsBranch(ops[0]) then Straightened(ops[1..])
    else [ops[0]] + Straightened(ops[1..])
  }

  lemma {:induction false} VisitsIgnoreBranches(c: Context, v: VState, ops: seq<Op>)
    ensures VisitAll(c, v, ops) == VisitAll(c, v, Straightened(ops))
    decreases |ops|
  {
    if ops != [] {
      if IsBranch(ops[0]) {
        VisitsIgnoreBranches(c, v, ops[1..]);
      } else {
        hide Visit;
        assert Straightened(ops)[1..] == Straightened(ops[1..]);
        if Visit(c, v, ops[0]).Some? {
          VisitsIgnoreBranches(c, Visit(c, v, ops[0]).value, ops[1..]);
        }
      }
    }
  }

  lemma {:induction false} CodeIgnoresBranches(t: Target, meta: Metadata, es: seq<Entry>, used: set<Reg>, ops: seq<Op>)
    ensures CompileOps(t, meta, es, used, ops) == CompileOps(t, meta, es, used, Straightened(ops))
    decreases |ops|
  {
    if ops != [] {
      if IsBranch(ops[0]) {
        CodeIgnoresBranches(t, meta, es, used, ops[1..]);
        var rest := CompileOps(t, meta, es, used, ops[1..]);
        assert rest.Some? ==> [] + rest.value.code == rest.value.code;
      } else {
        hide CompileOp;
        assert Straightened(ops)[1..] == Straightened(ops[1..]);
        var first := CompileOp(t, meta, es, used, ops[0]);
        if first.Some? {
          CodeIgnoresBranches(t, meta, first.value.es, first.value.used, ops[1..]);
        }
      }
    }
  }

  /** Every body is accepted, with the same marks, and compiled, to the same code, as it is without its branch
      instructions. What is proved of such bodies therefore holds of all. */
  lemma BranchesIgnored(t: Target, meta: Metadata, c: Context, body: seq<Op>)
    requires |meta.signature.params| <= |t.args|
    ensures Check(c, body) == Check(c, Straightened(body))
    ensures CompileFunction(t, meta, body) == CompileFunction(t, meta, Straightened(body))
  {
    VisitsIgnoreBranches(c, START, body);
    CodeIgnoresBranches(t, meta, [], {}, body);
    hide VisitAll, CompileOps, Finalize, Epilogue, Prologue;
  }

  /** In the binary format a block type follows the opcode of `if`. The parser does not read one, and so it refuses
      every `if` without a result or with one result, as an unknown opcode. */
  lemma IfRefused(c: Context, v: VState, blockType: Byte, rest: seq<Byte>)
    requires blockType in {0x40, 0x7F, 0x7E, 0x7D, 0x7C, 0x7B, 0x70, 0x6F}
    ensures ReadExpression(c, v, [0x04] + ([blockType] + rest)) == Err(ParseError)
  {
    var mid := [blockType] + rest;
    var ops := [BrIf("then_0", "else_0"), Label("then_0")];
    assert ([0x04] + mid)[1..] == mid && InstructionAt([0x04] + mid, ops, mid);
    var groups := [ops];
    assert EachAt(mid, groups[1..], InstructionAt, mid);
    assert EachAt([0x04] + mid, groups, InstructionAt, mid);
    assert Flat(groups) == ops + [] == ops && ops[1..] == [Label("then_0")] && ops[1..][1..] == [];
    assert VisitAll(c, v, ops[1..]) == Some(v) && VisitAll(c, v, ops) == Some(v);
    hide ReadExpression, InstructionAt, EachAt, VisitAll;
    ExpressionErrors(c, v, [0x04] + mid, groups, mid);
  }
}
