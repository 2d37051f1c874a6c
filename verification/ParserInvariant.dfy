/** What holds of the module builder after every section, and of every parsed module. */
module ParserInvariant {
  import opened Wrappers
  import opened WasmCore
  import opened ByteStream
  import opened Validator
  import opened ValidatorBounds
  import opened ParserSpec
  import opened ParserProgress

  predicate Limited(s: BlockType) {
    |s.params| <= MAX_FUNCTION_PARAMETERS && |s.results| <= MAX_FUNCTION_RESULTS
  }

  /** The body passed the validator, and the metadata are its marks; the element mark fits its 32 bits. */
  ghost predicate Accepted(f: Function) {
    var c := ContextOf(f.meta.signature, f.meta.locals);
    && Check(c, f.body).Some? && Check(c, f.body).value.maxElements < TWO_32
    && f.meta == MetaOf(f.meta.signature, f.meta.locals, Check(c, f.body).value)
  }

  ghost predicate DistinctNames(exports: seq<Export>) {
    forall i, j :: 0 <= i < j < |exports| ==> exports[i].name != exports[j].name
  }

  ghost predicate LimitedSignatures(ss: seq<BlockType>) {
    forall i :: 0 <= i < |ss| ==> Limited(ss[i])
  }

  ghost predicate GoodFunctions(latest: nat, fs: seq<Function>) {
    && |fs| <= MAX_FUNCTIONS
    && forall i :: 0 <= i < |fs| ==>
         && Limited(fs[i].meta.signature)
         && |fs[i].meta.locals| <= MAX_FUNCTION_LOCALS
         && (if latest >= 10 then Accepted(fs[i]) else fs[i] == Declared(fs[i].meta.signature))
  }

  ghost predicate GoodExports(s: Spaces, es: seq<Export>) {
    DistinctNames(es) && forall i :: 0 <= i < |es| ==> InSpace(s, es[i].item)
  }

  ghost predicate GoodImports(signatures: nat, ms: seq<Import>) {
    forall i :: 0 <= i < |ms| && ms[i].description.ImportedFunction? ==> ms[i].description.typeIdx < signatures
  }

  /** Nothing is filled in before its section, so each list is filled once and within its limit; bodies are
      accepted exactly from the code section on. */
  ghost predicate BuilderInv(b: Builder) {
    && Unfilled(b) && Bounded(b)
    && LimitedSignatures(b.signatures)
    && GoodImports(|b.signatures|, b.imports)
    && GoodFunctions(b.latest, b.functions)
    && GoodExports(SpacesOf(b), b.exports)
    && (b.start.Some? ==> b.start.value < |b.functions|)
  }

  predicate Unfilled(b: Builder) {
    && (b.latest < 1 ==> b.signatures == [])
    && (b.latest < 2 ==> b.imports == [])
    && (b.latest < 3 ==> b.functions == [])
    && (b.latest < 4 ==> b.tables == [])
    && (b.latest < 5 ==> b.memories == [])
    && (b.latest < 6 ==> b.globals == [])
    && (b.latest < 7 ==> b.exports == [])
    && (b.latest < 8 ==> b.start == None)
  }

  predicate Bounded(b: Builder) {
    && |b.imports| <= MAX_IMPORTS && |b.tables| <= MAX_TABLES && |b.memories| <= MAX_MEMORIES
    && |b.globals| <= MAX_GLOBALS && |b.exports| <= MAX_EXPORTS
  }

  lemma {:induction false} SignaturesLimited(n: nat, bs: seq<Byte>)
    ensures var r := Many(n, bs, ReadSignature); r.Ok? ==> LimitedSignatures(r.value.value)
  {
    hide ReadSignature, Limited;
    if n > 0 && ReadSignature(bs).Ok? {
      SignatureLimited(bs);
      SignaturesLimited(n - 1, ReadSignature(bs).value.rest);
    }
  }

  lemma SignatureLimited(bs: seq<Byte>)
    ensures ReadSignature(bs).Ok? ==> Limited(ReadSignature(bs).value.value)
  {
  }

  ghost predicate AllDeclared(fs: seq<Function>) {
    forall i :: 0 <= i < |fs| ==> Limited(fs[i].meta.signature) && fs[i] == Declared(fs[i].meta.signature)
  }

  lemma {:induction false} DeclarationsDeclared(ss: seq<BlockType>, n: nat, bs: seq<Byte>)
    requires LimitedSignatures(ss)
    ensures var r := Many(n, bs, Declarations(ss)); r.Ok? ==> AllDeclared(r.value.value)
  {
    var read := Declarations(ss);
    if n > 0 && read(bs).Ok? {
      assert Limited(read(bs).value.value.meta.signature);
      hide ReadU32, Limited;
      DeclarationsDeclared(ss, n - 1, read(bs).value.rest);
    }
  }

  lemma {:induction false} ImportsGood(signatures: nat, n: nat, bs: seq<Byte>)
    ensures var r := Many(n, bs, Imports(signatures)); r.Ok? ==> GoodImports(signatures, r.value.value)
  {
    hide ReadImport;
    var read := Imports(signatures);
    if n > 0 && read(bs).Ok? {
      ImportGood(signatures, bs);
      ImportsGood(signatures, n - 1, read(bs).value.rest);
    }
  }

  lemma ImportGood(signatures: nat, bs: seq<Byte>)
    ensures var r := ReadImport(signatures, bs);
      r.Ok? && r.value.value.description.ImportedFunction? ==> r.value.value.description.typeIdx < signatures
  {
    hide ReadName, ReadTableType, ReadLimits, ReadGlobalType;
  }

  lemma ExportSnoc(s: Spaces, seen: seq<Export>, e: Export)
    requires GoodExports(s, seen) && InSpace(s, e.item) && !HasName(seen, e.name)
    ensures GoodExports(s, seen + [e])
  {
  }

  lemma ExportInRange(s: Spaces, bs: seq<Byte>)
    ensures var e := ReadExport(s, bs); e.Ok? ==> InSpace(s, e.value.value.item)
  {
    hide ReadName, ReadU32;
  }

  lemma {:induction false} ExportsHold(s: Spaces, n: nat, seen: seq<Export>, bs: seq<Byte>)
    requires GoodExports(s, seen)
    ensures var r := ReadExports(s, n, seen, bs);
      r.Ok? ==> |r.value.value| == |seen| + n && GoodExports(s, r.value.value)
    decreases n
  {
    hide ReadExport, GoodExports, HasName;
    if n > 0 {
      var e := ReadExport(s, bs);
      ExportInRange(s, bs);
      if e.Ok? && !HasName(seen, e.value.value.name) {
        ExportSnoc(s, seen, e.value.value);
        ExportsHold(s, n - 1, seen + [e.value.value], e.value.rest);
      }
    }
  }

  lemma {:induction false} LocalsHold(n: nat, locals: seq<ValType>, bs: seq<Byte>)
    requires |locals| <= MAX_FUNCTION_LOCALS
    ensures var r := ReadLocals(n, locals, bs); r.Ok? ==> |r.value.value| <= MAX_FUNCTION_LOCALS
    decreases n
  {
    hide ReadU32, ReadValType;
    if n > 0 && ReadU32(bs).Ok? {
      var count := ReadU32(bs).value;
      var vt := ReadValType(count.rest);
      if count.value + |locals| <= MAX_FUNCTION_LOCALS && vt.Ok? {
        LocalsHold(n - 1, locals + seq(count.value, _ => vt.value.value), vt.value.rest);
      }
    }
  }

  /** What is read as an expression is what the validator accepts, with the same final state. */
  lemma {:induction false} ExpressionAccepted(c: Context, v: VState, bs: seq<Byte>)
    ensures var r := ReadExpression(c, v, bs);
      r.Ok? ==>
        && VisitAll(c, v, r.value.value.ops).Some?
        && Finalize(c, VisitAll(c, v, r.value.value.ops).value) == Some(r.value.value.state)
    decreases |bs|
  {
    var r := ReadExpression(c, v, bs);
    if r.Ok? && bs[0] != 0x0B {
      var ops := ReadOpcode(bs[0], bs[1..]).value;
      var v' := VisitAll(c, v, ops.value).value;
      ExpressionAccepted(c, v', ops.rest);
      VisitAllAppend(c, v, ops.value, ReadExpression(c, v', ops.rest).value.value.ops);
    }
  }

  /** The stack and the element mark are at most `n`. */
  ghost predicate Within(v: VState, n: nat) {
    |v.stack| <= n && v.maxElements <= n
  }

  lemma VisitWithin(c: Context, v: VState, op: Op, n: nat)
    requires Within(v, n) && Visit(c, v, op).Some?
    ensures Within(Visit(c, v, op).value, n + 1)
  {
    if op.AddI32? {
      PopAllKeepsMarks(v, [I32, I32]);
      PopAllShrinks(v, [I32, I32]);
    } else if op.Return? {
      PopAllKeepsMarks(v, c.results);
      PopAllShrinks(v, c.results);
    }
    hide PopAll;
  }

  /** What one opcode stands for pushes at most once. */
  lemma OpcodeWithin(c: Context, v: VState, opcode: Byte, bs: seq<Byte>, n: nat)
    requires ReadOpcode(opcode, bs).Ok? && Within(v, n)
    requires VisitAll(c, v, ReadOpcode(opcode, bs).value.value).Some?
    ensures Within(VisitAll(c, v, ReadOpcode(opcode, bs).value.value).value, n + 1)
  {
    var ops := ReadOpcode(opcode, bs).value.value;
    OneOrTwo(opcode, bs);
    VisitAllShort(c, v, ops);
    hide ReadOpcode, VisitAll;
    if |ops| == 1 {
      VisitWithin(c, v, ops[0], n);
    }
    hide Visit;
  }

  lemma OneOrTwo(opcode: Byte, bs: seq<Byte>)
    ensures var r := ReadOpcode(opcode, bs);
      r.Ok? ==>
        var ops := r.value.value;
        |ops| == 1 || (|ops| == 2 && (ops[0].Br? || ops[0].BrIf?) && ops[1].Label?)
  {
    hide ReadU32;
  }

  lemma VisitAllShort(c: Context, v: VState, ops: seq<Op>)
    ensures |ops| == 1 ==> VisitAll(c, v, ops) == Visit(c, v, ops[0])
    ensures |ops| == 2 && (ops[0].Br? || ops[0].BrIf?) && ops[1].Label? ==> VisitAll(c, v, ops) == Some(v)
  {
    if |ops| == 1 && Visit(c, v, ops[0]).Some? {
      assert ops[1..] == [];
      assert VisitAll(c, Visit(c, v, ops[0]).value, ops[1..]) == Visit(c, v, ops[0]);
    } else if |ops| == 2 {
      assert ops[1..] == [ops[1]] && [ops[1]][1..] == [];
      assert VisitAll(c, v, [ops[1]][1..]) == Some(v);
    }
  }

  lemma {:induction false} PopAllShrinks(v: VState, ts: seq<ValType>)
    requires PopAll(v, ts).Some?
    ensures |PopAll(v, ts).value.stack| <= |v.stack|
    decreases |ts|
  {
    if ts != [] {
      PopAllShrinks(Pop(v, ts[0]).value, ts[1..]);
    }
  }

  lemma ExpressionParts(c: Context, v: VState, bs: seq<Byte>)
    requires ReadExpression(c, v, bs).Ok?
    ensures bs != []
    ensures var r := ReadExpression(c, v, bs).value;
      if bs[0] == 0x0B then
        Finalize(c, v) == Some(r.value.state) && r.rest == bs[1..]
      else
        var ops := ReadOpcode(bs[0], bs[1..]);
        && ops.Ok? && |ops.value.rest| < |bs| && VisitAll(c, v, ops.value.value).Some?
        && var more := ReadExpression(c, VisitAll(c, v, ops.value.value).value, ops.value.rest);
           more.Ok? && r.value.state == more.value.value.state && r.rest == more.value.rest
  {
    hide ReadOpcode, VisitAll, Finalize;
  }

  /** A body of `n` bytes never has more than `n` operands. */
  lemma {:induction false} ExpressionWithin(c: Context, v: VState, bs: seq<Byte>, n: nat)
    requires Within(v, n)
    ensures var r := ReadExpression(c, v, bs);
      r.Ok? ==> |r.value.rest| <= |bs| && Within(r.value.value.state, n + |bs| - |r.value.rest|)
    decreases |bs|
  {
    hide ReadExpression, ReadOpcode, VisitAll, Finalize, Within;
    var r := ReadExpression(c, v, bs);
    if r.Ok? {
      ExpressionParts(c, v, bs);
      if bs[0] == 0x0B {
        FinalizeWithin(c, v, n);
      } else {
        var ops := ReadOpcode(bs[0], bs[1..]).value;
        OpcodeWithin(c, v, bs[0], bs[1..], n);
        ExpressionWithin(c, VisitAll(c, v, ops.value).value, ops.rest, n + 1);
        WithinMore(r.value.value.state, n + 1 + |ops.rest| - |r.value.rest|, n + |bs| - |r.value.rest|);
      }
    }
  }

  lemma FinalizeWithin(c: Context, v: VState, n: nat)
    requires Within(v, n) && Finalize(c, v).Some?
    ensures Within(Finalize(c, v).value, n + 1)
  {
    PopAllKeepsMarks(v, c.results);
  }

  lemma WithinMore(v: VState, n: nat, m: nat)
    requires Within(v, n) && n <= m
    ensures Within(v, m)
  {
  }

  /** A code entry in its parts: the body is no longer than the declared size, which is below 2^32. */
  lemma CodeParts(f: Function, bs: seq<Byte>)
    returns (groups: Parsed<Word>, locals: Parsed<seq<ValType>>, body: Parsed<Body>)
    requires ReadCode(f, bs).Ok?
    ensures ReadLocals(groups.value, f.meta.locals, groups.rest) == Ok(locals)
    ensures ReadExpression(ContextOf(f.meta.signature, locals.value), START, locals.rest) == Ok(body)
    ensures |locals.rest| - |body.rest| < TWO_32
    ensures ReadCode(f, bs).value.value
         == Function(MetaOf(f.meta.signature, locals.value, body.value.state), body.value.ops)
  {
    hide ReadU32, ReadExpression, ReadLocals, MetaOf;
    var size := ReadU32(bs).value;
    groups := ReadU32(size.rest).value;
    locals := ReadLocals(groups.value, f.meta.locals, groups.rest).value;
    body := ReadExpression(ContextOf(f.meta.signature, locals.value), START, locals.rest).value;
    U32Advances(size.rest);
    LocalsAdvance(groups.value, f.meta.locals, groups.rest);
  }

  lemma CodeAccepted(f: Function, bs: seq<Byte>)
    requires f == Declared(f.meta.signature)
    ensures var r := ReadCode(f, bs);
      r.Ok? ==>
        && r.value.value.meta.signature == f.meta.signature
        && |r.value.value.meta.locals| <= MAX_FUNCTION_LOCALS && Accepted(r.value.value)
  {
    hide ReadCode, ReadExpression, ReadLocals, VisitAll, Finalize;
    var r := ReadCode(f, bs);
    if r.Ok? {
      var groups, locals, body := CodeParts(f, bs);
      LocalsHold(groups.value, [], groups.rest);
      var c := ContextOf(f.meta.signature, locals.value);
      ExpressionAccepted(c, START, locals.rest);
      ExpressionWithin(c, START, locals.rest, 0);
    }
  }

  lemma {:induction false} CodesAccepted(fs: seq<Function>, bs: seq<Byte>)
    requires GoodFunctions(0, fs)
    ensures var r := ReadCodes(fs, bs); r.Ok? ==> GoodFunctions(10, r.value.value)
    decreases |fs|
  {
    var r := ReadCodes(fs, bs);
    if fs != [] && r.Ok? {
      hide ReadCode, Accepted;
      CodeAccepted(fs[0], bs);
      var f := ReadCode(fs[0], bs).value;
      assert GoodFunctions(0, fs[1..]);
      CodesAccepted(fs[1..], f.rest);
    }
  }

  /** The builder after section `id`. */
  function Opened(b: Builder, id: Byte): Builder {
    if id != 0 then b.(latest := id) else b
  }

  ghost predicate Kept(b: Builder, id: Byte, r: Answer<Builder>) {
    r.Ok? ==>
      && BuilderInv(r.value.value)
      && (id == 0 ==> r.value.value == b)
      && (id != 0 ==> r.value.value.latest == id)
  }

  /** A vector's elements are those of `Many`, in number within the limit. */
  lemma VectorElements<T>(max: nat, bs: seq<Byte>, read: seq<Byte> -> Answer<T>) returns (n: nat, rest: seq<Byte>)
    ensures var r := Vector(max, bs, read);
      r.Ok? ==> |r.value.value| <= max && [] + r.value.value == r.value.value && r == Many(n, rest, read)
  {
    hide ReadU32;
    n, rest := 0, [];
    if ReadU32(bs).Ok? {
      n, rest := ReadU32(bs).value.value, ReadU32(bs).value.rest;
    }
  }

  lemma SignaturesRead(size: nat, b: Builder, bs: seq<Byte>)
    ensures var r, v := ReadContents(1, size, b, bs), Vector(MAX_FUNCTION_SIGNATURES, bs, ReadSignature);
      r.Ok? ==> v.Ok? && r.value.value == b.(signatures := b.signatures + v.value.value)
  {
    hide Vector;
  }

  lemma SignaturesKeepInv(size: nat, b: Builder, bs: seq<Byte>)
    requires BuilderInv(b) && b.latest < 1
    ensures Kept(b, 1, ReadContents(1, size, Opened(b, 1), bs))
  {
    hide ReadContents, Vector, LimitedSignatures, Many, GoodFunctions, GoodExports;
    SignaturesRead(size, Opened(b, 1), bs);
    var n, rest := VectorElements(MAX_FUNCTION_SIGNATURES, bs, ReadSignature);
    SignaturesLimited(n, rest);
    StillGood(b, 1);
  }

  lemma ImportsRead(size: nat, b: Builder, bs: seq<Byte>)
    ensures var r, v := ReadContents(2, size, b, bs), Vector(MAX_IMPORTS, bs, Imports(|b.signatures|));
      r.Ok? ==> v.Ok? && r.value.value == b.(imports := b.imports + v.value.value)
  {
    hide Vector;
  }

  lemma ImportsKeepInv(size: nat, b: Builder, bs: seq<Byte>)
    requires BuilderInv(b) && b.latest < 2
    ensures Kept(b, 2, ReadContents(2, size, Opened(b, 2), bs))
  {
    hide ReadContents, Vector, LimitedSignatures, Many, GoodFunctions, GoodExports, GoodImports, Imports;
    ImportsRead(size, Opened(b, 2), bs);
    var n, rest := VectorElements(MAX_IMPORTS, bs, Imports(|b.signatures|));
    ImportsGood(|b.signatures|, n, rest);
    StillGood(b, 2);
  }

  lemma DeclarationsRead(size: nat, b: Builder, bs: seq<Byte>)
    ensures var r, v := ReadContents(3, size, b, bs), Vector(MAX_FUNCTIONS, bs, Declarations(b.signatures));
      r.Ok? ==> v.Ok? && r.value.value == b.(functions := b.functions + v.value.value)
  {
    hide Vector;
  }

  lemma DeclaredAreGood(latest: nat, fs: seq<Function>)
    requires latest < 10 && AllDeclared(fs) && |fs| <= MAX_FUNCTIONS
    ensures GoodFunctions(latest, fs)
  {
  }

  lemma NothingExported()
    ensures forall s :: GoodExports(s, [])
  {
  }

  lemma DeclarationsKeepInv(size: nat, b: Builder, bs: seq<Byte>)
    requires BuilderInv(b) && b.latest < 3
    ensures Kept(b, 3, ReadContents(3, size, Opened(b, 3), bs))
  {
    hide ReadContents, Vector, LimitedSignatures, Many, GoodFunctions, GoodExports, GoodImports;
    hide Declarations, AllDeclared;
    DeclarationsRead(size, Opened(b, 3), bs);
    var n, rest := VectorElements(MAX_FUNCTIONS, bs, Declarations(b.signatures));
    DeclarationsDeclared(b.signatures, n, rest);
    NothingExported();
    if ReadContents(3, size, Opened(b, 3), bs).Ok? {
      DeclaredAreGood(3, Vector(MAX_FUNCTIONS, bs, Declarations(b.signatures)).value.value);
    }
  }

  /** Functions declared before stay declared until the code section. */
  lemma StillGood(b: Builder, latest: nat)
    requires GoodFunctions(b.latest, b.functions) && b.latest <= latest < 10
    ensures GoodFunctions(latest, b.functions)
  {
  }

  lemma SpacesRead(id: Byte, size: nat, b: Builder, bs: seq<Byte>)
    requires id in {4, 5, 6}
    ensures var r := ReadContents(id, size, b, bs);
      r.Ok? ==>
        var b' := r.value.value;
        && b' == b.(tables := b'.tables, memories := b'.memories, globals := b'.globals)
        && (if id == 4 then |b'.tables| <= |b.tables| + MAX_TABLES else b'.tables == b.tables)
        && (if id == 5 then |b'.memories| <= |b.memories| + MAX_MEMORIES else b'.memories == b.memories)
        && (if id == 6 then |b'.globals| <= |b.globals| + MAX_GLOBALS else b'.globals == b.globals)
  {
    var n, rest := VectorElements(MAX_TABLES, bs, ReadTableType);
    n, rest := VectorElements(MAX_MEMORIES, bs, ReadLimits);
    n, rest := VectorElements(MAX_GLOBALS, bs, ReadGlobal);
    hide Vector, Many;
  }

  /** Tables, memories and globals: a bounded list, appended before anything is exported. */
  lemma SpacesKeepInv(id: Byte, size: nat, b: Builder, bs: seq<Byte>)
    requires BuilderInv(b) && b.latest < id && id in {4, 5, 6}
    ensures Kept(b, id, ReadContents(id, size, Opened(b, id), bs))
  {
    hide ReadContents, LimitedSignatures, GoodExports, GoodFunctions, GoodImports;
    SpacesRead(id, size, Opened(b, id), bs);
    NothingExported();
    StillGood(b, id);
  }

  lemma ExportsKeepInv(size: nat, b: Builder, bs: seq<Byte>)
    requires BuilderInv(b) && b.latest < 7
    ensures Kept(b, 7, ReadContents(7, size, Opened(b, 7), bs))
  {
    hide ReadU32, ReadExports, LimitedSignatures, Accepted, Limited, GoodImports;
    var n := ReadU32(bs);
    if n.Ok? {
      NothingExported();
      StillGood(b, 7);
      hide GoodExports, GoodFunctions;
      ExportsHold(SpacesOf(b), n.value.value, [], n.value.rest);
      var r := ReadExports(SpacesOf(b), n.value.value, [], n.value.rest);
      assert r.Ok? ==> [] + r.value.value == r.value.value;
    }
  }

  lemma StartKeepsInv(size: nat, b: Builder, bs: seq<Byte>)
    requires BuilderInv(b) && b.latest < 8
    ensures Kept(b, 8, ReadContents(8, size, Opened(b, 8), bs))
  {
    StillGood(b, 8);
    hide ReadU32, GoodExports, GoodFunctions, GoodImports, LimitedSignatures, Accepted, Limited;
  }

  lemma CodesKeepInv(size: nat, b: Builder, bs: seq<Byte>)
    requires BuilderInv(b) && b.latest < 10
    ensures Kept(b, 10, ReadContents(10, size, Opened(b, 10), bs))
  {
    hide ReadU32, ReadCodes, GoodExports, GoodImports, LimitedSignatures, Accepted, Limited;
    var n := ReadU32(bs);
    if n.Ok? {
      assert GoodFunctions(0, b.functions);
      hide GoodFunctions;
      CodesAccepted(b.functions, n.value.rest);
    }
  }

  lemma ContentsKeepInv(id: Byte, size: nat, b: Builder, bs: seq<Byte>)
    requires BuilderInv(b) && (id != 0 ==> id > b.latest)
    ensures Kept(b, id, ReadContents(id, size, Opened(b, id), bs))
  {
    hide BuilderInv;
    if id == 1 {
      SignaturesKeepInv(size, b, bs);
    } else if id == 2 {
      ImportsKeepInv(size, b, bs);
    } else if id == 3 {
      DeclarationsKeepInv(size, b, bs);
    } else if id in {4, 5, 6} {
      SpacesKeepInv(id, size, b, bs);
    } else if id == 7 {
      ExportsKeepInv(size, b, bs);
    } else if id == 8 {
      StartKeepsInv(size, b, bs);
    } else if id == 10 {
      CodesKeepInv(size, b, bs);
    }
  }

  /** Every section keeps the invariant; ids other than 0 strictly increase, and a custom section changes
      nothing. */
  lemma SectionKeepsInv(b: Builder, bs: seq<Byte>)
    requires BuilderInv(b)
    ensures var r := ReadSection(b, bs);
      r.Ok? ==>
        && BuilderInv(r.value.value)
        && (bs[0] == 0 ==> r.value.value == b)
        && (bs[0] != 0 ==> b.latest < bs[0] == r.value.value.latest)
  {
    hide ReadContents, BuilderInv;
    var r := ReadSection(b, bs);
    if r.Ok? {
      var size := ReadU32(bs[1..]).value;
      ContentsKeepInv(bs[0], size.value, b, size.rest);
    }
  }

  lemma {:induction false} SectionsKeepInv(b: Builder, bs: seq<Byte>)
    requires BuilderInv(b)
    ensures var r := ReadSections(b, bs); r.Ok? ==> BuilderInv(r.value)
    decreases |bs|
  {
    hide ReadSection, BuilderInv;
    if bs != [] && ReadSection(b, bs).Ok? {
      SectionProgress(b, bs);
      SectionKeepsInv(b, bs);
      SectionsKeepInv(ReadSection(b, bs).value.value, ReadSection(b, bs).value.rest);
    }
  }

  /** An exported function of that name. */
  predicate ExportsFunction(es: seq<Export>, name: seq<Byte>) {
    exists i :: 0 <= i < |es| && es[i].name == name && es[i].item.FuncItem?
  }

  lemma {:induction false} ExportMapExact(es: seq<Export>)
    requires DistinctNames(es)
    ensures forall name :: name in ExportMap(es) <==> ExportsFunction(es, name)
    ensures forall i :: 0 <= i < |es| && es[i].item.FuncItem? ==>
      es[i].name in ExportMap(es) && ExportMap(es)[es[i].name] == es[i].item.idx
  {
    if es != [] {
      var n := |es| - 1;
      var init := es[..n];
      ExportMapExact(init);
      assert !ExportsFunction(init, es[n].name);
      forall name
        ensures ExportsFunction(es, name) <==> ExportsFunction(init, name) || (name == es[n].name && es[n].item.FuncItem?)
      {
        if ExportsFunction(init, name) {
          var i :| 0 <= i < |init| && init[i].name == name && init[i].item.FuncItem?;
          assert es[i].name == name;
        }
        assert es[n].name == es[n].name;
      }
    }
  }

  /** The empty body that stays when there is no code section. */
  lemma EmptyBodyAccepted(s: BlockType)
    requires Limited(s)
    ensures Accepted(Declared(s)) <==> s.results == []
  {
    var c := ContextOf(s, []);
    if s.results == [] {
      assert Check(c, []) == Some(START);
    }
  }

  /** Every exported function of a parsed module exists, within the limits. All bodies are accepted if and
      only if there was a code section or no declared function returns anything: without the section,
      declared bodies stay empty and nobody checks them. */
  lemma ParsedModuleGood(bs: seq<Byte>)
    ensures var r := ReadBuilder(bs);
      r.Ok? ==>
        var b, m := r.value, Build(r.value);
        && ReadModule(bs) == Ok(m) && BuilderInv(b)
        && (forall name :: name in m.exported ==> m.exported[name] < |m.functions|)
        && (forall i :: 0 <= i < |b.exports| && b.exports[i].item.FuncItem? ==>
              b.exports[i].name in m.exported && m.exported[b.exports[i].name] == b.exports[i].item.idx)
        && ((forall i :: 0 <= i < |m.functions| ==> Accepted(m.functions[i])) <==>
            b.latest >= 10 ||
            forall i :: 0 <= i < |m.functions| ==> m.functions[i].meta.signature.results == [])
  {
    var r := ReadBuilder(bs);
    if r.Ok? {
      var b := r.value;
      assert BuilderInv(FRESH);
      SectionsKeepInv(FRESH, bs[4..][4..]);
      ExportMapExact(b.exports);
      hide Accepted, ReadSections, ExportMap;
      forall name | name in ExportMap(b.exports)
        ensures ExportMap(b.exports)[name] < |b.functions|
      {
        var i :| 0 <= i < |b.exports| && b.exports[i].name == name && b.exports[i].item.FuncItem?;
        assert ExportMap(b.exports)[b.exports[i].name] == b.exports[i].item.idx && InSpace(SpacesOf(b), b.exports[i].item);
      }
      if b.latest < 10 {
        forall i | 0 <= i < |b.functions|
          ensures Accepted(b.functions[i]) <==> b.functions[i].meta.signature.results == []
        {
          EmptyBodyAccepted(b.functions[i].meta.signature);
        }
      }
    }
  }
}
