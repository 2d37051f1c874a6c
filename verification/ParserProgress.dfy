/** Every read leaves a suffix of its input; sections make progress, so parsing a module terminates. */
module ParserProgress {
  import opened Wrappers
  import opened WasmCore
  import opened ByteStream
  import opened Validator
  import opened ParserSpec

  /** `rest` is what is left of `bs` after some bytes. */
  ghost predicate Suffix(rest: seq<Byte>, bs: seq<Byte>) {
    |rest| <= |bs| && bs[|bs| - |rest|..] == rest
  }

  ghost predicate Advances<T>(r: Answer<T>, bs: seq<Byte>) {
    r.Ok? ==> Suffix(r.value.rest, bs)
  }

  lemma SuffixTrans(a: seq<Byte>, b: seq<Byte>, c: seq<Byte>)
    requires Suffix(a, b) && Suffix(b, c)
    ensures Suffix(a, c)
  {
    assert c[|c| - |a|..] == c[|c| - |b|..][|b| - |a|..];
  }

  lemma EmptySuffix(bs: seq<Byte>)
    ensures Suffix(bs, bs)
  {
  }

  lemma ByteAdvances(bs: seq<Byte>)
    ensures Advances(ReadByte(bs), bs)
  {
  }

  lemma U32Advances(bs: seq<Byte>)
    ensures Advances(ReadU32(bs), bs)
  {
  }

  lemma IndexAdvances(size: nat, bs: seq<Byte>)
    ensures Advances(ReadIndex(size, bs), bs)
  {
    U32Advances(bs);
  }

  lemma ValTypeAdvances(bs: seq<Byte>)
    ensures Advances(ReadValType(bs), bs)
  {
  }

  lemma {:induction false} ManyAdvances<T>(n: nat, bs: seq<Byte>, read: seq<Byte> -> Answer<T>)
    requires forall b :: Advances(read(b), b)
    ensures Advances(Many(n, bs, read), bs)
  {
    if n > 0 && read(bs).Ok? {
      var rest := read(bs).value.rest;
      ManyAdvances(n - 1, rest, read);
      var r := Many(n - 1, rest, read);
      if r.Ok? {
        SuffixTrans(r.value.rest, rest, bs);
      }
    }
  }

  lemma VectorAdvances<T>(max: nat, bs: seq<Byte>, read: seq<Byte> -> Answer<T>)
    requires forall b :: Advances(read(b), b)
    ensures Advances(Vector(max, bs, read), bs)
  {
    U32Advances(bs);
    var n := ReadU32(bs);
    if n.Ok? {
      ManyAdvances(n.value.value, n.value.rest, read);
      var r := Many(n.value.value, n.value.rest, read);
      if r.Ok? {
        SuffixTrans(r.value.rest, n.value.rest, bs);
      }
    }
  }

  lemma SignatureAdvances(bs: seq<Byte>)
    ensures Advances(ReadSignature(bs), bs)
  {
    var r := ReadSignature(bs);
    if r.Ok? {
      forall b ensures Advances(ReadValType(b), b) { ValTypeAdvances(b); }
      var p := Vector(MAX_FUNCTION_PARAMETERS, bs[1..], ReadValType);
      VectorAdvances(MAX_FUNCTION_PARAMETERS, bs[1..], ReadValType);
      VectorAdvances(MAX_FUNCTION_RESULTS, p.value.rest, ReadValType);
      ByteAdvances(bs);
      SuffixTrans(p.value.rest, bs[1..], bs);
      SuffixTrans(r.value.rest, p.value.rest, bs);
    }
  }

  lemma BytesAdvances(n: nat, bs: seq<Byte>)
    ensures Advances(ReadBytes(n, bs), bs)
  {
  }

  lemma U64Advances(bs: seq<Byte>)
    ensures Advances(ReadU64(bs), bs)
  {
  }

  lemma LimitsAdvance(bs: seq<Byte>)
    ensures Advances(ReadLimits(bs), bs)
  {
    var r := ReadLimits(bs);
    if r.Ok? {
      ByteAdvances(bs);
      U32Advances(bs[1..]);
      var min := ReadU32(bs[1..]).value;
      U32Advances(min.rest);
      hide ReadU32;
      SuffixTrans(min.rest, bs[1..], bs);
      if bs[0] != 0 {
        SuffixTrans(r.value.rest, min.rest, bs);
      }
    }
  }

  lemma TableTypeAdvances(bs: seq<Byte>)
    ensures Advances(ReadTableType(bs), bs)
  {
    hide ReadValType, ReadLimits;
    var r := ReadTableType(bs);
    if r.Ok? {
      ValTypeAdvances(bs);
      var reftype := ReadValType(bs).value;
      LimitsAdvance(reftype.rest);
      SuffixTrans(r.value.rest, reftype.rest, bs);
    }
  }

  lemma GlobalTypeAdvances(bs: seq<Byte>)
    ensures Advances(ReadGlobalType(bs), bs)
  {
    hide ReadValType;
    var r := ReadGlobalType(bs);
    if r.Ok? {
      ValTypeAdvances(bs);
      var valtype := ReadValType(bs).value;
      ByteAdvances(valtype.rest);
      SuffixTrans(r.value.rest, valtype.rest, bs);
    }
  }

  lemma ConstExprAdvances(bs: seq<Byte>)
    ensures Advances(ReadConstExpr(bs), bs)
  {
    var r := ReadConstExpr(bs);
    if r.Ok? {
      ByteAdvances(bs);
      U32Advances(bs[1..]);
      U64Advances(bs[1..]);
      BytesAdvances(4, bs[1..]);
      BytesAdvances(8, bs[1..]);
      hide ReadU32, ReadU64, ReadBytes;
      SuffixTrans(r.value.rest, bs[1..], bs);
    }
  }

  lemma GlobalAdvances(bs: seq<Byte>)
    ensures Advances(ReadGlobal(bs), bs)
  {
    hide ReadGlobalType, ReadConstExpr;
    var r := ReadGlobal(bs);
    if r.Ok? {
      GlobalTypeAdvances(bs);
      var globalType := ReadGlobalType(bs).value;
      ConstExprAdvances(globalType.rest);
      SuffixTrans(r.value.rest, globalType.rest, bs);
    }
  }

  lemma DescriptionAdvances(signatures: nat, bs: seq<Byte>)
    ensures Advances(ReadDescription(signatures, bs), bs)
  {
    hide ReadIndex, ReadTableType, ReadLimits, ReadGlobalType;
    var r := ReadDescription(signatures, bs);
    if r.Ok? {
      ByteAdvances(bs);
      IndexAdvances(signatures, bs[1..]);
      TableTypeAdvances(bs[1..]);
      LimitsAdvance(bs[1..]);
      GlobalTypeAdvances(bs[1..]);
      SuffixTrans(r.value.rest, bs[1..], bs);
    }
  }

  lemma ImportAdvances(signatures: nat, bs: seq<Byte>)
    ensures Advances(ReadImport(signatures, bs), bs)
  {
    hide ReadName, ReadDescription;
    var r := ReadImport(signatures, bs);
    if r.Ok? {
      NameAdvances(bs);
      var moduleName := ReadName(bs).value;
      NameAdvances(moduleName.rest);
      var name := ReadName(moduleName.rest).value;
      DescriptionAdvances(signatures, name.rest);
      hide Suffix;
      SuffixTrans(name.rest, moduleName.rest, bs);
      SuffixTrans(r.value.rest, name.rest, bs);
    }
  }

  lemma ItemAdvances(s: Spaces, bs: seq<Byte>)
    ensures Advances(ReadItem(s, bs), bs)
  {
    hide ReadIndex;
    var r := ReadItem(s, bs);
    if r.Ok? {
      ByteAdvances(bs);
      IndexAdvances(s.functions, bs[1..]);
      IndexAdvances(s.tables, bs[1..]);
      IndexAdvances(s.memories, bs[1..]);
      IndexAdvances(s.globals, bs[1..]);
      SuffixTrans(r.value.rest, bs[1..], bs);
    }
  }

  lemma ExportAdvances(s: Spaces, bs: seq<Byte>)
    ensures Advances(ReadExport(s, bs), bs)
  {
    hide ReadName, ReadItem;
    var r := ReadExport(s, bs);
    if r.Ok? {
      NameAdvances(bs);
      var name := ReadName(bs).value;
      ItemAdvances(s, name.rest);
      SuffixTrans(r.value.rest, name.rest, bs);
    }
  }

  lemma NameAdvances(bs: seq<Byte>)
    ensures Advances(ReadName(bs), bs)
  {
    U32Advances(bs);
    hide ReadU32;
    var n := ReadU32(bs);
    if n.Ok? {
      var r := ReadName(bs);
      if r.Ok? {
        SuffixTrans(r.value.rest, n.value.rest, bs);
      }
    }
  }

  lemma {:induction false} ExportsAdvance(s: Spaces, n: nat, seen: seq<Export>, bs: seq<Byte>)
    ensures Advances(ReadExports(s, n, seen, bs), bs)
    decreases n
  {
    hide ReadExport, HasName;
    EmptySuffix(bs);
    hide Suffix;
    if n > 0 {
      ExportAdvances(s, bs);
      var e, r := ReadExport(s, bs), ReadExports(s, n, seen, bs);
      if r.Ok? {
        ExportsAdvance(s, n - 1, seen + [e.value.value], e.value.rest);
        SuffixTrans(r.value.rest, e.value.rest, bs);
      }
    }
  }

  lemma {:induction false} LocalsAdvance(n: nat, locals: seq<ValType>, bs: seq<Byte>)
    ensures Advances(ReadLocals(n, locals, bs), bs)
    decreases n
  {
    hide ReadU32, ReadValType;
    EmptySuffix(bs);
    hide Suffix;
    var r := ReadLocals(n, locals, bs);
    if n > 0 && r.Ok? {
      U32Advances(bs);
      var count := ReadU32(bs).value;
      ValTypeAdvances(count.rest);
      var vt := ReadValType(count.rest).value;
      LocalsAdvance(n - 1, locals + seq(count.value, _ => vt.value), vt.rest);
      SuffixTrans(vt.rest, count.rest, bs);
      SuffixTrans(r.value.rest, vt.rest, bs);
    }
  }

  lemma OpcodeAdvances(opcode: Byte, bs: seq<Byte>)
    ensures Advances(ReadOpcode(opcode, bs), bs)
  {
    EmptySuffix(bs);
    U32Advances(bs);
    hide ReadU32, Suffix;
  }

  lemma {:induction false} ExpressionAdvances(c: Context, v: VState, bs: seq<Byte>)
    ensures Advances(ReadExpression(c, v, bs), bs)
    decreases |bs|
  {
    var r := ReadExpression(c, v, bs);
    if r.Ok? && bs[0] != 0x0B {
      var ops := ReadOpcode(bs[0], bs[1..]).value;
      OpcodeAdvances(bs[0], bs[1..]);
      SuffixTrans(ops.rest, bs[1..], bs);
      ExpressionAdvances(c, VisitAll(c, v, ops.value).value, ops.rest);
      SuffixTrans(r.value.rest, ops.rest, bs);
    }
  }

  /** An accepted code entry is its size, then exactly that many bytes. */
  lemma CodeConsumesItsSize(f: Function, bs: seq<Byte>)
    ensures var r := ReadCode(f, bs);
      r.Ok? ==>
        && Suffix(r.value.rest, bs)
        && ReadU32(bs).Ok?
        && var size := ReadU32(bs).value;
           Suffix(r.value.rest, size.rest) && |size.rest| - |r.value.rest| == size.value
  {
    var r := ReadCode(f, bs);
    if r.Ok? {
      var size := ReadU32(bs).value;
      U32Advances(bs);
      var groups := ReadU32(size.rest).value;
      U32Advances(size.rest);
      var locals := ReadLocals(groups.value, f.meta.locals, groups.rest).value;
      LocalsAdvance(groups.value, f.meta.locals, groups.rest);
      ExpressionAdvances(ContextOf(f.meta.signature, locals.value), START, locals.rest);
      SuffixTrans(locals.rest, groups.rest, size.rest);
      SuffixTrans(r.value.rest, locals.rest, size.rest);
      SuffixTrans(r.value.rest, size.rest, bs);
    }
  }

  lemma {:induction false} CodesAdvance(functions: seq<Function>, bs: seq<Byte>)
    ensures Advances(ReadCodes(functions, bs), bs)
    decreases |functions|
  {
    var r := ReadCodes(functions, bs);
    if functions != [] && r.Ok? {
      CodeConsumesItsSize(functions[0], bs);
      var f := ReadCode(functions[0], bs).value;
      CodesAdvance(functions[1..], f.rest);
      SuffixTrans(r.value.rest, f.rest, bs);
    }
  }

  lemma ListAdvances(id: Byte, size: nat, b: Builder, bs: seq<Byte>)
    requires id in {1, 2, 3, 4, 5, 6}
    ensures Advances(ReadContents(id, size, b, bs), bs)
  {
    hide Vector, ReadSignature, ReadImport, ReadDeclaration, ReadTableType, ReadLimits, ReadGlobal;
    if id == 1 {
      forall s ensures Advances(ReadSignature(s), s) { SignatureAdvances(s); }
      VectorAdvances(MAX_FUNCTION_SIGNATURES, bs, ReadSignature);
    } else if id == 2 {
      var read := Imports(|b.signatures|);
      forall s ensures Advances(read(s), s) { ImportAdvances(|b.signatures|, s); }
      VectorAdvances(MAX_IMPORTS, bs, read);
    } else if id == 3 {
      var read := Declarations(b.signatures);
      forall s ensures Advances(read(s), s) { DeclarationAdvances(b.signatures, s); }
      VectorAdvances(MAX_FUNCTIONS, bs, read);
    } else if id == 4 {
      forall s ensures Advances(ReadTableType(s), s) { TableTypeAdvances(s); }
      VectorAdvances(MAX_TABLES, bs, ReadTableType);
    } else if id == 5 {
      forall s ensures Advances(ReadLimits(s), s) { LimitsAdvance(s); }
      VectorAdvances(MAX_MEMORIES, bs, ReadLimits);
    } else {
      forall s ensures Advances(ReadGlobal(s), s) { GlobalAdvances(s); }
      VectorAdvances(MAX_GLOBALS, bs, ReadGlobal);
    }
  }

  lemma DeclarationAdvances(signatures: seq<BlockType>, bs: seq<Byte>)
    ensures Advances(ReadDeclaration(signatures, bs), bs)
  {
    IndexAdvances(|signatures|, bs);
    hide ReadIndex;
  }

  lemma ContentsAdvance(id: Byte, size: nat, b: Builder, bs: seq<Byte>)
    ensures Advances(ReadContents(id, size, b, bs), bs)
  {
    U32Advances(bs);
    var n := ReadU32(bs);
    hide ReadU32, Vector;
    if id in {1, 2, 3, 4, 5, 6} {
      ListAdvances(id, size, b, bs);
    } else if id == 7 && n.Ok? {
      ExportsAdvance(SpacesOf(b), n.value.value, [], n.value.rest);
      var r := ReadExports(SpacesOf(b), n.value.value, [], n.value.rest);
      if r.Ok? {
        SuffixTrans(r.value.rest, n.value.rest, bs);
      }
    } else if id == 8 {
      IndexAdvances(|b.functions|, bs);
    } else if id == 10 && n.Ok? {
      CodesAdvance(b.functions, n.value.rest);
      var r := ReadCodes(b.functions, n.value.rest);
      if r.Ok? {
        SuffixTrans(r.value.rest, n.value.rest, bs);
      }
    }
  }

  /** The declared size of a section other than a custom one makes no difference. */
  lemma SizeIgnored(id: Byte, size: nat, other: nat, b: Builder, bs: seq<Byte>)
    requires id != 0
    ensures ReadContents(id, size, b, bs) == ReadContents(id, other, b, bs)
  {
  }

  /** Every section that is parsed moves the cursor forward, and not past the end. */
  lemma SectionProgress(b: Builder, bs: seq<Byte>)
    ensures var r := ReadSection(b, bs);
      r.Ok? ==> Suffix(r.value.rest, bs) && |r.value.rest| < |bs|
  {
    var r := ReadSection(b, bs);
    if r.Ok? {
      var id := bs[0];
      var size := ReadU32(bs[1..]).value;
      U32Advances(bs[1..]);
      var b' := if id != 0 then b.(latest := id) else b;
      hide ReadContents;
      ContentsAdvance(id, size.value, b', size.rest);
      SuffixTrans(r.value.rest, size.rest, bs[1..]);
      SuffixTrans(r.value.rest, bs[1..], bs);
    }
  }

  /** Sections to the end of the input. */
  function ReadSections(b: Builder, bs: seq<Byte>): Result<Builder, Error>
    decreases |bs|
  {
    if bs == [] then Ok(b)
    else
      var s :- ReadSection(b, bs);
      SectionProgress(b, bs);
      ReadSections(s.value, s.rest)
  }

  datatype ParsedModule = ParsedModule(functions: seq<Function>, exported: map<seq<Byte>, nat>)

  /** Functions only; the first export of a name wins. */
  function ExportMap(exports: seq<Export>): map<seq<Byte>, nat> {
    if exports == [] then map[]
    else
      var n := |exports| - 1;
      var m := ExportMap(exports[..n]);
      if !exports[n].item.FuncItem? || exports[n].name in m then m else m[exports[n].name := exports[n].item.idx]
  }

  function Build(b: Builder): ParsedModule {
    ParsedModule(b.functions, ExportMap(b.exports))
  }

  const MAGIC: seq<Byte> := [0x00, 0x61, 0x73, 0x6D]
  const VERSION: seq<Byte> := [0x01, 0x00, 0x00, 0x00]

  function ReadBuilder(bs: seq<Byte>): Result<Builder, Error> {
    var magic :- ReadBytes(4, bs);
    if magic.value != MAGIC then Err(ParseError) else
    var version :- ReadBytes(4, magic.rest);
    if version.value != VERSION then Err(ParseError) else
    ReadSections(FRESH, version.rest)
  }

  function ReadModule(bs: seq<Byte>): Result<ParsedModule, Error> {
    var b :- ReadBuilder(bs);
    Ok(Build(b))
  }
}
