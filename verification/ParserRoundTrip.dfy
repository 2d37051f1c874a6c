/** Parsing inverts the encoding of a module, as far as the decoder of constants lets it. */
module ParserRoundTrip {
  import opened Wrappers
  import opened WasmCore
  import Leb128
  import Bits
  import opened ByteStream
  import opened Validator
  import opened ParserSpec
  import opened ParserProgress
  import opened ParserInvariant
  import opened BinaryGrammar
  import opened ModuleEncoding

  // ---------- reading back ----------

  lemma Assoc(a: seq<Byte>, b: seq<Byte>, c: seq<Byte>)
    ensures a + b + c == a + (b + c)
  {
  }

  lemma ByteBack(b: Byte, rest: seq<Byte>)
    ensures ReadByte([b] + rest) == Ok(Parsed(b, rest))
  {
    assert ([b] + rest)[1..] == rest;
  }

  lemma U32Back(n: nat, rest: seq<Byte>)
    requires n < TWO_32
    ensures ReadU32(EncodeLength(n) + rest) == Ok(Parsed(n, rest))
  {
    Bits.TwoTo32();
    Leb128.RoundTrip(U32_TYPE, n, rest);
  }

  lemma IndexBack(size: nat, n: nat, rest: seq<Byte>)
    requires n < size && n < TWO_32
    ensures ReadIndex(size, EncodeLength(n) + rest) == Ok(Parsed(n, rest))
  {
    U32Back(n, rest);
  }

  lemma ValTypeBack(vt: ValType, rest: seq<Byte>)
    requires vt != V128
    ensures ReadValType(EncodeValType(vt) + rest) == Ok(Parsed(vt, rest))
  {
    ByteBack(ValTypeCode(vt), rest);
  }

  /** If every element reads back, so do all of them in order. */
  lemma {:induction false} ManyBack<S, T>(xs: seq<S>, ys: seq<T>, encode: S -> seq<Byte>,
                                          read: seq<Byte> -> Answer<T>, rest: seq<Byte>)
    requires |xs| == |ys|
    requires forall i, r :: 0 <= i < |xs| ==> read(encode(xs[i]) + r) == Ok(Parsed(ys[i], r))
    ensures Many(|xs|, Concat(xs, encode) + rest, read) == Ok(Parsed(ys, rest))
  {
    if xs == [] {
      assert Concat(xs, encode) + rest == rest;
    } else {
      var tail := Concat(xs[1..], encode) + rest;
      Assoc(encode(xs[0]), Concat(xs[1..], encode), rest);
      assert read(encode(xs[0]) + tail) == Ok(Parsed(ys[0], tail));
      forall i, r | 0 <= i < |xs| - 1
        ensures read(encode(xs[1..][i]) + r) == Ok(Parsed(ys[1..][i], r))
      {
        assert read(encode(xs[i + 1]) + r) == Ok(Parsed(ys[i + 1], r));
      }
      ManyBack(xs[1..], ys[1..], encode, read, rest);
      assert [ys[0]] + ys[1..] == ys;
    }
  }

  lemma VectorBack<S, T>(max: nat, xs: seq<S>, ys: seq<T>, encode: S -> seq<Byte>,
                         read: seq<Byte> -> Answer<T>, rest: seq<Byte>)
    requires |xs| == |ys| <= max < TWO_32
    requires forall i, r :: 0 <= i < |xs| ==> read(encode(xs[i]) + r) == Ok(Parsed(ys[i], r))
    ensures Vector(max, EncodeVector(xs, encode) + rest, read) == Ok(Parsed(ys, rest))
  {
    Assoc(EncodeLength(|xs|), Concat(xs, encode), rest);
    U32Back(|xs|, Concat(xs, encode) + rest);
    ManyBack(xs, ys, encode, read, rest);
  }

  lemma ValTypesBack(max: nat, ts: seq<ValType>, rest: seq<Byte>)
    requires |ts| <= max < TWO_32 && NoVector(ts)
    ensures Vector(max, EncodeVector(ts, EncodeValType) + rest, ReadValType) == Ok(Parsed(ts, rest))
  {
    hide ReadValType, EncodeValType;
    forall i, r | 0 <= i < |ts|
      ensures ReadValType(EncodeValType(ts[i]) + r) == Ok(Parsed(ts[i], r))
    {
      ValTypeBack(ts[i], r);
    }
    VectorBack(max, ts, ts, EncodeValType, ReadValType, rest);
  }

  lemma SignatureBack(s: BlockType, rest: seq<Byte>)
    requires Limited(s) && NoVector(s.params) && NoVector(s.results)
    ensures ReadSignature(EncodeSignature(s) + rest) == Ok(Parsed(s, rest))
  {
    hide Vector, EncodeVector, NoVector;
    var p, r := EncodeVector(s.params, EncodeValType), EncodeVector(s.results, EncodeValType);
    assert EncodeSignature(s) + rest == [0x60] + (p + (r + rest));
    ByteBack(0x60, p + (r + rest));
    ValTypesBack(MAX_FUNCTION_PARAMETERS, s.params, r + rest);
    ValTypesBack(MAX_FUNCTION_RESULTS, s.results, rest);
  }

  lemma NameBack(name: seq<Byte>, rest: seq<Byte>)
    requires |name| <= MAX_NAME_LENGTH
    ensures ReadName(EncodeName(name) + rest) == Ok(Parsed(name, rest))
  {
    hide ReadU32, EncodeLength;
    Assoc(EncodeLength(|name|), name, rest);
    U32Back(|name|, name + rest);
    assert (name + rest)[..|name|] == name && (name + rest)[|name|..] == rest;
  }

  lemma WordBack(w: Word, rest: seq<Byte>)
    ensures ReadU32(EncodeU32(w) + rest) == Ok(Parsed(w, rest))
  {
    hide ReadU32, EncodeLength;
    LengthIsU32(w);
    U32Back(w, rest);
  }

  lemma BoundsBack(b: Bounds, rest: seq<Byte>)
    ensures ReadLimits(EncodeBounds(b) + rest) == Ok(Parsed(LimitsOf(b), rest))
  {
    hide ReadU32, EncodeU32;
    var tail := if b.max.None? then rest else EncodeU32(b.max.value) + rest;
    var flag: Byte := if b.max.None? then 0 else 1;
    assert EncodeBounds(b) + rest == [flag] + (EncodeU32(b.min) + tail);
    ByteBack(flag, EncodeU32(b.min) + tail);
    WordBack(b.min, tail);
    if b.max.Some? {
      WordBack(b.max.value, rest);
    }
  }

  lemma TableBack(t: TableSource, rest: seq<Byte>)
    requires GoodTable(t)
    ensures ReadTableType(EncodeTable(t) + rest) == Ok(Parsed(TableOf(t), rest))
  {
    hide ReadLimits, EncodeBounds, ReadValType, EncodeValType;
    Assoc(EncodeValType(t.reftype), EncodeBounds(t.bounds), rest);
    ValTypeBack(t.reftype, EncodeBounds(t.bounds) + rest);
    BoundsBack(t.bounds, rest);
  }

  lemma GlobalTypeBack(g: GlobalType, rest: seq<Byte>)
    requires g.valtype != V128
    ensures ReadGlobalType(EncodeGlobalType(g) + rest) == Ok(Parsed(g, rest))
  {
    hide ReadValType, EncodeValType;
    var flag: Byte := if g.mutable then 1 else 0;
    Assoc(EncodeValType(g.valtype), [flag], rest);
    ValTypeBack(g.valtype, [flag] + rest);
    ByteBack(flag, rest);
  }

  lemma DescriptionBack(types: seq<BlockType>, i: ImportedItem, rest: seq<Byte>)
    requires |types| <= MAX_FUNCTION_SIGNATURES && GoodImport(types, ImportSource([], [], i))
    ensures ReadDescription(|types|, EncodeDescription(i) + rest) == Ok(Parsed(DescriptionOf(i), rest))
  {
    hide ReadIndex, ReadTableType, ReadLimits, ReadGlobalType;
    hide EncodeLength, EncodeTable, EncodeBounds, EncodeGlobalType;
    match i
    case FunctionImport(t) =>
      Assoc([0], EncodeLength(t), rest);
      ByteBack(0, EncodeLength(t) + rest);
      IndexBack(|types|, t, rest);
    case TableImport(t) =>
      Assoc([1], EncodeTable(t), rest);
      ByteBack(1, EncodeTable(t) + rest);
      TableBack(t, rest);
    case MemoryImport(b) =>
      Assoc([2], EncodeBounds(b), rest);
      ByteBack(2, EncodeBounds(b) + rest);
      BoundsBack(b, rest);
    case GlobalImport(g) =>
      Assoc([3], EncodeGlobalType(g), rest);
      ByteBack(3, EncodeGlobalType(g) + rest);
      GlobalTypeBack(g, rest);
  }

  lemma ImportBack(types: seq<BlockType>, i: ImportSource, rest: seq<Byte>)
    requires |types| <= MAX_FUNCTION_SIGNATURES && GoodImport(types, i)
    ensures Imports(|types|)(EncodeImport(i) + rest) == Ok(Parsed(ImportOf(i), rest))
  {
    hide ReadName, EncodeName, ReadDescription, EncodeDescription;
    var description := EncodeDescription(i.item);
    assert EncodeImport(i) + rest == EncodeName(i.moduleName) + (EncodeName(i.name) + (description + rest));
    NameBack(i.moduleName, EncodeName(i.name) + (description + rest));
    NameBack(i.name, description + rest);
    DescriptionBack(types, i.item, rest);
  }

  predicate SmallSpaces(s: Spaces) {
    s.functions <= MAX_FUNCTIONS && s.tables <= MAX_TABLES && s.memories <= MAX_MEMORIES && s.globals <= MAX_GLOBALS
  }

  lemma ItemBack(s: Spaces, item: Item, rest: seq<Byte>)
    requires SmallSpaces(s) && InSpace(s, item)
    ensures ReadItem(s, [ItemCode(item)] + EncodeLength(item.idx) + rest) == Ok(Parsed(item, rest))
  {
    hide ReadIndex, EncodeLength;
    Assoc([ItemCode(item)], EncodeLength(item.idx), rest);
    ByteBack(ItemCode(item), EncodeLength(item.idx) + rest);
    match item
    case FuncItem(i) => IndexBack(s.functions, i, rest);
    case TableItem(i) => IndexBack(s.tables, i, rest);
    case MemoryItem(i) => IndexBack(s.memories, i, rest);
    case GlobalItem(i) => IndexBack(s.globals, i, rest);
  }

  lemma ExportBack(s: Spaces, e: Export, rest: seq<Byte>)
    requires SmallSpaces(s) && InSpace(s, e.item) && |e.name| <= MAX_NAME_LENGTH
    ensures ReadExport(s, EncodeExport(e) + rest) == Ok(Parsed(e, rest))
  {
    hide ReadName, EncodeName, ReadItem, EncodeLength;
    var item := [ItemCode(e.item)] + EncodeLength(e.item.idx);
    Assoc(EncodeName(e.name), item, rest);
    NameBack(e.name, item + rest);
    ItemBack(s, e.item, rest);
  }

  lemma NextExport(s: Spaces, seen: seq<Export>, es: seq<Export>)
    requires es != [] && GoodExports(s, seen + es)
    ensures InSpace(s, es[0].item) && !HasName(seen, es[0].name)
    ensures seen + [es[0]] + es[1..] == seen + es
  {
    assert (seen + es)[|seen|] == es[0];
    assert InSpace(s, (seen + es)[|seen|].item);
    assert forall i :: 0 <= i < |seen| ==> (seen + es)[i] == seen[i];
    assert seen + [es[0]] + es[1..] == seen + es;
  }

  lemma {:induction false} ExportsBack(s: Spaces, seen: seq<Export>, es: seq<Export>, rest: seq<Byte>)
    requires SmallSpaces(s) && GoodExports(s, seen + es)
    requires forall i :: 0 <= i < |es| ==> |es[i].name| <= MAX_NAME_LENGTH
    ensures ReadExports(s, |es|, seen, Concat(es, EncodeExport) + rest) == Ok(Parsed(seen + es, rest))
    decreases |es|
  {
    hide ReadExport, EncodeExport, GoodExports, HasName;
    if es == [] {
      assert Concat(es, EncodeExport) + rest == rest && seen + es == seen;
    } else {
      var tail := Concat(es[1..], EncodeExport) + rest;
      Assoc(EncodeExport(es[0]), Concat(es[1..], EncodeExport), rest);
      NextExport(s, seen, es);
      ExportBack(s, es[0], tail);
      ExportsBack(s, seen + [es[0]], es[1..], rest);
    }
  }

  lemma GroupBack(g: Group, n: nat, locals: seq<ValType>, tail: seq<Byte>)
    requires g.vt != V128 && |locals| + g.count <= MAX_FUNCTION_LOCALS
    ensures ReadLocals(n + 1, locals, EncodeGroup(g) + tail) == ReadLocals(n, locals + seq(g.count, _ => g.vt), tail)
  {
    hide ReadU32, ReadValType, EncodeLength, EncodeValType;
    Assoc(EncodeLength(g.count), EncodeValType(g.vt), tail);
    U32Back(g.count, EncodeValType(g.vt) + tail);
    ValTypeBack(g.vt, tail);
    assert seq(g.count, _ => Parsed(g.vt, tail).value) == seq(g.count, _ => g.vt);
  }

  lemma {:induction false} LocalsBack(groups: seq<Group>, locals: seq<ValType>, rest: seq<Byte>)
    requires |locals| + |Expand(groups)| <= MAX_FUNCTION_LOCALS
    requires forall i :: 0 <= i < |groups| ==> groups[i].vt != V128
    ensures ReadLocals(|groups|, locals, Concat(groups, EncodeGroup) + rest) == Ok(Parsed(locals + Expand(groups), rest))
    decreases |groups|
  {
    if groups == [] {
      assert Concat(groups, EncodeGroup) + rest == rest && locals + [] == locals;
    } else {
      hide ReadLocals, EncodeGroup;
      var g, tail := groups[0], Concat(groups[1..], EncodeGroup) + rest;
      Assoc(EncodeGroup(g), Concat(groups[1..], EncodeGroup), rest);
      var run := seq(g.count, _ => g.vt);
      assert locals + run + Expand(groups[1..]) == locals + Expand(groups);
      GroupBack(g, |groups| - 1, locals, tail);
      LocalsBack(groups[1..], locals + run, rest);
    }
  }

  lemma OpBack(op: Op, rest: seq<Byte>)
    requires Encodable(op)
    ensures var e := EncodeOp(op) + rest;
      && ReadByte(e).Ok? && e[0] != 0x0B
      && ReadOpcode(e[0], e[1..]) == Ok(Parsed([op], rest))
  {
    hide ReadU32, EncodeLength;
    match op
    case GetLocalI32(i) => IdxBack(0x20, i, rest);
    case SetLocalI32(i) => IdxBack(0x21, i, rest);
    case ConstI32(v) =>
      IdxBack(0x41, v, rest);
      assert EncodeLength(v) == EncodeU32(v) by {
        LengthIsU32(v);
      }
    case Return => ByteBack(0x0F, rest);
    case AddI32 => ByteBack(0x6A, rest);
  }

  lemma LengthIsU32(v: Word)
    ensures EncodeLength(v) == EncodeU32(v)
  {
  }

  lemma IdxBack(opcode: Byte, n: nat, rest: seq<Byte>)
    requires n < TWO_32
    ensures var e := [opcode] + EncodeLength(n) + rest;
      e[0] == opcode && ReadU32(e[1..]) == Ok(Parsed(n, rest))
  {
    hide ReadU32, EncodeLength;
    U32Back(n, rest);
    assert ([opcode] + EncodeLength(n) + rest)[1..] == EncodeLength(n) + rest;
  }

  lemma SourceBack(s: SourceOp, rest: seq<Byte>)
    requires Encodable(Intended(s))
    ensures var e := EncodeSource(s) + rest;
      && ReadByte(e).Ok? && e[0] != 0x0B
      && ReadOpcode(e[0], e[1..]) == Ok(Parsed([AsRead(s)], rest))
  {
    match s
    case Plain(op) => OpBack(op, rest);
    case SignedConst(w) => SignedBack(w, rest);
  }

  lemma SignedBack(w: Word, rest: seq<Byte>)
    ensures var e := EncodeSource(SignedConst(w)) + rest;
      && ReadByte(e).Ok? && e[0] != 0x0B
      && ReadOpcode(e[0], e[1..]) == Ok(Parsed([AsRead(SignedConst(w))], rest))
  {
    hide Leb128.Misread, Leb128.Decode, Leb128.EncodeSigned, Leb128.ToSigned, ReadU32;
    var bytes := Leb128.EncodeSigned(Leb128.ToSigned(w));
    Leb128.SignedReadExactly(w, rest);
    MisreadU32(w, bytes + rest, rest);
    var e := EncodeSource(SignedConst(w)) + rest;
    assert e == [0x41] + (bytes + rest);
    ByteBack(0x41, bytes + rest);
  }

  lemma MisreadU32(w: Word, bs: seq<Byte>, rest: seq<Byte>)
    requires Leb128.Decode(U32_TYPE, bs) == Ok(Leb128.Decoded(Leb128.Misread(w), rest))
    requires 0 <= Leb128.Misread(w) < TWO_32
    ensures ReadU32(bs) == Ok(Parsed(Leb128.Misread(w), rest))
  {
    hide Leb128.Decode, Leb128.Misread;
  }

  /** The validator does not look at the value of a constant. */
  lemma SameVisit(c: Context, v: VState, s: SourceOp)
    ensures Visit(c, v, AsRead(s)) == Visit(c, v, Intended(s))
  {
  }

  lemma SourceTail(body: seq<SourceOp>)
    requires body != []
    ensures AllIntended(body) == [Intended(body[0])] + AllIntended(body[1..])
    ensures AllAsRead(body) == [AsRead(body[0])] + AllAsRead(body[1..])
  {
    hide Intended, AsRead;
  }

  /** A body is read as its constants are read, with the validator's final state for the body that is meant. */
  lemma {:induction false} ExpressionBack(c: Context, v: VState, body: seq<SourceOp>, rest: seq<Byte>)
    requires forall i :: 0 <= i < |body| ==> Encodable(Intended(body[i]))
    requires VisitAll(c, v, AllIntended(body)).Some? && Finalize(c, VisitAll(c, v, AllIntended(body)).value).Some?
    ensures ReadExpression(c, v, Concat(body, EncodeSource) + ([0x0B] + rest))
         == Ok(Parsed(Body(AllAsRead(body), Finalize(c, VisitAll(c, v, AllIntended(body)).value).value), rest))
    decreases |body|
  {
    hide Finalize, Visit, ReadOpcode, EncodeSource, Intended, AsRead, AllIntended, AllAsRead;
    if body == [] {
      assert Concat(body, EncodeSource) + ([0x0B] + rest) == [0x0B] + rest;
      assert AllIntended(body) == [] && AllAsRead(body) == [];
      ByteBack(0x0B, rest);
    } else {
      var tail := Concat(body[1..], EncodeSource) + ([0x0B] + rest);
      Assoc(EncodeSource(body[0]), Concat(body[1..], EncodeSource), [0x0B] + rest);
      SourceBack(body[0], tail);
      SourceTail(body);
      SameVisit(c, v, body[0]);
      var op := AsRead(body[0]);
      assert AllIntended(body)[1..] == AllIntended(body[1..]);
      var v' := Visit(c, v, op).value;
      assert [op][1..] == [] && VisitAll(c, v', []) == Some(v');
      assert VisitAll(c, v, [op]) == Some(v');
      ExpressionBack(c, v', body[1..], rest);
    }
  }

  lemma CodeBack(types: seq<BlockType>, f: FunctionSource, rest: seq<Byte>)
    requires GoodSource(types, f)
    ensures ReadCode(Declared(types[f.typeIdx]), EncodeCode(f) + rest)
         == Ok(Parsed(Loaded(types, f, AllAsRead(f.body)), rest))
  {
    hide ReadU32, EncodeLength, ReadExpression, ReadLocals, Concat, Finalize, VisitAll, AllAsRead, AllIntended;
    var c := ContextOf(types[f.typeIdx], Expand(f.groups));
    var groups, ops := Concat(f.groups, EncodeGroup), Concat(f.body, EncodeSource);
    var expr := ops + ([0x0B] + rest);
    assert EncodeCode(f) + rest == EncodeLength(|EncodePayload(f)|) + (EncodePayload(f) + rest);
    assert EncodePayload(f) + rest == EncodeLength(|f.groups|) + (groups + expr);
    U32Back(|EncodePayload(f)|, EncodePayload(f) + rest);
    U32Back(|f.groups|, groups + expr);
    LocalsBack(f.groups, [], expr);
    assert [] + Expand(f.groups) == Expand(f.groups);
    ExpressionBack(c, START, f.body, rest);
  }

  lemma {:induction false} CodesBack(types: seq<BlockType>, fs: seq<FunctionSource>, rest: seq<Byte>)
    requires forall i :: 0 <= i < |fs| ==> GoodSource(types, fs[i])
    ensures ReadCodes(AllDeclaredOf(types, fs), Concat(fs, EncodeCode) + rest)
         == Ok(Parsed(AllRead(types, fs), rest))
    decreases |fs|
  {
    hide ReadCode, EncodeCode;
    if fs == [] {
      assert Concat(fs, EncodeCode) + rest == rest;
      assert AllDeclaredOf(types, fs) == [] && AllRead(types, fs) == [];
    } else {
      var tail := Concat(fs[1..], EncodeCode) + rest;
      Assoc(EncodeCode(fs[0]), Concat(fs[1..], EncodeCode), rest);
      CodeBack(types, fs[0], tail);
      SplitFunctions(types, fs);
      hide GoodSource, AllDeclaredOf, AllRead, Loaded, AllAsRead;
      CodesBack(types, fs[1..], rest);
    }
  }

  lemma SplitFunctions(types: seq<BlockType>, fs: seq<FunctionSource>)
    requires fs != [] && forall i :: 0 <= i < |fs| ==> GoodSource(types, fs[i])
    ensures forall i :: 0 <= i < |fs| - 1 ==> GoodSource(types, fs[1..][i])
    ensures GoodSource(types, fs[0]) && fs[0].typeIdx < |types|
    ensures |AllDeclaredOf(types, fs)| == |fs| && AllDeclaredOf(types, fs)[0] == Declared(types[fs[0].typeIdx])
    ensures AllDeclaredOf(types, fs)[1..] == AllDeclaredOf(types, fs[1..])
    ensures AllRead(types, fs) == [Loaded(types, fs[0], AllAsRead(fs[0].body))] + AllRead(types, fs[1..])
  {
    assert GoodSource(types, fs[0]);
    hide Check, Expand, Encodable, EncodePayload, AllIntended, AllAsRead, Loaded, Declared;
    assert fs[0].typeIdx < |types|;
    hide GoodSource;
    assert forall i :: 0 <= i < |fs| - 1 ==> fs[1..][i] == fs[i + 1];
    DeclaredSplit(types, fs);
  }

  lemma DeclaredSplit(types: seq<BlockType>, fs: seq<FunctionSource>)
    requires fs != [] && forall i :: 0 <= i < |fs| ==> GoodSource(types, fs[i])
    requires forall i :: 0 <= i < |fs| - 1 ==> GoodSource(types, fs[1..][i])
    ensures AllDeclaredOf(types, fs)[1..] == AllDeclaredOf(types, fs[1..])
  {
    hide GoodSource, Declared;
  }

  ghost function AllDeclaredOf(types: seq<BlockType>, fs: seq<FunctionSource>): seq<Function>
    requires forall i :: 0 <= i < |fs| ==> GoodSource(types, fs[i])
  {
    seq(|fs|, i requires 0 <= i < |fs| && GoodSource(types, fs[i]) => Declared(types[fs[i].typeIdx]))
  }

  /** The functions as the parser makes them of their encoding. */
  ghost function AllRead(types: seq<BlockType>, fs: seq<FunctionSource>): seq<Function>
    requires forall i :: 0 <= i < |fs| ==> GoodSource(types, fs[i])
  {
    seq(|fs|, i requires 0 <= i < |fs| && GoodSource(types, fs[i]) => Loaded(types, fs[i], AllAsRead(fs[i].body)))
  }

  /** The functions as they are meant. */
  ghost function AllLoaded(types: seq<BlockType>, fs: seq<FunctionSource>): seq<Function>
    requires forall i :: 0 <= i < |fs| ==> GoodSource(types, fs[i])
  {
    seq(|fs|, i requires 0 <= i < |fs| && GoodSource(types, fs[i]) => Loaded(types, fs[i], AllIntended(fs[i].body)))
  }

  predicate BodyReadsRight(body: seq<SourceOp>) {
    forall i :: 0 <= i < |body| ==> ReadsRight(body[i])
  }

  lemma BodyReadExactly(body: seq<SourceOp>)
    ensures AllAsRead(body) == AllIntended(body) <==> BodyReadsRight(body)
  {
    forall i | 0 <= i < |body|
      ensures AsRead(body[i]) == Intended(body[i]) <==> ReadsRight(body[i])
    {
      if body[i].SignedConst? {
        Leb128.SignedReadExactly(body[i].word, []);
      }
    }
    hide AsRead, Intended, ReadsRight;
    if AllAsRead(body) == AllIntended(body) {
      forall i | 0 <= i < |body|
        ensures ReadsRight(body[i])
      {
        assert AllAsRead(body)[i] == AllIntended(body)[i];
      }
    }
  }

  lemma AllReadExactly(types: seq<BlockType>, fs: seq<FunctionSource>)
    requires forall i :: 0 <= i < |fs| ==> GoodSource(types, fs[i])
    ensures AllRead(types, fs) == AllLoaded(types, fs) <==> forall i :: 0 <= i < |fs| ==> BodyReadsRight(fs[i].body)
  {
    forall i | 0 <= i < |fs|
      ensures AllRead(types, fs)[i] == AllLoaded(types, fs)[i] <==> BodyReadsRight(fs[i].body)
    {
      assert GoodSource(types, fs[i]);
      BodyReadExactly(fs[i].body);
      hide AllIntended, AllAsRead, BodyReadsRight, Check, EncodePayload, Expand;
    }
    hide BodyReadsRight, GoodSource;
    var r, l := AllRead(types, fs), AllLoaded(types, fs);
    assert |r| == |l| == |fs|;
    if r == l {
      assert forall i :: 0 <= i < |fs| ==> r[i] == l[i];
    }
  }

  // ---------- sections ----------

  lemma SectionBack(b: Builder, id: Byte, payload: seq<Byte>, rest: seq<Byte>, b': Builder)
    requires |payload| < TWO_32 && (id != 0 ==> id > b.latest)
    requires ReadContents(id, |payload|, Opened(b, id), payload + rest) == Ok(Parsed(b', rest))
    ensures ReadSections(b, Section(id, payload) + rest) == ReadSections(b', rest)
  {
    hide ReadContents, ReadU32, EncodeLength, ReadSections;
    var tail := EncodeLength(|payload|) + (payload + rest);
    assert Section(id, payload) + rest == [id] + tail;
    ByteBack(id, tail);
    U32Back(|payload|, payload + rest);
    assert ReadSection(b, Section(id, payload) + rest) == Ok(Parsed(b', rest));
    hide ReadSection;
    NextSection(b, Section(id, payload) + rest);
  }

  lemma NextSection(b: Builder, bs: seq<Byte>)
    requires bs != []
    ensures ReadSections(b, bs)
         == (var s := ReadSection(b, bs); if s.Err? then Err(s.error) else ReadSections(s.value.value, s.value.rest))
  {
  }

  /** Custom sections at any boundary change nothing. */
  lemma {:induction false} CustomsBack(b: Builder, cs: seq<seq<Byte>>, rest: seq<Byte>)
    requires SmallCustoms(cs)
    ensures ReadSections(b, Customs(cs) + rest) == ReadSections(b, rest)
  {
    if cs == [] {
      assert Customs(cs) + rest == rest;
    } else {
      var tail := Customs(cs[1..]) + rest;
      Assoc(Section(0, cs[0]), Customs(cs[1..]), rest);
      assert (cs[0] + tail)[..|cs[0]|] == cs[0] && (cs[0] + tail)[|cs[0]|..] == tail;
      assert ReadContents(0, |cs[0]|, b, cs[0] + tail) == Ok(Parsed(b, tail));
      hide ReadSections, Section, ReadContents;
      SectionBack(b, 0, cs[0], tail, b);
      CustomsBack(b, cs[1..], rest);
    }
  }

  /** Custom sections, then a section. */
  lemma SectionAfterCustoms(b: Builder, cs: seq<seq<Byte>>, id: Byte, payload: seq<Byte>, rest: seq<Byte>, b': Builder)
    requires SmallCustoms(cs) && |payload| < TWO_32 && (id != 0 ==> id > b.latest)
    requires ReadContents(id, |payload|, Opened(b, id), payload + rest) == Ok(Parsed(b', rest))
    ensures ReadSections(b, Customs(cs) + (Section(id, payload) + rest)) == ReadSections(b', rest)
  {
    hide *;
    CustomsBack(b, cs, Section(id, payload) + rest);
    SectionBack(b, id, payload, rest, b');
  }

  /** Custom sections, then a section or nothing. */
  lemma ListedAfterCustoms(b: Builder, cs: seq<seq<Byte>>, id: Byte, payload: seq<Byte>, listed: bool,
                           rest: seq<Byte>, b': Builder)
    requires SmallCustoms(cs)
    requires listed ==>
      && |payload| < TWO_32 && id != 0 && id > b.latest
      && ReadContents(id, |payload|, b.(latest := id), payload + rest) == Ok(Parsed(b', rest))
    requires !listed ==> b' == b
    ensures ReadSections(b, Customs(cs) + (Listed(id, payload, listed) + rest)) == ReadSections(b', rest)
  {
    hide Section, Customs, SmallCustoms, ReadSections, ReadContents;
    if listed {
      assert Opened(b, id) == b.(latest := id);
      SectionAfterCustoms(b, cs, id, payload, rest, b');
    } else {
      assert Listed(id, payload, listed) + rest == rest;
      CustomsBack(b, cs, rest);
    }
  }

  lemma TypeVector(m: ModuleSource, rest: seq<Byte>)
    requires GoodModule(m)
    ensures Vector(MAX_FUNCTION_SIGNATURES, TypePayload(m) + rest, ReadSignature) == Ok(Parsed(m.types, rest))
  {
    TypeLimits(m);
    hide *;
    forall i, r | 0 <= i < |m.types|
      ensures ReadSignature(EncodeSignature(m.types[i]) + r) == Ok(Parsed(m.types[i], r))
    {
      SignatureBack(m.types[i], r);
    }
    VectorBack(MAX_FUNCTION_SIGNATURES, m.types, m.types, EncodeSignature, ReadSignature, rest);
  }

  lemma TypeLimits(m: ModuleSource)
    requires GoodModule(m)
    ensures |m.types| <= MAX_FUNCTION_SIGNATURES < TWO_32 && TypePayload(m) == EncodeVector(m.types, EncodeSignature)
    ensures forall i :: 0 <= i < |m.types| ==>
      Limited(m.types[i]) && NoVector(m.types[i].params) && NoVector(m.types[i].results)
  {
    hide GoodSource, GoodImport, GoodTable, GoodExports, NoVector, Limited, EncodeVector, EncodeLength;
  }

  function AllImports(ms: seq<ImportSource>): (r: seq<Import>)
    ensures |r| == |ms| && forall i :: 0 <= i < |ms| ==> r[i] == ImportOf(ms[i])
  {
    seq(|ms|, i requires 0 <= i < |ms| => ImportOf(ms[i]))
  }

  function AllTables(ts: seq<TableSource>): (r: seq<TableType>)
    ensures |r| == |ts| && forall i :: 0 <= i < |ts| ==> r[i] == TableOf(ts[i])
  {
    seq(|ts|, i requires 0 <= i < |ts| => TableOf(ts[i]))
  }

  function AllLimits(bs: seq<Bounds>): (r: seq<Limits>)
    ensures |r| == |bs| && forall i :: 0 <= i < |bs| ==> r[i] == LimitsOf(bs[i])
  {
    seq(|bs|, i requires 0 <= i < |bs| => LimitsOf(bs[i]))
  }

  lemma ImportLimits(m: ModuleSource)
    requires GoodModule(m)
    ensures |m.types| <= MAX_FUNCTION_SIGNATURES && |m.imports| <= MAX_IMPORTS < TWO_32
    ensures forall i :: 0 <= i < |m.imports| ==> GoodImport(m.types, m.imports[i])
    ensures ImportPayload(m) == EncodeVector(m.imports, EncodeImport)
  {
    hide GoodSource, GoodImport, GoodTable, GoodExports, NoVector, LimitedSignatures, EncodeVector, EncodeLength;
  }

  lemma ImportVector(m: ModuleSource, rest: seq<Byte>)
    requires GoodModule(m)
    ensures Vector(MAX_IMPORTS, ImportPayload(m) + rest, Imports(|m.types|)) == Ok(Parsed(AllImports(m.imports), rest))
  {
    ImportLimits(m);
    hide *;
    var ms := AllImports(m.imports);
    forall i, r | 0 <= i < |m.imports|
      ensures Imports(|m.types|)(EncodeImport(m.imports[i]) + r) == Ok(Parsed(ms[i], r))
    {
      ImportBack(m.types, m.imports[i], r);
    }
    VectorBack(MAX_IMPORTS, m.imports, ms, EncodeImport, Imports(|m.types|), rest);
  }

  lemma TableLimits(m: ModuleSource)
    requires GoodModule(m)
    ensures |m.tables| <= MAX_TABLES < TWO_32 && |m.memories| <= MAX_MEMORIES < TWO_32
    ensures forall i :: 0 <= i < |m.tables| ==> GoodTable(m.tables[i])
    ensures TablePayload(m) == EncodeVector(m.tables, EncodeTable)
    ensures MemoryPayload(m) == EncodeVector(m.memories, EncodeBounds)
  {
    hide GoodSource, GoodImport, GoodTable, GoodExports, NoVector, LimitedSignatures, EncodeVector, EncodeLength;
  }

  lemma TableVector(m: ModuleSource, rest: seq<Byte>)
    requires GoodModule(m)
    ensures Vector(MAX_TABLES, TablePayload(m) + rest, ReadTableType) == Ok(Parsed(AllTables(m.tables), rest))
  {
    TableLimits(m);
    hide *;
    var ts := AllTables(m.tables);
    forall i, r | 0 <= i < |m.tables|
      ensures ReadTableType(EncodeTable(m.tables[i]) + r) == Ok(Parsed(ts[i], r))
    {
      TableBack(m.tables[i], r);
    }
    VectorBack(MAX_TABLES, m.tables, ts, EncodeTable, ReadTableType, rest);
  }

  lemma MemoryVector(m: ModuleSource, rest: seq<Byte>)
    requires GoodModule(m)
    ensures Vector(MAX_MEMORIES, MemoryPayload(m) + rest, ReadLimits) == Ok(Parsed(AllLimits(m.memories), rest))
  {
    TableLimits(m);
    hide *;
    var ms := AllLimits(m.memories);
    forall i, r | 0 <= i < |m.memories|
      ensures ReadLimits(EncodeBounds(m.memories[i]) + r) == Ok(Parsed(ms[i], r))
    {
      BoundsBack(m.memories[i], r);
    }
    VectorBack(MAX_MEMORIES, m.memories, ms, EncodeBounds, ReadLimits, rest);
  }

  ghost function DeclaredIn(m: ModuleSource): (fs: seq<Function>)
    requires GoodModule(m)
    ensures |fs| == |m.functions|
  {
    AllDeclaredOf(m.types, m.functions)
  }

  lemma FunctionLimits(m: ModuleSource)
    requires GoodModule(m)
    ensures |m.types| <= MAX_FUNCTION_SIGNATURES && |m.functions| <= MAX_FUNCTIONS < TWO_32
    ensures forall i :: 0 <= i < |m.functions| ==> GoodSource(m.types, m.functions[i])
    ensures DeclaredIn(m) == AllDeclaredOf(m.types, m.functions)
    ensures FunctionPayload(m) == EncodeVector(m.functions, TypeIndex)
    ensures CodePayload(m) == EncodeVector(m.functions, EncodeCode)
  {
    hide GoodSource, GoodImport, GoodTable, GoodExports, NoVector, LimitedSignatures, EncodeVector, EncodeLength;
  }

  lemma DeclarationBack(types: seq<BlockType>, fs: seq<FunctionSource>, i: nat, rest: seq<Byte>)
    requires |types| <= MAX_FUNCTION_SIGNATURES && i < |fs|
    requires forall j :: 0 <= j < |fs| ==> GoodSource(types, fs[j])
    ensures Declarations(types)(TypeIndex(fs[i]) + rest) == Ok(Parsed(AllDeclaredOf(types, fs)[i], rest))
  {
    assert GoodSource(types, fs[i]);
    hide Check, ReadU32, EncodeLength, Expand, EncodePayload;
    IndexBack(|types|, fs[i].typeIdx, rest);
  }

  lemma DeclarationVector(m: ModuleSource, rest: seq<Byte>)
    requires GoodModule(m)
    ensures Vector(MAX_FUNCTIONS, FunctionPayload(m) + rest, Declarations(m.types)) == Ok(Parsed(DeclaredIn(m), rest))
  {
    FunctionLimits(m);
    hide *;
    var fs := DeclaredIn(m);
    forall i, r | 0 <= i < |m.functions|
      ensures Declarations(m.types)(TypeIndex(m.functions[i]) + r) == Ok(Parsed(fs[i], r))
    {
      DeclarationBack(m.types, m.functions, i, r);
    }
    VectorBack(MAX_FUNCTIONS, m.functions, fs, TypeIndex, Declarations(m.types), rest);
  }

  lemma ExportLimits(m: ModuleSource)
    requires GoodModule(m)
    ensures |m.exports| <= MAX_EXPORTS < TWO_32 && SmallSpaces(SpacesIn(m)) && GoodExports(SpacesIn(m), m.exports)
    ensures forall i :: 0 <= i < |m.exports| ==> |m.exports[i].name| <= MAX_NAME_LENGTH
    ensures m.start.Some? ==> m.start.value < |m.functions| < TWO_32
    ensures ExportPayload(m) == EncodeVector(m.exports, EncodeExport) && MAX_EXPORTS < TWO_32
  {
    hide GoodSource, GoodImport, GoodTable, GoodExports, NoVector, LimitedSignatures, EncodeVector, EncodeLength;
  }

  lemma PayloadLimits(m: ModuleSource)
    requires GoodModule(m)
    ensures |TypePayload(m)| < TWO_32 && |ImportPayload(m)| < TWO_32 && |FunctionPayload(m)| < TWO_32
    ensures |TablePayload(m)| < TWO_32 && |MemoryPayload(m)| < TWO_32
    ensures |ExportPayload(m)| < TWO_32 && |CodePayload(m)| < TWO_32
  {
    hide GoodSource, GoodImport, GoodTable, GoodExports, NoVector, LimitedSignatures, EncodeVector, EncodeLength;
  }

  lemma ExportContents(size: nat, b: Builder, bs: seq<Byte>, tail: seq<Byte>, es: seq<Export>, rest: seq<Byte>)
    requires |es| <= MAX_EXPORTS && ReadU32(bs) == Ok(Parsed(|es|, tail)) && b.exports == []
    requires ReadExports(SpacesOf(b), |es|, [], tail) == Ok(Parsed([] + es, rest))
    ensures ReadContents(7, size, b, bs) == Ok(Parsed(b.(exports := es), rest))
  {
    hide ReadU32, ReadExports, SpacesOf;
    assert [] + es == es;
  }

  lemma CountBack<T>(xs: seq<T>, encode: T -> seq<Byte>, rest: seq<Byte>)
    requires |xs| < TWO_32
    ensures ReadU32(EncodeVector(xs, encode) + rest) == Ok(Parsed(|xs|, Concat(xs, encode) + rest))
  {
    hide ReadU32, EncodeLength, Concat;
    Assoc(EncodeLength(|xs|), Concat(xs, encode), rest);
    U32Back(|xs|, Concat(xs, encode) + rest);
  }

  lemma ExportSectionBack(m: ModuleSource, b: Builder, rest: seq<Byte>)
    requires GoodModule(m) && SpacesOf(b) == SpacesIn(m) && b.exports == []
    ensures ReadContents(7, |ExportPayload(m)|, b, ExportPayload(m) + rest) == Ok(Parsed(b.(exports := m.exports), rest))
  {
    hide *;
    ExportLimits(m);
    assert [] + m.exports == m.exports;
    CountBack(m.exports, EncodeExport, rest);
    ExportsBack(SpacesIn(m), [], m.exports, rest);
    ExportContents(|ExportPayload(m)|, b, ExportPayload(m) + rest, Concat(m.exports, EncodeExport) + rest, m.exports,
                   rest);
  }

  lemma StartBack(m: ModuleSource, b: Builder, rest: seq<Byte>)
    requires GoodModule(m) && m.start.Some? && |b.functions| == |m.functions|
    ensures |StartPayload(m)| < TWO_32
    ensures ReadContents(8, |StartPayload(m)|, b, StartPayload(m) + rest) == Ok(Parsed(b.(start := m.start), rest))
  {
    ExportLimits(m);
    hide GoodModule, GoodExports, SmallSpaces, ReadU32, EncodeLength;
    IndexBack(|m.functions|, m.start.value, rest);
    ShortLength(m.start.value);
  }

  lemma ShortLength(n: nat)
    ensures |EncodeLength(n)| <= 5
  {
    if n < TWO_32 {
      Bits.TwoTo32();
      Leb128.Minimal(U32_TYPE, n, []);
    }
  }

  lemma NoGlobalsBack(b: Builder, rest: seq<Byte>)
    ensures ReadContents(6, |EncodeLength(0)|, b, EncodeLength(0) + rest) == Ok(Parsed(b, rest))
  {
    hide ReadU32, EncodeLength, ReadGlobal;
    U32Back(0, rest);
    assert b.globals + [] == b.globals;
  }

  ghost function ReadIn(m: ModuleSource): (fs: seq<Function>)
    requires GoodModule(m)
    ensures |fs| == |m.functions|
  {
    AllRead(m.types, m.functions)
  }

  lemma GoodParts(m: ModuleSource)
    requires GoodModule(m)
    ensures DistinctNames(m.exports)
    ensures forall i :: 0 <= i < |m.functions| ==> GoodSource(m.types, m.functions[i])
    ensures ReadIn(m) == AllRead(m.types, m.functions)
  {
  }

  lemma CodeContents(size: nat, b: Builder, bs: seq<Byte>, tail: seq<Byte>, fs: seq<Function>, rest: seq<Byte>)
    requires ReadU32(bs) == Ok(Parsed(|b.functions|, tail)) && ReadCodes(b.functions, tail) == Ok(Parsed(fs, rest))
    ensures ReadContents(10, size, b, bs) == Ok(Parsed(b.(functions := fs), rest))
  {
    hide ReadU32, ReadCodes;
  }

  lemma CodeSectionBack(m: ModuleSource, b: Builder, rest: seq<Byte>)
    requires GoodModule(m) && b.functions == DeclaredIn(m)
    ensures ReadContents(10, |CodePayload(m)|, b, CodePayload(m) + rest) == Ok(Parsed(b.(functions := ReadIn(m)), rest))
  {
    FunctionLimits(m);
    GoodParts(m);
    hide GoodModule, GoodSource, ReadU32, ReadCodes, AllDeclaredOf, AllRead, DeclaredIn, ReadIn;
    hide EncodeVector, Concat;
    hide ReadContents, CodePayload, FunctionPayload;
    CountBack(m.functions, EncodeCode, rest);
    CodesBack(m.types, m.functions, rest);
    CodeContents(|CodePayload(m)|, b, CodePayload(m) + rest, Concat(m.functions, EncodeCode) + rest, ReadIn(m), rest);
  }

  // ---------- section by section ----------

  predicate Present(m: ModuleSource, x: Extras, id: nat) {
    match id
    case 1 => Has(x, 1, m.types)
    case 2 => Has(x, 2, m.imports)
    case 3 => Has(x, 3, m.functions)
    case 4 => Has(x, 4, m.tables)
    case 5 => Has(x, 5, m.memories)
    case 6 => 6 in x.empties
    case 7 => Has(x, 7, m.exports)
    case 8 => m.start.Some?
    case 10 => Has(x, 10, m.functions)
    case _ => false
  }

  /** The last section up to `id` that is there. */
  function Latest(m: ModuleSource, x: Extras, id: nat): (r: nat)
    ensures r <= id
  {
    if id == 0 || Present(m, x, id) then id else Latest(m, x, id - 1)
  }

  /** The builder when the sections up to `id` have been read. */
  ghost function BuiltUpTo(m: ModuleSource, x: Extras, id: nat): Builder
    requires GoodModule(m)
  {
    Builder(
      Latest(m, x, id),
      if id >= 1 then m.types else [],
      if id >= 2 then AllImports(m.imports) else [],
      if id >= 10 then ReadIn(m) else if id >= 3 then DeclaredIn(m) else [],
      if id >= 4 then AllTables(m.tables) else [],
      if id >= 5 then AllLimits(m.memories) else [],
      [],
      if id >= 7 then m.exports else [],
      if id >= 8 then m.start else None)
  }

  lemma GapSmall(x: Extras, i: nat)
    requires GoodExtras(x)
    ensures SmallCustoms(x.Gap(i))
  {
  }

  /** One section of an encoding, with the custom sections in front of it. */
  lemma OneStep(m: ModuleSource, x: Extras, gap: nat, from: nat, id: Byte, payload: seq<Byte>, rest: seq<Byte>)
    requires GoodModule(m) && GoodExtras(x) && from < id
    requires Present(m, x, id) ==>
      && |payload| < TWO_32
      && ReadContents(id, |payload|, BuiltUpTo(m, x, from).(latest := id), payload + rest)
         == Ok(Parsed(BuiltUpTo(m, x, id), rest))
    requires !Present(m, x, id) ==> BuiltUpTo(m, x, id) == BuiltUpTo(m, x, from)
    ensures ReadSections(BuiltUpTo(m, x, from), x.At(gap) + (Listed(id, payload, Present(m, x, id)) + rest))
         == ReadSections(BuiltUpTo(m, x, id), rest)
  {
    GapSmall(x, gap);
    hide GoodModule, GoodExtras, SmallCustoms, Customs, Listed, ReadContents, ReadSections, Present;
    ListedAfterCustoms(BuiltUpTo(m, x, from), x.Gap(gap), id, payload, Present(m, x, id), rest, BuiltUpTo(m, x, id));
  }

  lemma TypesStep(m: ModuleSource, x: Extras, rest: seq<Byte>)
    requires GoodModule(m) && GoodExtras(x)
    ensures ReadSections(BuiltUpTo(m, x, 0), x.At(0) + (Listed(1, TypePayload(m), Has(x, 1, m.types)) + rest))
         == ReadSections(BuiltUpTo(m, x, 1), rest)
  {
    PayloadLimits(m);
    TypeVector(m, rest);
    assert [] + m.types == m.types;
    hide GoodModule, GoodExtras, ReadSections, Vector, Listed, TypePayload, ImportPayload, FunctionPayload;
    hide TablePayload, MemoryPayload, ExportPayload, CodePayload, StartPayload, EncodeLength, DeclaredIn, ReadIn;
    OneStep(m, x, 0, 0, 1, TypePayload(m), rest);
  }

  lemma ImportsStep(m: ModuleSource, x: Extras, rest: seq<Byte>)
    requires GoodModule(m) && GoodExtras(x)
    ensures ReadSections(BuiltUpTo(m, x, 1), x.At(1) + (Listed(2, ImportPayload(m), Has(x, 2, m.imports)) + rest))
         == ReadSections(BuiltUpTo(m, x, 2), rest)
  {
    PayloadLimits(m);
    ImportVector(m, rest);
    assert [] + AllImports(m.imports) == AllImports(m.imports);
    hide GoodModule, GoodExtras, ReadSections, Vector, Listed, TypePayload, ImportPayload, FunctionPayload;
    hide TablePayload, MemoryPayload, ExportPayload, CodePayload, StartPayload, EncodeLength, DeclaredIn, ReadIn;
    OneStep(m, x, 1, 1, 2, ImportPayload(m), rest);
  }

  lemma FunctionsStep(m: ModuleSource, x: Extras, rest: seq<Byte>)
    requires GoodModule(m) && GoodExtras(x)
    ensures ReadSections(BuiltUpTo(m, x, 2), x.At(2) + (Listed(3, FunctionPayload(m), Has(x, 3, m.functions)) + rest))
         == ReadSections(BuiltUpTo(m, x, 3), rest)
  {
    PayloadLimits(m);
    DeclarationVector(m, rest);
    assert [] + DeclaredIn(m) == DeclaredIn(m);
    hide GoodModule, GoodExtras, ReadSections, Vector, Listed, TypePayload, ImportPayload, FunctionPayload;
    hide TablePayload, MemoryPayload, ExportPayload, CodePayload, StartPayload, EncodeLength, DeclaredIn, ReadIn;
    OneStep(m, x, 2, 2, 3, FunctionPayload(m), rest);
  }

  lemma TablesStep(m: ModuleSource, x: Extras, rest: seq<Byte>)
    requires GoodModule(m) && GoodExtras(x)
    ensures ReadSections(BuiltUpTo(m, x, 3), x.At(3) + (Listed(4, TablePayload(m), Has(x, 4, m.tables)) + rest))
         == ReadSections(BuiltUpTo(m, x, 4), rest)
  {
    PayloadLimits(m);
    TableVector(m, rest);
    assert [] + AllTables(m.tables) == AllTables(m.tables);
    hide GoodModule, GoodExtras, ReadSections, Vector, Listed, TypePayload, ImportPayload, FunctionPayload;
    hide TablePayload, MemoryPayload, ExportPayload, CodePayload, StartPayload, EncodeLength, DeclaredIn, ReadIn;
    OneStep(m, x, 3, 3, 4, TablePayload(m), rest);
  }

  lemma MemoriesStep(m: ModuleSource, x: Extras, rest: seq<Byte>)
    requires GoodModule(m) && GoodExtras(x)
    ensures ReadSections(BuiltUpTo(m, x, 4), x.At(4) + (Listed(5, MemoryPayload(m), Has(x, 5, m.memories)) + rest))
         == ReadSections(BuiltUpTo(m, x, 5), rest)
  {
    PayloadLimits(m);
    MemoryVector(m, rest);
    assert [] + AllLimits(m.memories) == AllLimits(m.memories);
    hide GoodModule, GoodExtras, ReadSections, Vector, Listed, TypePayload, ImportPayload, FunctionPayload;
    hide TablePayload, MemoryPayload, ExportPayload, CodePayload, StartPayload, EncodeLength, DeclaredIn, ReadIn;
    OneStep(m, x, 4, 4, 5, MemoryPayload(m), rest);
  }

  lemma GlobalsStep(m: ModuleSource, x: Extras, rest: seq<Byte>)
    requires GoodModule(m) && GoodExtras(x)
    ensures ReadSections(BuiltUpTo(m, x, 5), x.At(5) + (Listed(6, EncodeLength(0), 6 in x.empties) + rest))
         == ReadSections(BuiltUpTo(m, x, 6), rest)
  {
    PayloadLimits(m);
    NoGlobalsBack(BuiltUpTo(m, x, 5).(latest := 6), rest);
    ShortLength(0);
    hide GoodModule, GoodExtras, ReadSections, Vector, Listed, TypePayload, ImportPayload, FunctionPayload;
    hide TablePayload, MemoryPayload, ExportPayload, CodePayload, StartPayload, EncodeLength, DeclaredIn, ReadIn;
    hide ReadContents;
    OneStep(m, x, 5, 5, 6, EncodeLength(0), rest);
  }

  lemma ExportsStep(m: ModuleSource, x: Extras, rest: seq<Byte>)
    requires GoodModule(m) && GoodExtras(x)
    ensures ReadSections(BuiltUpTo(m, x, 6), x.At(6) + (Listed(7, ExportPayload(m), Has(x, 7, m.exports)) + rest))
         == ReadSections(BuiltUpTo(m, x, 7), rest)
  {
    PayloadLimits(m);
    ExportSectionBack(m, BuiltUpTo(m, x, 6).(latest := 7), rest);
    hide GoodModule, GoodExtras, ReadSections, Vector, Listed, TypePayload, ImportPayload, FunctionPayload;
    hide TablePayload, MemoryPayload, ExportPayload, CodePayload, StartPayload, EncodeLength, DeclaredIn, ReadIn;
    hide ReadContents;
    OneStep(m, x, 6, 6, 7, ExportPayload(m), rest);
  }

  lemma StartStep(m: ModuleSource, x: Extras, rest: seq<Byte>)
    requires GoodModule(m) && GoodExtras(x)
    ensures ReadSections(BuiltUpTo(m, x, 7), x.At(7) + (Listed(8, StartPayload(m), m.start.Some?) + rest))
         == ReadSections(BuiltUpTo(m, x, 8), rest)
  {
    PayloadLimits(m);
    if m.start.Some? {
      StartBack(m, BuiltUpTo(m, x, 7).(latest := 8), rest);
    }
    hide GoodModule, GoodExtras, ReadSections, Vector, Listed, TypePayload, ImportPayload, FunctionPayload;
    hide TablePayload, MemoryPayload, ExportPayload, CodePayload, StartPayload, EncodeLength, DeclaredIn, ReadIn;
    hide ReadContents;
    OneStep(m, x, 7, 7, 8, StartPayload(m), rest);
  }

  lemma CodeStep(m: ModuleSource, x: Extras, rest: seq<Byte>)
    requires GoodModule(m) && GoodExtras(x)
    ensures ReadSections(BuiltUpTo(m, x, 8), x.At(8) + (Listed(10, CodePayload(m), Has(x, 10, m.functions)) + rest))
         == ReadSections(BuiltUpTo(m, x, 10), rest)
  {
    PayloadLimits(m);
    CodeSectionBack(m, BuiltUpTo(m, x, 8).(latest := 10), rest);
    assert Latest(m, x, 9) == Latest(m, x, 8);
    hide GoodModule, GoodExtras, ReadSections, Vector, Listed, TypePayload, ImportPayload, FunctionPayload;
    hide TablePayload, MemoryPayload, ExportPayload, CodePayload, StartPayload, EncodeLength, DeclaredIn, ReadIn;
    hide ReadContents;
    OneStep(m, x, 8, 8, 10, CodePayload(m), rest);
  }

  lemma LaterSections(m: ModuleSource, x: Extras)
    requires GoodModule(m) && GoodExtras(x)
    ensures ReadSections(BuiltUpTo(m, x, 5), AfterMemories(m, x)) == Ok(BuiltUpTo(m, x, 10))
  {
    GapSmall(x, 9);
    hide GoodModule, GoodExtras, Listed, Customs, SmallCustoms, ReadSections, BuiltUpTo;
    hide ExportPayload, CodePayload, StartPayload, EncodeLength;
    var r4 := x.At(9);
    var r3 := x.At(8) + (Listed(10, CodePayload(m), Has(x, 10, m.functions)) + r4);
    var r2 := x.At(7) + (Listed(8, StartPayload(m), m.start.Some?) + r3);
    var r1 := x.At(6) + (Listed(7, ExportPayload(m), Has(x, 7, m.exports)) + r2);
    GlobalsStep(m, x, r1);
    ExportsStep(m, x, r2);
    StartStep(m, x, r3);
    CodeStep(m, x, r4);
    EndOfSections(BuiltUpTo(m, x, 10), x.Gap(9));
  }

  lemma EarlierSections(m: ModuleSource, x: Extras, rest: seq<Byte>)
    requires GoodModule(m) && GoodExtras(x)
    ensures ReadSections(FRESH, Earlier(m, x, rest)) == ReadSections(BuiltUpTo(m, x, 5), rest)
  {
    assert BuiltUpTo(m, x, 0) == FRESH;
    hide GoodModule, GoodExtras, Listed, Customs, ReadSections, BuiltUpTo, Has;
    hide TypePayload, ImportPayload, FunctionPayload, TablePayload, MemoryPayload;
    var r4 := x.At(4) + (Listed(5, MemoryPayload(m), Has(x, 5, m.memories)) + rest);
    var r3 := x.At(3) + (Listed(4, TablePayload(m), Has(x, 4, m.tables)) + r4);
    var r2 := x.At(2) + (Listed(3, FunctionPayload(m), Has(x, 3, m.functions)) + r3);
    var r1 := x.At(1) + (Listed(2, ImportPayload(m), Has(x, 2, m.imports)) + r2);
    TypesStep(m, x, r1);
    ImportsStep(m, x, r2);
    FunctionsStep(m, x, r3);
    TablesStep(m, x, r4);
    MemoriesStep(m, x, rest);
  }

  lemma AllSectionsBack(m: ModuleSource, x: Extras)
    requires GoodModule(m) && GoodExtras(x)
    ensures ReadSections(FRESH, AfterHeader(m, x)) == Ok(BuiltUpTo(m, x, 10))
  {
    EarlierSections(m, x, AfterMemories(m, x));
    LaterSections(m, x);
    hide GoodModule, GoodExtras, ReadSections, BuiltUpTo, Earlier, AfterMemories;
  }

  lemma EndOfSections(b: Builder, cs: seq<seq<Byte>>)
    requires SmallCustoms(cs)
    ensures ReadSections(b, Customs(cs)) == Ok(b)
  {
    assert Customs(cs) + [] == Customs(cs);
    CustomsBack(b, cs, []);
  }

  lemma HeaderBack(rest: seq<Byte>)
    ensures ReadBuilder(MAGIC + (VERSION + rest)) == ReadSections(FRESH, rest)
  {
    assert (MAGIC + (VERSION + rest))[..4] == MAGIC && (MAGIC + (VERSION + rest))[4..] == VERSION + rest;
    assert (VERSION + rest)[..4] == VERSION && (VERSION + rest)[4..] == rest;
  }

  /** What the parser makes of the encoding of a module: every module within the limits, locals in any
      grouping, custom sections at every boundary, empty sections or none, limits with or without a maximum,
      constants signed or unsigned. It reads types, imports, tables, memories, exports and start as they are,
      and the functions with their marks; the functions are the ones that are meant if and only if every
      constant written in signed form is not negative or takes all five bytes. */
  lemma ParserReadsEncoding(m: ModuleSource, x: Extras)
    requires GoodModule(m) && GoodExtras(x)
    ensures forall i :: 0 <= i < |m.functions| ==> GoodSource(m.types, m.functions[i])
    ensures DistinctNames(m.exports)
    ensures ReadBuilder(EncodeModule(m, x))
         == Ok(Builder(Latest(m, x, 10), m.types, AllImports(m.imports), AllRead(m.types, m.functions),
                       AllTables(m.tables), AllLimits(m.memories), [], m.exports, m.start))
    ensures ReadModule(EncodeModule(m, x)) == Ok(ParsedModule(AllRead(m.types, m.functions), ExportMap(m.exports)))
    ensures ReadModule(EncodeModule(m, x)) == Ok(ParsedModule(AllLoaded(m.types, m.functions), ExportMap(m.exports)))
      <==> forall i :: 0 <= i < |m.functions| ==> BodyReadsRight(m.functions[i].body)
  {
    GoodParts(m);
    var sections := AfterHeader(m, x);
    HeaderBack(sections);
    AllSectionsBack(m, x);
    AllReadExactly(m.types, m.functions);
    assert EncodeModule(m, x) == MAGIC + (VERSION + sections);
    hide GoodModule, EncodeModule, AfterHeader, ReadSections, AllLoaded, AllRead, ExportMap, ReadBuilder;
    hide DeclaredIn, ReadIn, BodyReadsRight, GoodSource, DistinctNames, Latest;
  }

  /** With unsigned constants parsing inverts the encoding outright. */
  lemma ParserInvertsUnsigned(m: ModuleSource, x: Extras)
    requires GoodModule(m) && GoodExtras(x)
    requires forall i, j :: 0 <= i < |m.functions| && 0 <= j < |m.functions[i].body| ==> m.functions[i].body[j].Plain?
    ensures forall i :: 0 <= i < |m.functions| ==> GoodSource(m.types, m.functions[i])
    ensures ReadModule(EncodeModule(m, x)) == Ok(ParsedModule(AllLoaded(m.types, m.functions), ExportMap(m.exports)))
  {
    ParserReadsEncoding(m, x);
    assert forall i :: 0 <= i < |m.functions| ==> BodyReadsRight(m.functions[i].body);
    hide GoodModule, ReadModule, EncodeModule, AllLoaded, AllRead, ExportMap, GoodSource;
  }
}
