/** The parser reads exactly the language of the grammar, and reads it as the grammar says: nothing else is
    accepted, and nothing is read as something else. */
module ParserExact {
  import opened Wrappers
  import opened WasmCore
  import Leb128
  import Bits
  import opened ByteStream
  import opened Validator
  import opened ValidatorBounds
  import opened ParserSpec
  import opened ParserProgress
  import opened ParserInvariant
  import opened BinaryGrammar

  /** A reading function and a relation that say the same. */
  ghost predicate Exact<T(!new)>(read: seq<Byte> -> Answer<T>, g: Relation<T>) {
    forall bs, x, rest :: g(bs, x, rest) <==> read(bs) == Ok(Parsed(x, rest))
  }

  // ---------- numbers and lists ----------

  lemma Front(b: Byte, bs: seq<Byte>, rest: seq<Byte>)
    ensures bs == [b] + rest <==> bs != [] && bs[0] == b && bs[1..] == rest
  {
    if bs != [] && bs[0] == b && bs[1..] == rest {
      assert bs == [b] + rest;
    }
  }

  lemma NumberExact(t: Leb128.IntType, m: nat, bs: seq<Byte>, v: nat, rest: seq<Byte>)
    requires t.Valid() && !t.signed && m == Bits.Pow2(t.bits) > 0
    ensures NumberAt(t.Cap(), m, bs, v, rest) <==> Leb128.Decode(t, bs) == Ok(Leb128.Decoded(v, rest))
  {
    hide Bits.Pow2, Leb128.UnsignedValue, Leb128.Continued;
    if NumberAt(t.Cap(), m, bs, v, rest) {
      var e :| bs == e + rest && Leb128.Terminated(e) && |e| <= t.Cap() && v == Leb128.UnsignedValue(e) % m;
      Leb128.DecodeTerminated(t, e, rest);
    }
    var d := Leb128.Decode(t, bs);
    if d == Ok(Leb128.Decoded(v, rest)) {
      var k := Leb128.Continued(bs);
      var e := bs[..k + 1];
      assert bs == e + bs[k + 1..] && Leb128.Terminated(e);
    }
  }

  lemma U32Exact(bs: seq<Byte>, v: nat, rest: seq<Byte>)
    ensures U32At(bs, v, rest) <==> ReadU32(bs).Ok? && ReadU32(bs).value.value == v && ReadU32(bs).value.rest == rest
  {
    Bits.TwoTo32();
    NumberExact(U32_TYPE, 0x1_0000_0000, bs, v, rest);
    hide Leb128.Decode, NumberAt, Bits.Pow2;
  }

  lemma U64Exact(bs: seq<Byte>, v: nat, rest: seq<Byte>)
    ensures U64At(bs, v, rest) <==> ReadU64(bs) == Ok(Parsed(v, rest))
  {
    Bits.TwoTo64();
    NumberExact(U64_TYPE, 0x1_0000_0000_0000_0000, bs, v, rest);
    hide Leb128.Decode, NumberAt, Bits.Pow2;
  }

  lemma IndexExact(size: nat, bs: seq<Byte>, v: nat, rest: seq<Byte>)
    ensures IndexAt(size, bs, v, rest) <==> ReadIndex(size, bs) == Ok(Parsed(v, rest))
  {
    U32Exact(bs, v, rest);
    hide ReadU32, U32At;
  }

  lemma BytesExact(n: nat, bs: seq<Byte>, x: seq<Byte>, rest: seq<Byte>)
    ensures BytesAt(n, bs, x, rest) <==> ReadBytes(n, bs) == Ok(Parsed(x, rest))
  {
    if BytesAt(n, bs, x, rest) {
      assert bs[..n] == x && bs[n..] == rest;
    }
    if n <= |bs| {
      assert bs == bs[..n] + bs[n..];
    }
  }

  lemma {:induction false} ManyExact<T(!new)>(n: nat, bs: seq<Byte>, read: seq<Byte> -> Answer<T>, g: Relation<T>,
                                              xs: seq<T>, rest: seq<Byte>)
    requires Exact(read, g)
    ensures |xs| == n && EachAt(bs, xs, g, rest) <==> Many(n, bs, read) == Ok(Parsed(xs, rest))
    decreases n
  {
    if n > 0 {
      if |xs| == n && EachAt(bs, xs, g, rest) {
        var mid :| g(bs, xs[0], mid) && EachAt(mid, xs[1..], g, rest);
        ManyExact(n - 1, mid, read, g, xs[1..], rest);
        assert [xs[0]] + xs[1..] == xs;
      }
      if Many(n, bs, read) == Ok(Parsed(xs, rest)) {
        var first := read(bs).value;
        assert g(bs, first.value, first.rest);
        assert xs[0] == first.value && xs[1..] == Many(n - 1, first.rest, read).value.value;
        ManyExact(n - 1, first.rest, read, g, xs[1..], rest);
      }
    }
  }

  lemma VectorExact<T(!new)>(max: nat, bs: seq<Byte>, read: seq<Byte> -> Answer<T>, g: Relation<T>, xs: seq<T>,
                             rest: seq<Byte>)
    requires Exact(read, g)
    ensures VectorAt(max, bs, xs, g, rest) <==> Vector(max, bs, read) == Ok(Parsed(xs, rest))
  {
    hide ReadU32, U32At, Exact, EachAt, Many;
    if VectorAt(max, bs, xs, g, rest) {
      var mid :| U32At(bs, |xs|, mid) && EachAt(mid, xs, g, rest);
      U32Exact(bs, |xs|, mid);
      ManyExact(|xs|, mid, read, g, xs, rest);
    }
    if Vector(max, bs, read) == Ok(Parsed(xs, rest)) {
      var n := ReadU32(bs).value;
      U32Exact(bs, n.value, n.rest);
      ManyExact(n.value, n.rest, read, g, xs, rest);
    }
  }

  // ---------- types and descriptions ----------

  lemma ValTypeExact(bs: seq<Byte>, vt: ValType, rest: seq<Byte>)
    ensures ValTypeAt(bs, vt, rest) <==> ReadValType(bs) == Ok(Parsed(vt, rest))
  {
    Front(0x7F, bs, rest);
    Front(0x7E, bs, rest);
    Front(0x7D, bs, rest);
    Front(0x7C, bs, rest);
    Front(0x70, bs, rest);
    Front(0x6F, bs, rest);
  }

  lemma ValTypesExact()
    ensures Exact(ReadValType, ValTypeAt)
  {
    hide ReadValType, ValTypeAt;
    forall bs, x, rest
      ensures ValTypeAt(bs, x, rest) <==> ReadValType(bs) == Ok(Parsed(x, rest))
    {
      ValTypeExact(bs, x, rest);
    }
  }

  lemma SignatureExact(bs: seq<Byte>, s: BlockType, rest: seq<Byte>)
    ensures SignatureAt(bs, s, rest) <==> ReadSignature(bs) == Ok(Parsed(s, rest))
  {
    ValTypesExact();
    hide Vector, VectorAt, Exact, ReadValType, ValTypeAt;
    if SignatureAt(bs, s, rest) {
      var m0, m1 :|
        bs == [0x60] + m0 && VectorAt(6, m0, s.params, ValTypeAt, m1) && VectorAt(1, m1, s.results, ValTypeAt, rest);
      Front(0x60, bs, m0);
      VectorExact(6, m0, ReadValType, ValTypeAt, s.params, m1);
      VectorExact(1, m1, ReadValType, ValTypeAt, s.results, rest);
    }
    if ReadSignature(bs) == Ok(Parsed(s, rest)) {
      var params := Vector(6, bs[1..], ReadValType).value;
      Front(0x60, bs, bs[1..]);
      VectorExact(6, bs[1..], ReadValType, ValTypeAt, s.params, params.rest);
      VectorExact(1, params.rest, ReadValType, ValTypeAt, s.results, rest);
    }
  }

  lemma NameExact(bs: seq<Byte>, name: seq<Byte>, rest: seq<Byte>)
    ensures NameAt(bs, name, rest) <==> ReadName(bs) == Ok(Parsed(name, rest))
  {
    hide ReadU32, U32At;
    U32Exact(bs, |name|, name + rest);
    if NameAt(bs, name, rest) {
      BytesExact(|name|, name + rest, name, rest);
    }
    if ReadName(bs) == Ok(Parsed(name, rest)) {
      BytesExact(|name|, ReadU32(bs).value.rest, name, rest);
    }
  }

  lemma LimitsExact(bs: seq<Byte>, l: Limits, rest: seq<Byte>)
    ensures LimitsAt(bs, l, rest) <==> ReadLimits(bs) == Ok(Parsed(l, rest))
  {
    hide ReadU32, U32At;
    if LimitsAt(bs, l, rest) {
      var m0, m1 :|
        && bs != [] && m0 == bs[1..] && U32At(m0, l.min, m1)
        && (if bs[0] == 0 then l.max == 0xFFFF_FFFF && m1 == rest else U32At(m1, l.max, rest));
      U32Exact(m0, l.min, m1);
      U32Exact(m1, l.max, rest);
    }
    if ReadLimits(bs) == Ok(Parsed(l, rest)) {
      var min := ReadU32(bs[1..]).value;
      U32Exact(bs[1..], l.min, min.rest);
      U32Exact(min.rest, l.max, rest);
    }
  }

  lemma TableTypeExact(bs: seq<Byte>, t: TableType, rest: seq<Byte>)
    ensures TableTypeAt(bs, t, rest) <==> ReadTableType(bs) == Ok(Parsed(t, rest))
  {
    hide ReadValType, ValTypeAt, ReadLimits, LimitsAt;
    if TableTypeAt(bs, t, rest) {
      var m0 :| ValTypeAt(bs, t.reftype, m0) && LimitsAt(m0, t.limits, rest);
      ValTypeExact(bs, t.reftype, m0);
      LimitsExact(m0, t.limits, rest);
    }
    if ReadTableType(bs) == Ok(Parsed(t, rest)) {
      var m0 := ReadValType(bs).value.rest;
      ValTypeExact(bs, t.reftype, m0);
      LimitsExact(m0, t.limits, rest);
    }
  }

  lemma GlobalTypeExact(bs: seq<Byte>, g: GlobalType, rest: seq<Byte>)
    ensures GlobalTypeAt(bs, g, rest) <==> ReadGlobalType(bs) == Ok(Parsed(g, rest))
  {
    hide ReadValType, ValTypeAt;
    if GlobalTypeAt(bs, g, rest) {
      var m0 :| ValTypeAt(bs, g.valtype, m0) && m0 != [] && (g.mutable <==> m0[0] != 0) && rest == m0[1..];
      ValTypeExact(bs, g.valtype, m0);
    }
    if ReadGlobalType(bs) == Ok(Parsed(g, rest)) {
      ValTypeExact(bs, g.valtype, ReadValType(bs).value.rest);
    }
  }

  lemma ConstantExact(bs: seq<Byte>, c: Constant, rest: seq<Byte>)
    ensures ConstantAt(bs, c, rest) <==> ReadConstExpr(bs) == Ok(Parsed(c, rest))
  {
    hide ReadU32, U32At, ReadU64, U64At, BytesAt, ReadBytes;
    if bs != [] {
      match c
      case U32(v) => U32Exact(bs[1..], v, rest);
      case U64(v) => U64Exact(bs[1..], v, rest);
      case Float(x) =>
        BytesExact(4, bs[1..], x, rest);
        BytesExact(8, bs[1..], x, rest);
    }
  }

  lemma GlobalExact(bs: seq<Byte>, g: Global, rest: seq<Byte>)
    ensures GlobalAt(bs, g, rest) <==> ReadGlobal(bs) == Ok(Parsed(g, rest))
  {
    hide ReadGlobalType, GlobalTypeAt, ReadConstExpr, ConstantAt;
    if GlobalAt(bs, g, rest) {
      var m0 :| GlobalTypeAt(bs, g.globalType, m0) && ConstantAt(m0, g.value, rest);
      GlobalTypeExact(bs, g.globalType, m0);
      ConstantExact(m0, g.value, rest);
    }
    if ReadGlobal(bs) == Ok(Parsed(g, rest)) {
      var m0 := ReadGlobalType(bs).value.rest;
      GlobalTypeExact(bs, g.globalType, m0);
      ConstantExact(m0, g.value, rest);
    }
  }

  lemma DescriptionExact(signatures: nat, bs: seq<Byte>, d: Description, rest: seq<Byte>)
    ensures DescriptionAt(signatures, bs, d, rest) <==> ReadDescription(signatures, bs) == Ok(Parsed(d, rest))
  {
    hide ReadIndex, IndexAt, ReadTableType, TableTypeAt, ReadLimits, LimitsAt, ReadGlobalType, GlobalTypeAt;
    if bs != [] {
      match d
      case ImportedFunction(i) => IndexExact(signatures, bs[1..], i, rest);
      case ImportedTable(t) => TableTypeExact(bs[1..], t, rest);
      case ImportedMemory(l) => LimitsExact(bs[1..], l, rest);
      case ImportedGlobal(g) => GlobalTypeExact(bs[1..], g, rest);
    }
  }

  lemma ImportExact(signatures: nat, bs: seq<Byte>, i: Import, rest: seq<Byte>)
    ensures ImportAt(signatures, bs, i, rest) <==> ReadImport(signatures, bs) == Ok(Parsed(i, rest))
  {
    hide ReadName, NameAt, ReadDescription, DescriptionAt;
    if ImportAt(signatures, bs, i, rest) {
      var m0, m1 :|
        NameAt(bs, i.moduleName, m0) && NameAt(m0, i.name, m1) && DescriptionAt(signatures, m1, i.description, rest);
      NameExact(bs, i.moduleName, m0);
      NameExact(m0, i.name, m1);
      DescriptionExact(signatures, m1, i.description, rest);
    }
    if ReadImport(signatures, bs) == Ok(Parsed(i, rest)) {
      var m0 := ReadName(bs).value.rest;
      var m1 := ReadName(m0).value.rest;
      NameExact(bs, i.moduleName, m0);
      NameExact(m0, i.name, m1);
      DescriptionExact(signatures, m1, i.description, rest);
    }
  }

  lemma DeclarationExact(signatures: seq<BlockType>, bs: seq<Byte>, f: Function, rest: seq<Byte>)
    ensures DeclarationAt(signatures, bs, f, rest) <==> ReadDeclaration(signatures, bs) == Ok(Parsed(f, rest))
  {
    hide ReadIndex, U32At;
    if DeclarationAt(signatures, bs, f, rest) {
      var i: nat :|
        i < |signatures| && IndexAt(|signatures|, bs, i, rest) && f == Function(Metadata(signatures[i], [], 0, 0), []);
      IndexExact(|signatures|, bs, i, rest);
    }
    if ReadDeclaration(signatures, bs) == Ok(Parsed(f, rest)) {
      IndexExact(|signatures|, bs, ReadIndex(|signatures|, bs).value.value, rest);
    }
  }

  lemma ItemExact(s: Spaces, bs: seq<Byte>, item: Item, rest: seq<Byte>)
    ensures ItemAt(s, bs, item, rest) <==> ReadItem(s, bs) == Ok(Parsed(item, rest))
  {
    hide ReadIndex, IndexAt;
    if bs != [] {
      match item
      case FuncItem(i) => IndexExact(s.functions, bs[1..], i, rest);
      case TableItem(i) => IndexExact(s.tables, bs[1..], i, rest);
      case MemoryItem(i) => IndexExact(s.memories, bs[1..], i, rest);
      case GlobalItem(i) => IndexExact(s.globals, bs[1..], i, rest);
    }
  }

  lemma ExportExact(s: Spaces, bs: seq<Byte>, e: Export, rest: seq<Byte>)
    ensures ExportAt(s, bs, e, rest) <==> ReadExport(s, bs) == Ok(Parsed(e, rest))
  {
    hide ReadName, NameAt, ReadItem, ItemAt;
    if ExportAt(s, bs, e, rest) {
      var m0 :| NameAt(bs, e.name, m0) && ItemAt(s, m0, e.item, rest);
      NameExact(bs, e.name, m0);
      ItemExact(s, m0, e.item, rest);
    }
    if ReadExport(s, bs) == Ok(Parsed(e, rest)) {
      var m0 := ReadName(bs).value.rest;
      NameExact(bs, e.name, m0);
      ItemExact(s, m0, e.item, rest);
    }
  }

  // ---------- functions ----------

  lemma InstructionExact(bs: seq<Byte>, ops: seq<Op>, rest: seq<Byte>)
    ensures InstructionAt(bs, ops, rest) <==> bs != [] && ReadOpcode(bs[0], bs[1..]) == Ok(Parsed(ops, rest))
  {
    hide ReadU32, U32At;
    if bs != [] && |ops| == 1 {
      assert ops == [ops[0]];
      match ops[0]
      case GetLocalI32(i) => U32Exact(bs[1..], i, rest);
      case SetLocalI32(i) => U32Exact(bs[1..], i, rest);
      case ConstI32(v) => U32Exact(bs[1..], v, rest);
      case _ =>
    }
  }

  /** Any other first byte is refused, the end opcode apart. */
  lemma OtherOpcodesRefused(c: Context, v: VState, bs: seq<Byte>)
    requires bs != [] && bs[0] !in {0x04, 0x05, 0x0B, 0x0F, 0x20, 0x21, 0x41, 0x6A}
    ensures ReadExpression(c, v, bs) == Err(ParseError)
  {
  }

  lemma EndExact(c: Context, v: VState, bs: seq<Byte>)
    requires bs != [] && bs[0] == 0x0B
    ensures ReadExpression(c, v, bs)
         == (var f := Finalize(c, v); if f.None? then Err(ValidationError) else Ok(Parsed(Body([], f.value), bs[1..])))
  {
  }

  /** One instruction, and the rest. */
  lemma NextExact(c: Context, v: VState, bs: seq<Byte>, ops: seq<Op>, mid: seq<Byte>)
    requires InstructionAt(bs, ops, mid)
    ensures |mid| < |bs|
    ensures ReadExpression(c, v, bs)
         == (var v' := VisitAll(c, v, ops);
             if v'.None? then Err(ValidationError)
             else
               var more := ReadExpression(c, v'.value, mid);
               if more.Err? then more
               else Ok(Parsed(Body(ops + more.value.value.ops, more.value.value.state), more.value.rest)))
  {
    InstructionExact(bs, ops, mid);
    assert bs[0] != 0x0B;
    hide ReadOpcode, VisitAll, InstructionAt;
  }

  lemma {:induction false} ExpressionSound(c: Context, v: VState, bs: seq<Byte>) returns (groups: seq<seq<Op>>)
    requires ReadExpression(c, v, bs).Ok?
    ensures var r := ReadExpression(c, v, bs).value;
      && Flat(groups) == r.value.ops && EachAt(bs, groups, InstructionAt, [0x0B] + r.rest)
      && VisitAll(c, v, r.value.ops).Some?
      && Finalize(c, VisitAll(c, v, r.value.ops).value) == Some(r.value.state)
    decreases |bs|
  {
    if bs[0] == 0x0B {
      groups := [];
      EndExact(c, v, bs);
      Front(0x0B, bs, bs[1..]);
      assert VisitAll(c, v, []) == Some(v);
      hide Finalize, InstructionAt;
    } else {
      var next := ReadOpcode(bs[0], bs[1..]).value;
      InstructionExact(bs, next.value, next.rest);
      NextExact(c, v, bs, next.value, next.rest);
      hide InstructionAt, ReadOpcode, Finalize, ReadExpression, Visit;
      var tail := ExpressionSound(c, VisitAll(c, v, next.value).value, next.rest);
      groups := [next.value] + tail;
      assert groups[1..] == tail;
      VisitAllAppend(c, v, next.value, Flat(tail));
    }
  }

  lemma {:induction false} ExpressionComplete(c: Context, v: VState, bs: seq<Byte>, groups: seq<seq<Op>>,
                                              rest: seq<Byte>)
    requires EachAt(bs, groups, InstructionAt, [0x0B] + rest)
    requires VisitAll(c, v, Flat(groups)).Some? && Finalize(c, VisitAll(c, v, Flat(groups)).value).Some?
    ensures ReadExpression(c, v, bs)
         == Ok(Parsed(Body(Flat(groups), Finalize(c, VisitAll(c, v, Flat(groups)).value).value), rest))
    decreases |groups|
  {
    if groups == [] {
      EndExact(c, v, bs);
      assert ([0x0B] + rest)[1..] == rest && VisitAll(c, v, []) == Some(v);
    } else {
      var mid :| InstructionAt(bs, groups[0], mid) && EachAt(mid, groups[1..], InstructionAt, [0x0B] + rest);
      NextExact(c, v, bs, groups[0], mid);
      VisitAllAppend(c, v, groups[0], Flat(groups[1..]));
      hide InstructionAt, Finalize, ReadExpression, Visit, VisitAll, EachAt;
      ExpressionComplete(c, VisitAll(c, v, groups[0]).value, mid, groups[1..], rest);
    }
  }

  /** An expression is read if and only if it is spelled by instructions of the grammar, up to an end opcode, that
      the validator accepts; and it is read as these instructions, with the validator's final state. */
  lemma ExpressionExact(c: Context, v: VState, bs: seq<Byte>, body: Body, rest: seq<Byte>)
    ensures ExpressionAt(c, v, bs, body, rest) <==> ReadExpression(c, v, bs) == Ok(Parsed(body, rest))
  {
    hide ReadExpression, Finalize, VisitAll, EachAt, InstructionAt;
    if ExpressionAt(c, v, bs, body, rest) {
      var groups :| Flat(groups) == body.ops && EachAt(bs, groups, InstructionAt, [0x0B] + rest);
      ExpressionComplete(c, v, bs, groups, rest);
    }
    if ReadExpression(c, v, bs) == Ok(Parsed(body, rest)) {
      var groups := ExpressionSound(c, v, bs);
    }
  }

  lemma GroupExact(bs: seq<Byte>, g: Group, rest: seq<Byte>)
    ensures GroupAt(bs, g, rest) <==>
      && ReadU32(bs).Ok? && ReadU32(bs).value.value == g.count
      && ReadValType(ReadU32(bs).value.rest) == Ok(Parsed(g.vt, rest))
  {
    hide ReadU32, U32At, ReadValType, ValTypeAt;
    if GroupAt(bs, g, rest) {
      var m0 :| U32At(bs, g.count, m0) && ValTypeAt(m0, g.vt, rest);
      U32Exact(bs, g.count, m0);
      ValTypeExact(m0, g.vt, rest);
    }
    if ReadU32(bs).Ok? {
      var m0 := ReadU32(bs).value;
      U32Exact(bs, m0.value, m0.rest);
      ValTypeExact(m0.rest, g.vt, rest);
    }
  }

  lemma {:induction false} LocalsSound(n: nat, locals: seq<ValType>, bs: seq<Byte>) returns (groups: seq<Group>)
    requires ReadLocals(n, locals, bs).Ok? && |locals| <= 256
    ensures var r := ReadLocals(n, locals, bs).value;
      && |groups| == n && EachAt(bs, groups, GroupAt, r.rest)
      && r.value == locals + Expand(groups) && |r.value| <= 256
    decreases n
  {
    hide ReadU32, ReadValType, GroupAt;
    if n == 0 {
      groups := [];
      assert locals + [] == locals;
    } else {
      var count := ReadU32(bs).value;
      var vt := ReadValType(count.rest).value;
      var g := Group(count.value, vt.value);
      GroupExact(bs, g, vt.rest);
      var run := seq(g.count, _ => g.vt);
      assert seq(count.value, _ => vt.value) == run;
      var tail := LocalsSound(n - 1, locals + run, vt.rest);
      groups := [g] + tail;
      assert groups[1..] == tail && locals + run + Expand(tail) == locals + (run + Expand(tail));
    }
  }

  lemma {:induction false} LocalsComplete(locals: seq<ValType>, bs: seq<Byte>, groups: seq<Group>, rest: seq<Byte>)
    requires EachAt(bs, groups, GroupAt, rest) && |locals| + |Expand(groups)| <= 256
    ensures ReadLocals(|groups|, locals, bs) == Ok(Parsed(locals + Expand(groups), rest))
    decreases |groups|
  {
    hide ReadU32, ReadValType, GroupAt;
    if groups == [] {
      assert locals + [] == locals;
    } else {
      var g := groups[0];
      var mid :| GroupAt(bs, g, mid) && EachAt(mid, groups[1..], GroupAt, rest);
      GroupExact(bs, g, mid);
      var run := seq(g.count, _ => g.vt);
      assert seq(ReadU32(bs).value.value, _ => ReadValType(ReadU32(bs).value.rest).value.value) == run;
      LocalsComplete(locals + run, mid, groups[1..], rest);
      assert locals + run + Expand(groups[1..]) == locals + (run + Expand(groups[1..]));
    }
  }

  lemma LocalsExact(n: nat, bs: seq<Byte>, locals: seq<ValType>, rest: seq<Byte>)
    ensures LocalsAt(n, bs, locals, rest) <==> ReadLocals(n, [], bs) == Ok(Parsed(locals, rest))
  {
    hide ReadLocals, EachAt, GroupAt;
    if LocalsAt(n, bs, locals, rest) {
      var groups :| |groups| == n && Expand(groups) == locals && EachAt(bs, groups, GroupAt, rest);
      LocalsComplete([], bs, groups, rest);
      assert [] + locals == locals;
    }
    if ReadLocals(n, [], bs) == Ok(Parsed(locals, rest)) {
      var groups := LocalsSound(n, [], bs);
      assert [] + Expand(groups) == Expand(groups);
    }
  }

  lemma CodeExact(d: Function, bs: seq<Byte>, f: Function, rest: seq<Byte>)
    requires d.meta.locals == []
    ensures CodeAt(d.meta.signature, bs, f, rest) <==> ReadCode(d, bs) == Ok(Parsed(f, rest))
  {
    if CodeAt(d.meta.signature, bs, f, rest) {
      CodeComplete(d, bs, f, rest);
    }
    if ReadCode(d, bs) == Ok(Parsed(f, rest)) {
      CodeSound(d, bs, f, rest);
    }
  }

  lemma CodeComplete(d: Function, bs: seq<Byte>, f: Function, rest: seq<Byte>)
    requires d.meta.locals == [] && CodeAt(d.meta.signature, bs, f, rest)
    ensures ReadCode(d, bs) == Ok(Parsed(f, rest))
  {
    hide ReadU32, U32At, ReadLocals, LocalsAt, ReadExpression, ExpressionAt;
    var s := d.meta.signature;
    var m0, m1, m2, n: nat, state :|
      && |m0| >= |rest| && U32At(bs, |m0| - |rest|, m0) && U32At(m0, n, m1) && LocalsAt(n, m1, f.meta.locals, m2)
      && ExpressionAt(Context(s.params + f.meta.locals, s.results), START, m2, Body(f.body, state), rest)
      && f.meta.signature == s
      && f.meta.maxStackBytes == state.maxUsage % 0x1_0000_0000
      && f.meta.maxStackElements == state.maxElements % 0x1_0000_0000;
    U32Exact(bs, |m0| - |rest|, m0);
    U32Exact(m0, n, m1);
    LocalsExact(n, m1, f.meta.locals, m2);
    ExpressionExact(ContextOf(s, f.meta.locals), START, m2, Body(f.body, state), rest);
  }

  lemma CodeSound(d: Function, bs: seq<Byte>, f: Function, rest: seq<Byte>)
    requires d.meta.locals == [] && ReadCode(d, bs) == Ok(Parsed(f, rest))
    ensures CodeAt(d.meta.signature, bs, f, rest)
  {
    hide ReadU32, U32At, ReadLocals, LocalsAt, ReadExpression, ExpressionAt;
    var s := d.meta.signature;
    var size := ReadU32(bs).value;
    var n := ReadU32(size.rest).value;
    var locals := ReadLocals(n.value, [], n.rest).value;
    var c := ContextOf(s, locals.value);
    var body := ReadExpression(c, START, locals.rest).value;
    U32Exact(bs, size.value, size.rest);
    U32Exact(size.rest, n.value, n.rest);
    LocalsExact(n.value, n.rest, locals.value, locals.rest);
    ExpressionExact(c, START, locals.rest, body.value, rest);
    assert body.value == Body(f.body, body.value.state);
  }

  predicate NoLocals(fs: seq<Function>) {
    forall i :: 0 <= i < |fs| ==> fs[i].meta.locals == []
  }

  lemma {:induction false} CodesExact(declared: seq<Function>, bs: seq<Byte>, fs: seq<Function>, rest: seq<Byte>)
    requires NoLocals(declared)
    ensures CodesAt(declared, bs, fs, rest) <==> ReadCodes(declared, bs) == Ok(Parsed(fs, rest))
    decreases |declared|
  {
    hide ReadCode, CodeAt;
    if declared != [] {
      var s := declared[0].meta.signature;
      if CodesAt(declared, bs, fs, rest) {
        var mid :| CodeAt(s, bs, fs[0], mid) && CodesAt(declared[1..], mid, fs[1..], rest);
        CodeExact(declared[0], bs, fs[0], mid);
        CodesExact(declared[1..], mid, fs[1..], rest);
        assert [fs[0]] + fs[1..] == fs;
      }
      if ReadCodes(declared, bs) == Ok(Parsed(fs, rest)) {
        var f := ReadCode(declared[0], bs).value;
        CodeExact(declared[0], bs, f.value, f.rest);
        assert fs[0] == f.value && fs[1..] == ReadCodes(declared[1..], f.rest).value.value;
        CodesExact(declared[1..], f.rest, fs[1..], rest);
      }
    }
  }

  // ---------- exports ----------

  /** The list grows only by names it does not have. */
  lemma {:induction false} ExportsExact(s: Spaces, n: nat, seen: seq<Export>, bs: seq<Byte>, es: seq<Export>,
                                        rest: seq<Byte>)
    requires DistinctNames(seen)
    ensures |es| == n && DistinctNames(seen + es) && EachAt(bs, es, (c, x, r) => ExportAt(s, c, x, r), rest)
      <==> ReadExports(s, n, seen, bs) == Ok(Parsed(seen + es, rest)) && |es| == n
    decreases n
  {
    var g: Relation<Export> := (c, x, r) => ExportAt(s, c, x, r);
    hide ReadExport, ExportAt;
    if n == 0 {
      if es == [] {
        assert seen + es == seen;
      }
    } else if es != [] {
      SnocNames(seen, es);
      if EachAt(bs, es, g, rest) {
        var mid :| g(bs, es[0], mid) && EachAt(mid, es[1..], g, rest);
        ExportExact(s, bs, es[0], mid);
        if DistinctNames(seen + es) && |es| == n {
          ExportsExact(s, n - 1, seen + [es[0]], mid, es[1..], rest);
        }
      }
      if ReadExports(s, n, seen, bs) == Ok(Parsed(seen + es, rest)) && |es| == n {
        var e := ReadExport(s, bs).value;
        ExportExact(s, bs, e.value, e.rest);
        ExportsGrow(s, n - 1, seen + [e.value], e.rest);
        assert (seen + es)[|seen|] == e.value;
        assert es[0] == e.value;
        ExportsExact(s, n - 1, seen + [es[0]], e.rest, es[1..], rest);
        assert g(bs, es[0], e.rest);
      }
    }
  }

  lemma SnocNames(seen: seq<Export>, es: seq<Export>)
    requires es != [] && DistinctNames(seen)
    ensures seen + [es[0]] + es[1..] == seen + es
    ensures DistinctNames(seen + [es[0]]) <==> !HasName(seen, es[0].name)
    ensures DistinctNames(seen + es) ==> DistinctNames(seen + [es[0]])
  {
    assert seen + [es[0]] + es[1..] == seen + es;
    var all, one := seen + es, seen + [es[0]];
    assert forall i :: 0 <= i <= |seen| ==> one[i] == all[i];
    assert forall i :: 0 <= i < |seen| ==> one[i] == seen[i];
    assert one[|seen|] == es[0];
  }

  lemma {:induction false} ExportsGrow(s: Spaces, n: nat, seen: seq<Export>, bs: seq<Byte>)
    ensures var r := ReadExports(s, n, seen, bs); r.Ok? ==> seen <= r.value.value && |r.value.value| == |seen| + n
    decreases n
  {
    hide ReadExport;
    if n > 0 && ReadExport(s, bs).Ok? {
      var e := ReadExport(s, bs).value;
      ExportsGrow(s, n - 1, seen + [e.value], e.rest);
    }
  }

  // ---------- sections and modules ----------

  lemma SignaturesSectionExact(size: nat, b: Builder, bs: seq<Byte>, b': Builder, rest: seq<Byte>)
    ensures ContentsAt(1, size, b, bs, b', rest) <==> ReadContents(1, size, b, bs) == Ok(Parsed(b', rest))
  {
    hide ReadSignature, SignatureAt, Vector, VectorAt;
    forall c, x, r
      ensures SignatureAt(c, x, r) <==> ReadSignature(c) == Ok(Parsed(x, r))
    {
      SignatureExact(c, x, r);
    }
    forall xs
      ensures VectorAt(0x2_0000, bs, xs, SignatureAt, rest) <==>
        Vector(0x2_0000, bs, ReadSignature) == Ok(Parsed(xs, rest))
    {
      VectorExact(0x2_0000, bs, ReadSignature, SignatureAt, xs, rest);
    }
  }

  lemma ImportsSectionExact(size: nat, b: Builder, bs: seq<Byte>, b': Builder, rest: seq<Byte>)
    ensures ContentsAt(2, size, b, bs, b', rest) <==> ReadContents(2, size, b, bs) == Ok(Parsed(b', rest))
  {
    hide ReadImport, ImportAt, Vector, VectorAt;
    var g: Relation<Import> := (c, x, r) => ImportAt(|b.signatures|, c, x, r);
    forall c, x, r
      ensures g(c, x, r) <==> Imports(|b.signatures|)(c) == Ok(Parsed(x, r))
    {
      ImportExact(|b.signatures|, c, x, r);
    }
    forall xs
      ensures VectorAt(0x100, bs, xs, g, rest) <==> Vector(0x100, bs, Imports(|b.signatures|)) == Ok(Parsed(xs, rest))
    {
      VectorExact(0x100, bs, Imports(|b.signatures|), g, xs, rest);
    }
  }

  lemma FunctionsSectionExact(size: nat, b: Builder, bs: seq<Byte>, b': Builder, rest: seq<Byte>)
    ensures ContentsAt(3, size, b, bs, b', rest) <==> ReadContents(3, size, b, bs) == Ok(Parsed(b', rest))
  {
    hide ReadDeclaration, DeclarationAt, Vector, VectorAt;
    var g: Relation<Function> := (c, x, r) => DeclarationAt(b.signatures, c, x, r);
    forall c, x, r
      ensures g(c, x, r) <==> Declarations(b.signatures)(c) == Ok(Parsed(x, r))
    {
      DeclarationExact(b.signatures, c, x, r);
    }
    forall xs
      ensures VectorAt(0x1_0000, bs, xs, g, rest) <==>
        Vector(0x1_0000, bs, Declarations(b.signatures)) == Ok(Parsed(xs, rest))
    {
      VectorExact(0x1_0000, bs, Declarations(b.signatures), g, xs, rest);
    }
  }

  lemma TablesSectionExact(size: nat, b: Builder, bs: seq<Byte>, b': Builder, rest: seq<Byte>)
    ensures ContentsAt(4, size, b, bs, b', rest) <==> ReadContents(4, size, b, bs) == Ok(Parsed(b', rest))
  {
    hide ReadTableType, TableTypeAt, Vector, VectorAt;
    forall c, x, r
      ensures TableTypeAt(c, x, r) <==> ReadTableType(c) == Ok(Parsed(x, r))
    {
      TableTypeExact(c, x, r);
    }
    forall xs
      ensures VectorAt(0x10, bs, xs, TableTypeAt, rest) <==> Vector(0x10, bs, ReadTableType) == Ok(Parsed(xs, rest))
    {
      VectorExact(0x10, bs, ReadTableType, TableTypeAt, xs, rest);
    }
  }

  lemma MemoriesSectionExact(size: nat, b: Builder, bs: seq<Byte>, b': Builder, rest: seq<Byte>)
    ensures ContentsAt(5, size, b, bs, b', rest) <==> ReadContents(5, size, b, bs) == Ok(Parsed(b', rest))
  {
    hide ReadLimits, LimitsAt, Vector, VectorAt;
    forall c, x, r
      ensures LimitsAt(c, x, r) <==> ReadLimits(c) == Ok(Parsed(x, r))
    {
      LimitsExact(c, x, r);
    }
    forall xs
      ensures VectorAt(1, bs, xs, LimitsAt, rest) <==> Vector(1, bs, ReadLimits) == Ok(Parsed(xs, rest))
    {
      VectorExact(1, bs, ReadLimits, LimitsAt, xs, rest);
    }
  }

  lemma GlobalsSectionExact(size: nat, b: Builder, bs: seq<Byte>, b': Builder, rest: seq<Byte>)
    ensures ContentsAt(6, size, b, bs, b', rest) <==> ReadContents(6, size, b, bs) == Ok(Parsed(b', rest))
  {
    hide ReadGlobal, GlobalAt, Vector, VectorAt;
    forall c, x, r
      ensures GlobalAt(c, x, r) <==> ReadGlobal(c) == Ok(Parsed(x, r))
    {
      GlobalExact(c, x, r);
    }
    forall xs
      ensures VectorAt(0x400, bs, xs, GlobalAt, rest) <==> Vector(0x400, bs, ReadGlobal) == Ok(Parsed(xs, rest))
    {
      VectorExact(0x400, bs, ReadGlobal, GlobalAt, xs, rest);
    }
  }

  lemma ExportsVectorExact(s: Spaces, bs: seq<Byte>, es: seq<Export>, rest: seq<Byte>)
    ensures DistinctNames(es) && VectorAt(0x100, bs, es, (c, x, r) => ExportAt(s, c, x, r), rest) <==>
      && ReadU32(bs).Ok? && ReadU32(bs).value.value <= 0x100
      && ReadExports(s, ReadU32(bs).value.value, [], ReadU32(bs).value.rest) == Ok(Parsed(es, rest))
  {
    var g: Relation<Export> := (c, x, r) => ExportAt(s, c, x, r);
    hide ReadU32, U32At, ReadExports, ExportAt, EachAt;
    assert [] + es == es && DistinctNames([]);
    if VectorAt(0x100, bs, es, g, rest) && DistinctNames(es) {
      var mid :| U32At(bs, |es|, mid) && EachAt(mid, es, g, rest);
      U32Exact(bs, |es|, mid);
      ExportsExact(s, |es|, [], mid, es, rest);
    }
    if ReadU32(bs).Ok? && ReadU32(bs).value.value <= 0x100 {
      var n := ReadU32(bs).value;
      U32Exact(bs, n.value, n.rest);
      ExportsExact(s, n.value, [], n.rest, es, rest);
      ExportsGrow(s, n.value, [], n.rest);
    }
  }

  lemma ExportsSectionExact(size: nat, b: Builder, bs: seq<Byte>, b': Builder, rest: seq<Byte>)
    ensures ContentsAt(7, size, b, bs, b', rest) <==> ReadContents(7, size, b, bs) == Ok(Parsed(b', rest))
  {
    hide ReadU32, ReadExports, ExportAt, VectorAt, DistinctNames;
    var s := SpacesOf(b);
    var g: Relation<Export> := (c, x, r) => ExportAt(s, c, x, r);
    forall xs
      ensures DistinctNames(xs) && VectorAt(0x100, bs, xs, g, rest) <==>
        && ReadU32(bs).Ok? && ReadU32(bs).value.value <= 0x100
        && ReadExports(s, ReadU32(bs).value.value, [], ReadU32(bs).value.rest) == Ok(Parsed(xs, rest))
    {
      ExportsVectorExact(s, bs, xs, rest);
    }
  }

  lemma StartSectionExact(size: nat, b: Builder, bs: seq<Byte>, b': Builder, rest: seq<Byte>)
    ensures ContentsAt(8, size, b, bs, b', rest) <==> ReadContents(8, size, b, bs) == Ok(Parsed(b', rest))
  {
    hide ReadIndex, IndexAt;
    forall i: nat
      ensures IndexAt(|b.functions|, bs, i, rest) <==> ReadIndex(|b.functions|, bs) == Ok(Parsed(i, rest))
    {
      IndexExact(|b.functions|, bs, i, rest);
    }
  }

  lemma CodeSectionExact(size: nat, b: Builder, bs: seq<Byte>, b': Builder, rest: seq<Byte>)
    requires NoLocals(b.functions)
    ensures ContentsAt(10, size, b, bs, b', rest) <==> ReadContents(10, size, b, bs) == Ok(Parsed(b', rest))
  {
    hide ReadU32, U32At, ReadCodes, CodesAt;
    forall m0
      ensures U32At(bs, |b.functions|, m0) <==>
        ReadU32(bs).Ok? && ReadU32(bs).value.value == |b.functions| && ReadU32(bs).value.rest == m0
    {
      U32Exact(bs, |b.functions|, m0);
    }
    forall m0, fs
      ensures CodesAt(b.functions, m0, fs, rest) <==> ReadCodes(b.functions, m0) == Ok(Parsed(fs, rest))
    {
      CodesExact(b.functions, m0, fs, rest);
    }
  }

  lemma CustomExact(size: nat, b: Builder, bs: seq<Byte>, b': Builder, rest: seq<Byte>)
    ensures ContentsAt(0, size, b, bs, b', rest) <==> ReadContents(0, size, b, bs) == Ok(Parsed(b', rest))
  {
    if ContentsAt(0, size, b, bs, b', rest) {
      var skipped :| |skipped| == size && bs == skipped + rest;
      BytesExact(size, bs, skipped, rest);
    }
    if ReadContents(0, size, b, bs) == Ok(Parsed(b', rest)) {
      BytesExact(size, bs, bs[..size], rest);
    }
  }

  lemma ContentsExact(id: Byte, size: nat, b: Builder, bs: seq<Byte>, b': Builder, rest: seq<Byte>)
    requires id == 10 ==> NoLocals(b.functions)
    ensures ContentsAt(id, size, b, bs, b', rest) <==> ReadContents(id, size, b, bs) == Ok(Parsed(b', rest))
  {
    match id
    case 0 => CustomExact(size, b, bs, b', rest);
    case 1 => SignaturesSectionExact(size, b, bs, b', rest);
    case 2 => ImportsSectionExact(size, b, bs, b', rest);
    case 3 => FunctionsSectionExact(size, b, bs, b', rest);
    case 4 => TablesSectionExact(size, b, bs, b', rest);
    case 5 => MemoriesSectionExact(size, b, bs, b', rest);
    case 6 => GlobalsSectionExact(size, b, bs, b', rest);
    case 7 => ExportsSectionExact(size, b, bs, b', rest);
    case 8 => StartSectionExact(size, b, bs, b', rest);
    case 10 => CodeSectionExact(size, b, bs, b', rest);
    case _ =>
  }

  lemma SectionExact(b: Builder, bs: seq<Byte>, b': Builder, rest: seq<Byte>)
    requires b.latest < 10 ==> NoLocals(b.functions)
    ensures SectionAt(b, bs, b', rest) <==> ReadSection(b, bs) == Ok(Parsed(b', rest))
  {
    hide ReadU32, U32At, ReadContents, ContentsAt, NoLocals;
    if SectionAt(b, bs, b', rest) {
      var m0, size: nat :|
        && bs != [] && (bs[0] == 0 || bs[0] > b.latest) && U32At(bs[1..], size, m0)
        && ContentsAt(bs[0], size, if bs[0] == 0 then b else b.(latest := bs[0]), m0, b', rest);
      U32Exact(bs[1..], size, m0);
      ContentsExact(bs[0], size, if bs[0] == 0 then b else b.(latest := bs[0]), m0, b', rest);
    }
    if ReadSection(b, bs) == Ok(Parsed(b', rest)) {
      var size := ReadU32(bs[1..]).value;
      U32Exact(bs[1..], size.value, size.rest);
      ContentsExact(bs[0], size.value, if bs[0] == 0 then b else b.(latest := bs[0]), size.rest, b', rest);
    }
  }

  /** Until the code section has been read the functions are only declared. */
  lemma DeclaredOnly(b: Builder)
    requires BuilderInv(b) && b.latest < 10
    ensures NoLocals(b.functions)
  {
    hide Limited, LimitedSignatures, GoodExports, GoodImports, Accepted, Unfilled, Bounded;
  }

  lemma {:induction false} SectionsExact(b: Builder, bs: seq<Byte>, b': Builder)
    requires BuilderInv(b)
    ensures SectionsAt(b, bs, b') <==> ReadSections(b, bs) == Ok(b')
    decreases |bs|
  {
    hide ReadSection, SectionAt, BuilderInv, NoLocals;
    if b.latest < 10 {
      DeclaredOnly(b);
    }
    if bs != [] {
      if SectionsAt(b, bs, b') {
        var m: Builder, mid: seq<Byte> :| |mid| < |bs| && SectionAt(b, bs, m, mid) && SectionsAt(m, mid, b');
        SectionExact(b, bs, m, mid);
        SectionKeepsInv(b, bs);
        SectionsExact(m, mid, b');
      }
      if ReadSections(b, bs) == Ok(b') {
        var s := ReadSection(b, bs).value;
        SectionExact(b, bs, s.value, s.rest);
        SectionProgress(b, bs);
        SectionKeepsInv(b, bs);
        SectionsExact(s.value, s.rest, b');
      }
    }
  }

  /** A module is read if and only if it is one of the grammar, and it is read as the grammar says. */
  lemma ModuleExact(bs: seq<Byte>, b: Builder)
    ensures IsModule(bs, b) <==> ReadBuilder(bs) == Ok(b)
  {
    assert BuilderInv(FRESH);
    hide SectionsAt, ReadSections, BuilderInv;
    if IsModule(bs, b) {
      var sections :|
        && bs == [0x00, 0x61, 0x73, 0x6D] + ([0x01, 0x00, 0x00, 0x00] + sections)
        && SectionsAt(Builder(0, [], [], [], [], [], [], [], None), sections, b);
      assert bs[..4] == MAGIC && bs[4..][..4] == VERSION && bs[4..][4..] == sections;
      SectionsExact(FRESH, sections, b);
    }
    if ReadBuilder(bs) == Ok(b) {
      var sections := bs[4..][4..];
      assert bs == bs[..4] + (bs[4..][..4] + sections);
      SectionsExact(FRESH, sections, b);
    }
  }
}
