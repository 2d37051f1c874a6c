/** Why no global section of the binary format is read: the end opcode behind each initialiser. */
module GlobalSection {
  import opened Wrappers
  import opened WasmCore
  import Leb128
  import opened ByteStream
  import opened ParserSpec
  import opened ParserProgress
  import opened ParserInvariant
  import opened ModuleEncoding
  import opened ParserRoundTrip

  /** The initialisers of the format, with their immediates in any encoding it allows. */
  datatype Initialiser =
    | I32Const(bytes: seq<Byte>)
    | I64Const(bytes: seq<Byte>)
    | F32Const(bytes: seq<Byte>)
    | F64Const(bytes: seq<Byte>)
    | GlobalGet(bytes: seq<Byte>)
    | RefNull(bytes: seq<Byte>)
    | RefFunc(bytes: seq<Byte>)

  datatype GlobalSource = GlobalSource(valtype: ValType, mutable: Byte, init: Initialiser)

  function OpcodeOf(i: Initialiser): Byte {
    match i
    case I32Const(_) => 0x41
    case I64Const(_) => 0x42
    case F32Const(_) => 0x43
    case F64Const(_) => 0x44
    case GlobalGet(_) => 0x23
    case RefNull(_) => 0xD0
    case RefFunc(_) => 0xD2
  }

  /** Integers are LEB128 of at most the length their type allows, signed or not; floats have a fixed size. */
  ghost predicate GoodInitialiser(i: Initialiser) {
    match i
    case I32Const(bs) => Leb128.Terminated(bs) && |bs| <= 5
    case I64Const(bs) => Leb128.Terminated(bs) && |bs| <= 10
    case F32Const(bs) => |bs| == 4
    case F64Const(bs) => |bs| == 8
    case _ => true
  }

  function EncodeGlobal(g: GlobalSource): seq<Byte> {
    [ValTypeCode(g.valtype)] + ([g.mutable] + ([OpcodeOf(g.init)] + g.init.bytes))
  }

  /** The binary format ends an initialiser with the end opcode. */
  function WithEnd(g: GlobalSource): seq<Byte> {
    EncodeGlobal(g) + [0x0B]
  }

  /** The ones the parser reads, but for the end opcode. */
  predicate Readable(g: GlobalSource) {
    g.valtype != V128 && (g.init.I32Const? || g.init.I64Const? || g.init.F32Const? || g.init.F64Const?)
  }

  lemma InitialiserBack(i: Initialiser, rest: seq<Byte>)
    requires GoodInitialiser(i)
    ensures var r := ReadConstExpr([OpcodeOf(i)] + (i.bytes + rest));
      && (r.Ok? <==> i.I32Const? || i.I64Const? || i.F32Const? || i.F64Const?)
      && (r.Ok? ==> r.value.rest == rest)
  {
    ByteBack(OpcodeOf(i), i.bytes + rest);
    match i
    case I32Const(bs) => WordRead(bs, rest);
    case I64Const(bs) => QuadRead(bs, rest);
    case F32Const(bs) => BytesRead(bs, rest);
    case F64Const(bs) => BytesRead(bs, rest);
    case _ =>
  }

  lemma BytesRead(bs: seq<Byte>, rest: seq<Byte>)
    ensures ReadBytes(|bs|, bs + rest) == Ok(Parsed(bs, rest))
  {
    assert (bs + rest)[..|bs|] == bs && (bs + rest)[|bs|..] == rest;
  }

  lemma WordRead(bs: seq<Byte>, rest: seq<Byte>)
    requires Leb128.Terminated(bs) && |bs| <= 5
    ensures ReadU32(bs + rest).Ok? && ReadU32(bs + rest).value.rest == rest
  {
    Leb128.DecodeTerminated(U32_TYPE, bs, rest);
    hide Leb128.Decode, Leb128.Terminated;
  }

  lemma QuadRead(bs: seq<Byte>, rest: seq<Byte>)
    requires Leb128.Terminated(bs) && |bs| <= 10
    ensures ReadU64(bs + rest).Ok? && ReadU64(bs + rest).value.rest == rest
  {
    Leb128.DecodeTerminated(U64_TYPE, bs, rest);
    hide Leb128.Decode, Leb128.Terminated;
  }

  lemma TypeRead(g: GlobalSource, tail: seq<Byte>)
    ensures var r := ReadGlobalType([ValTypeCode(g.valtype)] + ([g.mutable] + tail));
      (r.Ok? <==> g.valtype != V128) && (r.Ok? ==> r.value.rest == tail)
  {
    ByteBack(g.mutable, tail);
    ByteBack(ValTypeCode(g.valtype), [g.mutable] + tail);
    if g.valtype != V128 {
      ValTypeBack(g.valtype, [g.mutable] + tail);
      hide ReadValType;
    }
  }

  /** A global of the format is read up to its end opcode, whatever follows, or refused. */
  lemma GlobalBack(g: GlobalSource, rest: seq<Byte>)
    requires GoodInitialiser(g.init)
    ensures var r := ReadGlobal(EncodeGlobal(g) + rest);
      (r.Ok? <==> Readable(g)) && (r.Ok? ==> r.value.rest == rest)
  {
    var init := [OpcodeOf(g.init)] + (g.init.bytes + rest);
    assert EncodeGlobal(g) + rest == [ValTypeCode(g.valtype)] + ([g.mutable] + init);
    TypeRead(g, init);
    InitialiserBack(g.init, rest);
    hide ReadConstExpr, GoodInitialiser, ReadGlobalType, OpcodeOf, ValTypeCode, EncodeGlobal;
  }

  lemma EndIsNoGlobal(rest: seq<Byte>)
    ensures ReadGlobal([0x0B] + rest).Err?
  {
    ByteBack(0x0B, rest);
  }

  lemma EndIsNoSection(b: Builder, bs: seq<Byte>)
    requires bs != [] && bs[0] == 0x0B && b.latest == 6
    ensures ReadSections(b, bs).Err?
  {
    hide ReadU32;
  }

  lemma GlobalsMany(n: nat, g: GlobalSource, others: seq<Byte>)
    requires n >= 1 && GoodInitialiser(g.init)
    ensures var r := Many(n, EncodeGlobal(g) + ([0x0B] + others), ReadGlobal);
      r.Ok? ==> r.value.rest == [0x0B] + others
  {
    EndIsNoGlobal(others);
    GlobalBack(g, [0x0B] + others);
    hide ReadGlobal, EncodeGlobal, GoodInitialiser;
    if n > 1 {
      assert Many(n - 1, [0x0B] + others, ReadGlobal).Err?;
    }
  }

  lemma GlobalsVector(gs: seq<GlobalSource>, rest: seq<Byte>)
    requires gs != [] && GoodInitialiser(gs[0].init) && |gs| < TWO_32
    ensures var r := Vector(MAX_GLOBALS, EncodeVector(gs, WithEnd) + rest, ReadGlobal);
      r.Ok? ==> r.value.rest != [] && r.value.rest[0] == 0x0B
  {
    hide ReadU32, EncodeLength, ReadGlobal, EncodeGlobal, GoodInitialiser, Many;
    var others := Concat(gs[1..], WithEnd) + rest;
    assert Concat(gs, WithEnd) + rest == EncodeGlobal(gs[0]) + ([0x0B] + others);
    CountBack(gs, WithEnd, rest);
    GlobalsMany(|gs|, gs[0], others);
    hide EncodeVector, Concat, WithEnd;
  }

  lemma GlobalsRead(size: nat, b: Builder, gs: seq<GlobalSource>, rest: seq<Byte>)
    requires gs != [] && GoodInitialiser(gs[0].init) && |gs| < TWO_32 && b.latest == 6
    ensures var r := ReadContents(6, size, b, EncodeVector(gs, WithEnd) + rest);
      r.Ok? ==> r.value.value.latest == 6 && r.value.rest != [] && r.value.rest[0] == 0x0B
  {
    GlobalsVector(gs, rest);
    hide Vector, EncodeVector, GoodInitialiser;
  }

  /** Every global section of the binary format is refused, whatever the types and initialisers, unless it is
      empty: at the first initialiser, at the second global, or as the section that is taken to follow. */
  lemma GlobalsRefused(b: Builder, gs: seq<GlobalSource>, rest: seq<Byte>)
    requires b.latest < 6 && forall i :: 0 <= i < |gs| ==> GoodInitialiser(gs[i].init)
    requires |EncodeVector(gs, WithEnd)| < TWO_32 && |gs| < TWO_32
    ensures gs != [] ==> ReadSections(b, Section(6, EncodeVector(gs, WithEnd)) + rest).Err?
    ensures gs == [] ==>
      ReadSections(b, Section(6, EncodeVector(gs, WithEnd)) + rest) == ReadSections(b.(latest := 6), rest)
  {
    hide ReadContents, ReadU32, EncodeLength, EncodeVector, GoodInitialiser, ReadSections;
    var payload := EncodeVector(gs, WithEnd);
    if gs == [] {
      EmptyVector();
      NoGlobalsBack(b.(latest := 6), rest);
      assert Opened(b, 6) == b.(latest := 6);
      SectionBack(b, 6, payload, rest, b.(latest := 6));
    } else {
      GlobalsRead(|payload|, b.(latest := 6), gs, rest);
      var tail := EncodeLength(|payload|) + (payload + rest);
      var bs := Section(6, payload) + rest;
      assert bs == [6] + tail;
      ByteBack(6, tail);
      U32Back(|payload|, payload + rest);
      var r := ReadSection(b, bs);
      hide ReadSection, Section;
      NextSection(b, bs);
      if r.Ok? {
        EndIsNoSection(r.value.value, r.value.rest);
      }
    }
  }

  lemma EmptyVector()
    ensures EncodeVector([], WithEnd) == EncodeLength(0)
  {
    assert EncodeLength(0) + [] == EncodeLength(0);
  }
}
