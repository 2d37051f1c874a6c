/** What the parser answers to bytes that are not of its language: the kind of error for every way to go wrong,
    with the limits written out. */
module ParserErrors {
  import opened Wrappers
  import opened WasmCore
  import Leb128
  import opened ByteStream
  import opened Validator
  import opened ValidatorBounds
  import opened ParserSpec
  import opened ParserProgress
  import opened BinaryGrammar
  import opened ParserExact

  // ---------- numbers, types and names ----------

  /** Numbers fail by overflow when five bytes continue, and for want of bytes when all there are continue. */
  lemma NumberErrors(bs: seq<Byte>)
    ensures ReadU32(bs) == Err(DecodeOverflow) <==> |bs| >= 5 && forall i :: 0 <= i < 5 ==> bs[i] >= 128
    ensures ReadU32(bs) == Err(EndOfStream) <==> |bs| < 5 && forall i :: 0 <= i < |bs| ==> bs[i] >= 128
    ensures ReadU32(bs).Err? ==> ReadU32(bs).error in {DecodeOverflow, EndOfStream}
  {
    Leb128.FailsExactly(U32_TYPE, bs);
    assert U32_TYPE.Cap() == 5;
  }

  lemma TypeErrors(bs: seq<Byte>)
    ensures bs == [] ==> ReadValType(bs) == Err(EndOfStream)
    ensures bs != [] && bs[0] !in {0x7F, 0x7E, 0x7D, 0x7C, 0x70, 0x6F} ==> ReadValType(bs) == Err(ParseError)
    ensures bs != [] && bs[0] != 0x60 ==> ReadSignature(bs) == Err(ParseError)
    ensures bs != [] && bs[0] in {0x7F, 0x7E, 0x7D, 0x7C} ==> ReadTableType(bs) == Err(ParseError)
  {
    hide ReadLimits, Vector;
  }

  lemma KindErrors(bs: seq<Byte>, signatures: nat, s: Spaces)
    requires bs != []
    ensures bs[0] > 3 ==> ReadDescription(signatures, bs) == Err(ParseError) && ReadItem(s, bs) == Err(ParseError)
    ensures bs[0] !in {0x41, 0x42, 0x43, 0x44} ==> ReadConstExpr(bs) == Err(ParseError)
  {
    hide ReadU32, ReadIndex;
  }

  lemma NameErrors(bs: seq<Byte>, n: nat, rest: seq<Byte>)
    requires U32At(bs, n, rest)
    ensures n > 256 ==> ReadName(bs) == Err(ParseError)
    ensures |rest| < n <= 256 ==> ReadName(bs) == Err(EndOfStream)
  {
    U32Exact(bs, n, rest);
    hide ReadU32, U32At;
  }

  lemma IndexErrors(size: nat, bs: seq<Byte>, n: nat, rest: seq<Byte>)
    requires U32At(bs, n, rest) && n >= size
    ensures ReadIndex(size, bs) == Err(ParseError)
  {
    U32Exact(bs, n, rest);
    hide ReadU32, U32At;
  }

  /** Too many parameters or results of a signature. */
  lemma SignatureErrors(bs: seq<Byte>, n: nat, rest: seq<Byte>)
    requires bs != [] && bs[0] == 0x60
    ensures U32At(bs[1..], n, rest) && n > 6 ==> ReadSignature(bs) == Err(ModuleTooLarge)
    ensures forall params, mid :: VectorAt(6, bs[1..], params, ValTypeAt, mid) && U32At(mid, n, rest) && n > 1 ==>
      ReadSignature(bs) == Err(ModuleTooLarge)
  {
    hide ReadU32, U32At, ReadValType, ValTypeAt, Many, EachAt;
    U32Exact(bs[1..], n, rest);
    ValTypesExact();
    hide VectorAt, Exact;
    forall params, mid | VectorAt(6, bs[1..], params, ValTypeAt, mid) && U32At(mid, n, rest) && n > 1
      ensures ReadSignature(bs) == Err(ModuleTooLarge)
    {
      VectorExact(6, bs[1..], ReadValType, ValTypeAt, params, mid);
      U32Exact(mid, n, rest);
    }
  }

  // ---------- functions ----------

  /** Behind instructions that could be read: the validator's refusal comes first, then the end of the bytes, an
      unknown opcode, or the validator's refusal at the end. */
  lemma {:induction false} ExpressionErrors(c: Context, v: VState, bs: seq<Byte>, groups: seq<seq<Op>>, mid: seq<Byte>)
    requires EachAt(bs, groups, InstructionAt, mid)
    ensures var r, v' := ReadExpression(c, v, bs), VisitAll(c, v, Flat(groups));
      && (v'.None? ==> r == Err(ValidationError))
      && (v'.Some? && mid == [] ==> r == Err(EndOfStream))
      && (v'.Some? && mid != [] && mid[0] !in {0x04, 0x05, 0x0B, 0x0F, 0x20, 0x21, 0x41, 0x6A} ==> r == Err(ParseError))
      && (v'.Some? && mid != [] && mid[0] == 0x0B && Finalize(c, v'.value).None? ==> r == Err(ValidationError))
    decreases |groups|
  {
    if groups == [] {
      assert VisitAll(c, v, []) == Some(v);
      if bs != [] && bs[0] == 0x0B {
        EndExact(c, v, bs);
      } else if bs != [] && bs[0] !in {0x04, 0x05, 0x0B, 0x0F, 0x20, 0x21, 0x41, 0x6A} {
        OtherOpcodesRefused(c, v, bs);
      }
    } else {
      var next :| InstructionAt(bs, groups[0], next) && EachAt(next, groups[1..], InstructionAt, mid);
      NextExact(c, v, bs, groups[0], next);
      VisitAllAppend(c, v, groups[0], Flat(groups[1..]));
      hide InstructionAt, Finalize, ReadExpression, Visit, VisitAll, EachAt;
      if VisitAll(c, v, groups[0]).Some? {
        ExpressionErrors(c, VisitAll(c, v, groups[0]).value, next, groups[1..], mid);
      }
    }
  }

  /** A group that makes more than 256 locals. */
  lemma LocalsErrors(n: nat, locals: seq<ValType>, bs: seq<Byte>, count: nat, rest: seq<Byte>)
    requires n > 0 && U32At(bs, count, rest)
    ensures count + |locals| > 256 ==> ReadLocals(n, locals, bs) == Err(ModuleTooLarge)
  {
    U32Exact(bs, count, rest);
    hide ReadU32, U32At, ReadValType;
  }

  /** A body that is right but for its size. */
  lemma SizeErrors(d: Function, bs: seq<Byte>, size: nat, m0: seq<Byte>, n: nat, m1: seq<Byte>, locals: seq<ValType>,
                   m2: seq<Byte>, body: Body, rest: seq<Byte>)
    requires d.meta.locals == [] && U32At(bs, size, m0) && U32At(m0, n, m1) && LocalsAt(n, m1, locals, m2)
    requires ExpressionAt(ContextOf(d.meta.signature, locals), START, m2, body, rest)
    ensures |m0| - |rest| != size ==> ReadCode(d, bs) == Err(ParseError)
  {
    hide ReadU32, U32At, ReadLocals, LocalsAt, ReadExpression, ExpressionAt;
    U32Exact(bs, size, m0);
    U32Exact(m0, n, m1);
    LocalsExact(n, m1, locals, m2);
    ExpressionExact(ContextOf(d.meta.signature, locals), START, m2, body, rest);
  }

  // ---------- sections and modules ----------

  /** The most a section may list. */
  function SectionLimit(id: Byte): nat {
    match id
    case 1 => 131072
    case 2 => 256
    case 3 => 65536
    case 4 => 16
    case 5 => 1
    case 6 => 1024
    case _ => 256
  }

  lemma CountErrors(id: Byte, size: nat, b: Builder, bs: seq<Byte>, n: nat, rest: seq<Byte>)
    requires 1 <= id <= 7 && U32At(bs, n, rest) && n > SectionLimit(id)
    ensures ReadContents(id, size, b, bs) == Err(ModuleTooLarge)
  {
    U32Exact(bs, n, rest);
    hide ReadU32, U32At, Many, ReadExports;
  }

  lemma CodeCountErrors(size: nat, b: Builder, bs: seq<Byte>, n: nat, rest: seq<Byte>)
    requires U32At(bs, n, rest) && n != |b.functions|
    ensures ReadContents(10, size, b, bs) == Err(ParseError)
  {
    U32Exact(bs, n, rest);
    hide ReadU32, U32At, ReadCodes;
  }

  /** A name exported a second time. */
  lemma NameTwiceErrors(s: Spaces, n: nat, seen: seq<Export>, bs: seq<Byte>, e: Export, rest: seq<Byte>)
    requires n > 0 && ExportAt(s, bs, e, rest) && HasName(seen, e.name)
    ensures ReadExports(s, n, seen, bs) == Err(ParseError)
  {
    ExportExact(s, bs, e, rest);
    hide ReadExport, ExportAt, HasName;
  }

  /** Sections out of order, unimplemented or unknown. */
  lemma SectionErrors(b: Builder, bs: seq<Byte>, size: nat, rest: seq<Byte>)
    requires bs != []
    ensures bs[0] != 0 && bs[0] <= b.latest ==> ReadSection(b, bs) == Err(ParseError)
    ensures bs[0] > b.latest && U32At(bs[1..], size, rest) && (bs[0] == 9 || bs[0] > 10) ==>
      ReadSection(b, bs) == Err(ParseError)
    ensures bs[0] == 0 && U32At(bs[1..], size, rest) && |rest| < size ==> ReadSection(b, bs) == Err(EndOfStream)
  {
    U32Exact(bs[1..], size, rest);
    hide ReadU32, U32At, Vector, ReadExports, ReadCodes, ReadIndex, SpacesOf;
  }

  /** Modules that do not begin as they should. */
  lemma HeaderErrors(bs: seq<Byte>)
    ensures |bs| < 4 ==> ReadBuilder(bs) == Err(EndOfStream)
    ensures |bs| >= 4 && bs[..4] != [0x00, 0x61, 0x73, 0x6D] ==> ReadBuilder(bs) == Err(ParseError)
    ensures |bs| >= 4 && bs[..4] == [0x00, 0x61, 0x73, 0x6D] && |bs| < 8 ==> ReadBuilder(bs) == Err(EndOfStream)
    ensures |bs| >= 8 && bs[..4] == [0x00, 0x61, 0x73, 0x6D] && bs[4..8] != [0x01, 0x00, 0x00, 0x00] ==>
      ReadBuilder(bs) == Err(ParseError)
  {
    hide ReadSections;
    if |bs| >= 8 {
      assert bs[4..][..4] == bs[4..8];
    }
  }

  /** An error in a section is the module's. */
  lemma ErrorsSurface(b: Builder, bs: seq<Byte>, b': Builder, mid: seq<Byte>)
    requires bs != [] && ReadSection(b, bs) == Ok(Parsed(b', mid))
    ensures ReadSections(b, bs) == ReadSections(b', mid)
  {
    SectionProgress(b, bs);
    hide ReadSection;
  }

  lemma FirstError(b: Builder, bs: seq<Byte>)
    requires bs != [] && ReadSection(b, bs).Err?
    ensures ReadSections(b, bs) == Err(ReadSection(b, bs).error)
  {
    hide ReadSection;
  }
}
