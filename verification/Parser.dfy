/** The parser as the sources write it: counted loops over a byte stream, and a builder whose fields the
    sections fill. Every method is proved against the reading function of the same name. */
module Parser {
  import opened Wrappers
  import opened WasmCore
  import Leb128
  import opened ByteStream
  import opened Validator
  import opened Spec = ParserSpec
  import Progress = ParserProgress
  import Invariant = ParserInvariant

  /** A method's result and the bytes it left are what the reading function says. */
  ghost predicate Agrees<T>(a: Answer<T>, r: Result<T, Error>, rest: seq<Byte>) {
    && (a.Ok? ==> r == Ok(a.value.value) && rest == a.value.rest)
    && (a.Err? ==> r == Err(a.error))
  }

  /** Values read before, in front of the values still to be read. */
  function Prepend<T>(xs: seq<T>, a: Answer<seq<T>>): Answer<seq<T>> {
    if a.Err? then a else Ok(Parsed(xs + a.value.value, a.value.rest))
  }

  lemma PrependMany<T>(xs: seq<T>, n: nat, bs: seq<Byte>, read: seq<Byte> -> Answer<T>)
    ensures n == 0 ==> Prepend(xs, Many(n, bs, read)) == Ok(Parsed(xs, bs))
    ensures n > 0 && read(bs).Err? ==> Prepend(xs, Many(n, bs, read)) == Err(read(bs).error)
    ensures n > 0 && read(bs).Ok? ==>
      Prepend(xs, Many(n, bs, read)) == Prepend(xs + [read(bs).value.value], Many(n - 1, read(bs).value.rest, read))
  {
    assert xs + [] == xs;
    if n > 0 && read(bs).Ok? && Many(n - 1, read(bs).value.rest, read).Ok? {
      var first, more := read(bs).value.value, Many(n - 1, read(bs).value.rest, read).value.value;
      assert xs + ([first] + more) == xs + [first] + more;
    }
  }

  lemma PrependNothing<T>(a: Answer<seq<T>>)
    ensures Prepend([], a) == a
  {
    if a.Ok? {
      assert [] + a.value.value == a.value.value;
    }
  }

  method ParseByte(stream: ByteStream) returns (r: Result<Byte, Error>)
    requires stream.Valid()
    modifies stream
    ensures stream.Valid() && Agrees(ReadByte(old(stream.Remaining())), r, stream.Remaining())
  {
    r := stream.ReadByte();
  }

  method ParseU32(stream: ByteStream) returns (r: Result<Word, Error>)
    requires stream.Valid()
    modifies stream
    ensures stream.Valid() && Agrees(ReadU32(old(stream.Remaining())), r, stream.Remaining())
  {
    DecodedWord(stream.Remaining());
    var d :- Leb128.DecodeInt(U32_TYPE, stream);
    r := Ok(d);
  }

  method ParseU64(stream: ByteStream) returns (r: Result<nat, Error>)
    requires stream.Valid()
    modifies stream
    ensures stream.Valid() && Agrees(ReadU64(old(stream.Remaining())), r, stream.Remaining())
  {
    DecodedQuad(stream.Remaining());
    r := Leb128.DecodeInt(U64_TYPE, stream);
  }

  method ParseIndex(size: nat, stream: ByteStream) returns (r: Result<nat, Error>)
    requires stream.Valid()
    modifies stream
    ensures stream.Valid() && Agrees(ReadIndex(size, old(stream.Remaining())), r, stream.Remaining())
  {
    var i :- ParseU32(stream);
    if i >= size {
      return Err(ParseError);
    }
    return Ok(i);
  }

  method ParseValType(stream: ByteStream) returns (r: Result<ValType, Error>)
    requires stream.Valid()
    modifies stream
    ensures stream.Valid() && Agrees(ReadValType(old(stream.Remaining())), r, stream.Remaining())
  {
    var typeId :- ParseByte(stream);
    match typeId
    case 0x7F => return Ok(I32);
    case 0x7E => return Ok(I64);
    case 0x7D => return Ok(F32);
    case 0x7C => return Ok(F64);
    case 0x70 => return Ok(FuncRef);
    case 0x6F => return Ok(ExternRef);
    case _ => return Err(ParseError);
  }

  method ParseName(stream: ByteStream) returns (r: Result<seq<Byte>, Error>)
    requires stream.Valid()
    modifies stream
    ensures stream.Valid() && Agrees(ReadName(old(stream.Remaining())), r, stream.Remaining())
  {
    var n :- ParseU32(stream);
    if n > MAX_NAME_LENGTH {
      return Err(ParseError);
    }
    r := stream.ReadBytes(n);
  }

  method ParseSignatureTypes(max: nat, stream: ByteStream) returns (r: Result<seq<ValType>, Error>)
    requires stream.Valid()
    modifies stream
    ensures stream.Valid() && Agrees(Vector(max, old(stream.Remaining()), ReadValType), r, stream.Remaining())
  {
    hide ReadU32, ReadValType, Many, Prepend;
    var n :- ParseU32(stream);
    if n > max {
      return Err(ModuleTooLarge);
    }
    var types := [];
    ghost var all := Many(n, stream.Remaining(), ReadValType);
    PrependNothing(all);
    for i := 0 to n
      invariant stream.Valid() && all == Prepend(types, Many(n - i, stream.Remaining(), ReadValType))
    {
      PrependMany(types, n - i, stream.Remaining(), ReadValType);
      var vt :- ParseValType(stream);
      types := types + [vt];
    }
    PrependMany(types, 0, stream.Remaining(), ReadValType);
    return Ok(types);
  }

  method ParseSignature(stream: ByteStream) returns (r: Result<BlockType, Error>)
    requires stream.Valid()
    modifies stream
    ensures stream.Valid() && Agrees(ReadSignature(old(stream.Remaining())), r, stream.Remaining())
  {
    hide Vector;
    var magic :- ParseByte(stream);
    if magic != 0x60 {
      return Err(ParseError);
    }
    var params :- ParseSignatureTypes(MAX_FUNCTION_PARAMETERS, stream);
    var results :- ParseSignatureTypes(MAX_FUNCTION_RESULTS, stream);
    return Ok(BlockType(params, results));
  }

  /** Instructions read before, in front of the rest of an expression. */
  function PrependBody(ops: seq<Op>, a: Answer<Body>): Answer<Body> {
    if a.Err? then a else Ok(Parsed(Body(ops + a.value.value.ops, a.value.value.state), a.value.rest))
  }

  /** One turn of the expression loop. */
  lemma ExpressionTurn(c: Context, v: VState, bs: seq<Byte>, ops: seq<Op>)
    ensures bs == [] ==> PrependBody(ops, ReadExpression(c, v, bs)) == Err(EndOfStream)
    ensures bs != [] && bs[0] == 0x0B ==>
      var f := Finalize(c, v);
      PrependBody(ops, ReadExpression(c, v, bs)) ==
      if f.None? then Err(ValidationError) else Ok(Parsed(Body(ops, f.value), bs[1..]))
    ensures bs != [] && bs[0] != 0x0B ==>
      var next := ReadOpcode(bs[0], bs[1..]);
      PrependBody(ops, ReadExpression(c, v, bs)) ==
      if next.Err? then Err(next.error)
      else if VisitAll(c, v, next.value.value).None? then Err(ValidationError)
      else PrependBody(ops + next.value.value,
                       ReadExpression(c, VisitAll(c, v, next.value.value).value, next.value.rest))
  {
    if bs != [] && bs[0] != 0x0B {
      var next := ReadOpcode(bs[0], bs[1..]);
      if next.Ok? && VisitAll(c, v, next.value.value).Some? {
        var more := ReadExpression(c, VisitAll(c, v, next.value.value).value, next.value.rest);
        if more.Ok? {
          assert ops + (next.value.value + more.value.value.ops) == ops + next.value.value + more.value.value.ops;
        }
      }
    } else if bs != [] && Finalize(c, v).Some? {
      assert ops + [] == ops;
    }
  }

  method ParseOpcode(opcode: Byte, stream: ByteStream) returns (r: Result<seq<Op>, Error>)
    requires stream.Valid()
    modifies stream
    ensures stream.Valid() && Agrees(ReadOpcode(opcode, old(stream.Remaining())), r, stream.Remaining())
  {
    hide ReadU32;
    match opcode
    case 0x04 => return Ok([BrIf("then_0", "else_0"), Label("then_0")]);
    case 0x05 => return Ok([Br("end_0"), Label("else_0")]);
    case 0x0F => return Ok([Return]);
    case 0x20 =>
      var i :- ParseU32(stream);
      return Ok([GetLocalI32(i)]);
    case 0x21 =>
      var i :- ParseU32(stream);
      return Ok([SetLocalI32(i)]);
    case 0x41 =>
      var v :- ParseU32(stream);
      return Ok([ConstI32(v)]);
    case 0x6A => return Ok([AddI32]);
    case _ => return Err(ParseError);
  }

  /** Every instruction is shown to the validator as it is emitted. */
  method Emit(validator: FunctionValidator, ops: seq<Op>) returns (ok: bool)
    modifies validator
    ensures ok <==> VisitAll(validator.Ctx(), old(validator.Abs()), ops).Some?
    ensures ok ==> validator.Abs() == VisitAll(validator.Ctx(), old(validator.Abs()), ops).value
  {
    hide Visit;
    for i := 0 to |ops|
      invariant VisitAll(validator.Ctx(), old(validator.Abs()), ops)
             == VisitAll(validator.Ctx(), validator.Abs(), ops[i..])
    {
      assert ops[i..][0] == ops[i] && ops[i..][1..] == ops[i + 1..];
      var visited := validator.VisitOp(ops[i]);
      if !visited {
        return false;
      }
    }
    return true;
  }

  method ParseExpression(stream: ByteStream, validator: FunctionValidator) returns (r: Result<seq<Op>, Error>)
    requires stream.Valid()
    modifies stream, validator
    ensures stream.Valid()
    ensures var a := ReadExpression(validator.Ctx(), old(validator.Abs()), old(stream.Remaining()));
      && (a.Ok? ==> r == Ok(a.value.value.ops) && validator.Abs() == a.value.value.state
                    && stream.Remaining() == a.value.rest)
      && (a.Err? ==> r == Err(a.error))
  {
    hide ReadExpression, ReadOpcode, VisitAll, Finalize;
    var instructions := [];
    ghost var c, all := validator.Ctx(), ReadExpression(validator.Ctx(), validator.Abs(), stream.Remaining());
    assert PrependBody([], all) == all by {
      if all.Ok? {
        assert [] + all.value.value.ops == all.value.value.ops;
      }
    }
    while true
      invariant stream.Valid()
      invariant all == PrependBody(instructions, ReadExpression(c, validator.Abs(), stream.Remaining()))
      decreases |stream.Remaining()|
    {
      ExpressionTurn(c, validator.Abs(), stream.Remaining(), instructions);
      var opcode :- ParseByte(stream);
      if opcode == 0x0B {
        break;
      }
      var ops :- ParseOpcode(opcode, stream);
      var valid := Emit(validator, ops);
      if !valid {
        return Err(ValidationError);
      }
      instructions := instructions + ops;
    }
    var done := validator.FinalizeBody();
    if !done {
      return Err(ValidationError);
    }
    return Ok(instructions);
  }

  method ParseLocals(groups: nat, stream: ByteStream) returns (r: Result<seq<ValType>, Error>)
    requires stream.Valid()
    modifies stream
    ensures stream.Valid() && Agrees(ReadLocals(groups, [], old(stream.Remaining())), r, stream.Remaining())
  {
    hide ReadU32, ReadValType;
    var locals: seq<ValType> := [];
    for i := 0 to groups
      invariant stream.Valid()
      invariant ReadLocals(groups, [], old(stream.Remaining()))
             == ReadLocals(groups - i, locals, stream.Remaining())
    {
      var count :- ParseU32(stream);
      if count + |locals| > MAX_FUNCTION_LOCALS {
        return Err(ModuleTooLarge);
      }
      var vt :- ParseValType(stream);
      locals := locals + seq(count, _ => vt);
    }
    return Ok(locals);
  }

  /** The body of a declared function, whose own list of locals is still empty. */
  method ParseOneCode(f: Function, stream: ByteStream) returns (r: Result<Function, Error>)
    requires stream.Valid() && f.meta.locals == []
    modifies stream
    ensures stream.Valid() && Agrees(ReadCode(f, old(stream.Remaining())), r, stream.Remaining())
  {
    hide ReadU32, ReadLocals, ReadExpression;
    var expectedSize :- ParseU32(stream);
    var start := stream.BytesConsumed();
    var groups :- ParseU32(stream);
    var locals :- ParseLocals(groups, stream);
    var validator := new FunctionValidator(f.meta.signature, locals);
    var body :- ParseExpression(stream, validator);
    var bytes := validator.MaximumStackSizeBytes();
    var elements := validator.MaximumStackElements();
    var end := stream.BytesConsumed();
    if end != start + expectedSize {
      return Err(ParseError);
    }
    return Ok(Function(Metadata(f.meta.signature, locals, bytes % TWO_32, elements % TWO_32), body));
  }

  // ---------- tables, memories, globals, imports ----------

  method ParseLimits(stream: ByteStream) returns (r: Result<Limits, Error>)
    requires stream.Valid()
    modifies stream
    ensures stream.Valid() && Agrees(ReadLimits(old(stream.Remaining())), r, stream.Remaining())
  {
    hide ReadU32;
    var bounded :- ParseByte(stream);
    if bounded != 0 {
      var min :- ParseU32(stream);
      var max :- ParseU32(stream);
      return Ok(Limits(min, max));
    } else {
      var min :- ParseU32(stream);
      return Ok(Limits(min, TWO_32 - 1));
    }
  }

  method ParseTableType(stream: ByteStream) returns (r: Result<TableType, Error>)
    requires stream.Valid()
    modifies stream
    ensures stream.Valid() && Agrees(ReadTableType(old(stream.Remaining())), r, stream.Remaining())
  {
    hide ReadValType, ReadLimits;
    var reftype :- ParseValType(stream);
    if reftype != ExternRef && reftype != FuncRef {
      return Err(ParseError);
    }
    var limits :- ParseLimits(stream);
    return Ok(TableType(limits, reftype));
  }

  method ParseGlobalType(stream: ByteStream) returns (r: Result<GlobalType, Error>)
    requires stream.Valid()
    modifies stream
    ensures stream.Valid() && Agrees(ReadGlobalType(old(stream.Remaining())), r, stream.Remaining())
  {
    hide ReadValType;
    var valtype :- ParseValType(stream);
    var mutable :- ParseByte(stream);
    return Ok(GlobalType(valtype, mutable != 0));
  }

  method ParseConstExpr(stream: ByteStream) returns (r: Result<Constant, Error>)
    requires stream.Valid()
    modifies stream
    ensures stream.Valid() && Agrees(ReadConstExpr(old(stream.Remaining())), r, stream.Remaining())
  {
    hide ReadU32, ReadU64;
    var opcode :- ParseByte(stream);
    match opcode
    case 0x41 =>
      var v :- ParseU32(stream);
      return Ok(U32(v));
    case 0x42 =>
      var v :- ParseU64(stream);
      return Ok(U64(v));
    case 0x43 =>
      var f :- stream.ReadBytes(4);
      return Ok(Float(f));
    case 0x44 =>
      var f :- stream.ReadBytes(8);
      return Ok(Float(f));
    case _ => return Err(ParseError);
  }

  method ParseGlobal(stream: ByteStream) returns (r: Result<Global, Error>)
    requires stream.Valid()
    modifies stream
    ensures stream.Valid() && Agrees(ReadGlobal(old(stream.Remaining())), r, stream.Remaining())
  {
    hide ReadGlobalType, ReadConstExpr;
    var globalType :- ParseGlobalType(stream);
    var value :- ParseConstExpr(stream);
    return Ok(Global(globalType, value));
  }

  method ParseDescription(signatures: nat, stream: ByteStream) returns (r: Result<Description, Error>)
    requires stream.Valid()
    modifies stream
    ensures stream.Valid() && Agrees(ReadDescription(signatures, old(stream.Remaining())), r, stream.Remaining())
  {
    hide ReadIndex, ReadTableType, ReadLimits, ReadGlobalType;
    var kind :- ParseByte(stream);
    match kind
    case 0 =>
      var i :- ParseIndex(signatures, stream);
      return Ok(ImportedFunction(i));
    case 1 =>
      var t :- ParseTableType(stream);
      return Ok(ImportedTable(t));
    case 2 =>
      var l :- ParseLimits(stream);
      return Ok(ImportedMemory(l));
    case 3 =>
      var g :- ParseGlobalType(stream);
      return Ok(ImportedGlobal(g));
    case _ => return Err(ParseError);
  }

  class ModuleBuilder {
    var latestSectionRead: nat
    var funcSignatures: seq<BlockType>
    var imports: seq<Import>
    var functions: seq<Function>
    var tables: seq<TableType>
    var memories: seq<Limits>
    var globals: seq<Global>
    var exports: seq<Export>
    var start: Option<nat>

    function Abs(): Builder
      reads this
    {
      Builder(latestSectionRead, funcSignatures, imports, functions, tables, memories, globals, exports, start)
    }

    constructor ()
      ensures Abs() == FRESH
    {
      latestSectionRead := 0;
      funcSignatures, imports, functions := [], [], [];
      tables, memories, globals := [], [], [];
      exports, start := [], None;
    }

    /** A section's effect on the builder and the stream; an exception ends the parse. */
    ghost predicate Did(a: Answer<Builder>, r: Result<(), Error>, stream: ByteStream)
      requires stream.Valid()
      reads this, stream
    {
      && (a.Ok? ==> r == Ok(()) && Abs() == a.value.value && stream.Remaining() == a.value.rest)
      && (a.Err? ==> r == Err(a.error))
    }

    method ParseSignatureSection(stream: ByteStream, ghost size: nat) returns (r: Result<(), Error>)
      requires stream.Valid()
      modifies this, stream
      ensures stream.Valid() && Did(ReadContents(1, size, old(Abs()), old(stream.Remaining())), r, stream)
    {
      hide ReadU32, ReadSignature, Many, Prepend;
      var n :- ParseU32(stream);
      if n > MAX_FUNCTION_SIGNATURES {
        return Err(ModuleTooLarge);
      }
      ghost var b, all := Abs(), Many(n, stream.Remaining(), ReadSignature);
      ghost var read := [];
      PrependNothing(all);
      for i := 0 to n
        invariant stream.Valid() && all == Prepend(read, Many(n - i, stream.Remaining(), ReadSignature))
        invariant Abs() == b.(signatures := b.signatures + read)
      {
        PrependMany(read, n - i, stream.Remaining(), ReadSignature);
        var s :- ParseSignature(stream);
        read := read + [s];
        funcSignatures := funcSignatures + [s];
      }
      PrependMany(read, 0, stream.Remaining(), ReadSignature);
      return Ok(());
    }

    method ParseFunctionDeclarationSection(stream: ByteStream, ghost size: nat) returns (r: Result<(), Error>)
      requires stream.Valid()
      modifies this, stream
      ensures stream.Valid() && Did(ReadContents(3, size, old(Abs()), old(stream.Remaining())), r, stream)
    {
      hide ReadU32, Many, Prepend;
      var n :- ParseU32(stream);
      if n > MAX_FUNCTIONS {
        return Err(ModuleTooLarge);
      }
      ghost var b := Abs();
      ghost var all := Many(n, stream.Remaining(), Declarations(b.signatures));
      ghost var read := [];
      PrependNothing(all);
      for i := 0 to n
        invariant stream.Valid() && all == Prepend(read, Many(n - i, stream.Remaining(), Declarations(b.signatures)))
        invariant Abs() == b.(functions := b.functions + read)
      {
        PrependMany(read, n - i, stream.Remaining(), Declarations(b.signatures));
        var idx :- ParseIndex(|funcSignatures|, stream);
        read := read + [Declared(funcSignatures[idx])];
        functions := functions + [Declared(funcSignatures[idx])];
      }
      PrependMany(read, 0, stream.Remaining(), Declarations(b.signatures));
      return Ok(());
    }

    method ParseOneImport(stream: ByteStream) returns (r: Result<Import, Error>)
      requires stream.Valid()
      modifies stream
      ensures stream.Valid() && Agrees(ReadImport(|funcSignatures|, old(stream.Remaining())), r, stream.Remaining())
    {
      hide ReadName, ReadDescription;
      var moduleName :- ParseName(stream);
      var name :- ParseName(stream);
      var description :- ParseDescription(|funcSignatures|, stream);
      return Ok(Import(moduleName, name, description));
    }

    method ParseImportSection(stream: ByteStream, ghost size: nat) returns (r: Result<(), Error>)
      requires stream.Valid()
      modifies this, stream
      ensures stream.Valid() && Did(ReadContents(2, size, old(Abs()), old(stream.Remaining())), r, stream)
    {
      hide ReadU32, ReadImport, Many, Prepend;
      var n :- ParseU32(stream);
      if n > MAX_IMPORTS {
        return Err(ModuleTooLarge);
      }
      ghost var b := Abs();
      ghost var all := Many(n, stream.Remaining(), Imports(|b.signatures|));
      ghost var read := [];
      PrependNothing(all);
      for i := 0 to n
        invariant stream.Valid() && all == Prepend(read, Many(n - i, stream.Remaining(), Imports(|b.signatures|)))
        invariant Abs() == b.(imports := b.imports + read)
      {
        PrependMany(read, n - i, stream.Remaining(), Imports(|b.signatures|));
        var imported :- ParseOneImport(stream);
        read := read + [imported];
        imports := imports + [imported];
      }
      PrependMany(read, 0, stream.Remaining(), Imports(|b.signatures|));
      return Ok(());
    }

    method ParseTableSection(stream: ByteStream, ghost size: nat) returns (r: Result<(), Error>)
      requires stream.Valid()
      modifies this, stream
      ensures stream.Valid() && Did(ReadContents(4, size, old(Abs()), old(stream.Remaining())), r, stream)
    {
      hide ReadU32, ReadTableType, Many, Prepend;
      var n :- ParseU32(stream);
      if n > MAX_TABLES {
        return Err(ModuleTooLarge);
      }
      ghost var b := Abs();
      ghost var all := Many(n, stream.Remaining(), ReadTableType);
      ghost var read := [];
      PrependNothing(all);
      for i := 0 to n
        invariant stream.Valid() && all == Prepend(read, Many(n - i, stream.Remaining(), ReadTableType))
        invariant Abs() == b.(tables := b.tables + read)
      {
        PrependMany(read, n - i, stream.Remaining(), ReadTableType);
        var table :- ParseTableType(stream);
        read := read + [table];
        tables := tables + [table];
      }
      PrependMany(read, 0, stream.Remaining(), ReadTableType);
      return Ok(());
    }

    method ParseMemoriesSection(stream: ByteStream, ghost size: nat) returns (r: Result<(), Error>)
      requires stream.Valid()
      modifies this, stream
      ensures stream.Valid() && Did(ReadContents(5, size, old(Abs()), old(stream.Remaining())), r, stream)
    {
      hide ReadU32, ReadLimits, Many, Prepend;
      var n :- ParseU32(stream);
      if n > MAX_MEMORIES {
        return Err(ModuleTooLarge);
      }
      ghost var b := Abs();
      ghost var all := Many(n, stream.Remaining(), ReadLimits);
      ghost var read := [];
      PrependNothing(all);
      for i := 0 to n
        invariant stream.Valid() && all == Prepend(read, Many(n - i, stream.Remaining(), ReadLimits))
        invariant Abs() == b.(memories := b.memories + read)
      {
        PrependMany(read, n - i, stream.Remaining(), ReadLimits);
        var memory :- ParseLimits(stream);
        read := read + [memory];
        memories := memories + [memory];
      }
      PrependMany(read, 0, stream.Remaining(), ReadLimits);
      return Ok(());
    }

    method ParseGlobalsSection(stream: ByteStream, ghost size: nat) returns (r: Result<(), Error>)
      requires stream.Valid()
      modifies this, stream
      ensures stream.Valid() && Did(ReadContents(6, size, old(Abs()), old(stream.Remaining())), r, stream)
    {
      hide ReadU32, ReadGlobal, Many, Prepend;
      var n :- ParseU32(stream);
      if n > MAX_GLOBALS {
        return Err(ModuleTooLarge);
      }
      ghost var b := Abs();
      ghost var all := Many(n, stream.Remaining(), ReadGlobal);
      ghost var read := [];
      PrependNothing(all);
      for i := 0 to n
        invariant stream.Valid() && all == Prepend(read, Many(n - i, stream.Remaining(), ReadGlobal))
        invariant Abs() == b.(globals := b.globals + read)
      {
        PrependMany(read, n - i, stream.Remaining(), ReadGlobal);
        var global :- ParseGlobal(stream);
        read := read + [global];
        globals := globals + [global];
      }
      PrependMany(read, 0, stream.Remaining(), ReadGlobal);
      return Ok(());
    }

    method ParseOneExport(stream: ByteStream) returns (r: Result<Export, Error>)
      requires stream.Valid()
      modifies stream
      ensures stream.Valid() && Agrees(ReadExport(SpacesOf(Abs()), old(stream.Remaining())), r, stream.Remaining())
    {
      hide ReadName, ReadIndex;
      var name :- ParseName(stream);
      var kind :- ParseByte(stream);
      match kind
      case 0 =>
        var i :- ParseIndex(|functions|, stream);
        return Ok(Export(name, FuncItem(i)));
      case 1 =>
        var i :- ParseIndex(|tables|, stream);
        return Ok(Export(name, TableItem(i)));
      case 2 =>
        var i :- ParseIndex(|memories|, stream);
        return Ok(Export(name, MemoryItem(i)));
      case 3 =>
        var i :- ParseIndex(|globals|, stream);
        return Ok(Export(name, GlobalItem(i)));
      case _ => return Err(ParseError);
    }

    method ParseExportsSection(stream: ByteStream, ghost size: nat) returns (r: Result<(), Error>)
      requires stream.Valid()
      modifies this, stream
      ensures stream.Valid() && Did(ReadContents(7, size, old(Abs()), old(stream.Remaining())), r, stream)
    {
      hide ReadU32, ReadExport;
      var n :- ParseU32(stream);
      if n > MAX_EXPORTS {
        return Err(ModuleTooLarge);
      }
      var names: set<seq<Byte>> := {};
      ghost var b, all := Abs(), ReadExports(SpacesOf(Abs()), n, [], stream.Remaining());
      ghost var read: seq<Export> := [];
      for i := 0 to n
        invariant stream.Valid() && all == ReadExports(SpacesOf(b), n - i, read, stream.Remaining())
        invariant Abs() == b.(exports := b.exports + read)
        invariant forall name :: name in names <==> HasName(read, name)
      {
        var e :- ParseOneExport(stream);
        exports := exports + [e];
        if e.name in names {
          return Err(ParseError);
        }
        NameAdded(read, e);
        names := names + {e.name};
        read := read + [e];
      }
      return Ok(());
    }

    method ParseCodeSection(stream: ByteStream, ghost size: nat) returns (r: Result<(), Error>)
      requires stream.Valid() && forall i :: 0 <= i < |functions| ==> functions[i].meta.locals == []
      modifies this, stream
      ensures stream.Valid() && Did(ReadContents(10, size, old(Abs()), old(stream.Remaining())), r, stream)
    {
      hide ReadU32, ReadCode, Prepend;
      var n :- ParseU32(stream);
      if n != |functions| {
        return Err(ParseError);
      }
      ghost var b, all := Abs(), ReadCodes(functions, stream.Remaining());
      PrependNothing(all);
      for i := 0 to n
        invariant stream.Valid() && |functions| == n
        invariant Abs() == b.(functions := functions) && functions[i..] == b.functions[i..]
        invariant all == Prepend(functions[..i], ReadCodes(b.functions[i..], stream.Remaining()))
      {
        CodesTurn(functions[..i], b.functions[i..], stream.Remaining());
        assert functions[i] == b.functions[i..][0];
        var f :- ParseOneCode(functions[i], stream);
        functions := functions[i := f];
        assert functions[..i + 1] == b.(functions := functions).functions[..i] + [f];
      }
      CodesTurn(functions, [], stream.Remaining());
      assert functions[..n] == functions && b.functions[n..] == [];
      return Ok(());
    }

    method ParseOneSection(stream: ByteStream) returns (r: Result<(), Error>)
      requires stream.Valid() && (latestSectionRead < 10 ==>
        forall i :: 0 <= i < |functions| ==> functions[i].meta.locals == [])
      modifies this, stream
      ensures stream.Valid() && Did(ReadSection(old(Abs()), old(stream.Remaining())), r, stream)
    {
      hide ReadU32, ReadContents;
      var id :- ParseByte(stream);
      if id != 0 && id <= latestSectionRead {
        return Err(ParseError);
      } else if id != 0 {
        latestSectionRead := id;
      }
      var size :- ParseU32(stream);
      ContentsElsewhere(id, size, Abs(), stream.Remaining());
      match id
      case 0 => r := stream.Skip(size);
      case 1 => r := ParseSignatureSection(stream, size);
      case 2 => r := ParseImportSection(stream, size);
      case 3 => r := ParseFunctionDeclarationSection(stream, size);
      case 4 => r := ParseTableSection(stream, size);
      case 5 => r := ParseMemoriesSection(stream, size);
      case 6 => r := ParseGlobalsSection(stream, size);
      case 7 => r := ParseExportsSection(stream, size);
      case 8 =>
        var i :- ParseIndex(|functions|, stream);
        start := Some(i);
        return Ok(());
      case 10 => r := ParseCodeSection(stream, size);
      case _ => return Err(ParseError);
    }

    /** The main loop. The builder's invariant holds after every section, so a code section always finds
        bodies that are still open. */
    method Parse(stream: ByteStream) returns (r: Result<(), Error>)
      requires stream.Valid() && Abs() == FRESH
      modifies this, stream
      ensures stream.Valid()
      ensures var a := Progress.ReadBuilder(old(stream.Remaining()));
        && (a.Ok? ==> r == Ok(()) && Abs() == a.value && Invariant.BuilderInv(Abs()))
        && (a.Err? ==> r == Err(a.error))
    {
      ghost var bs := stream.Remaining();
      assert Invariant.BuilderInv(FRESH);
      hide Invariant.BuilderInv, ReadSection;
      var magic :- stream.ReadBytes(4);
      if magic != Progress.MAGIC {
        return Err(ParseError);
      }
      var version :- stream.ReadBytes(4);
      if version != Progress.VERSION {
        return Err(ParseError);
      }
      var more := stream.HasRemaining();
      while more
        invariant stream.Valid() && (more <==> stream.Remaining() != []) && Invariant.BuilderInv(Abs())
        invariant Progress.ReadBuilder(bs) == Progress.ReadSections(Abs(), stream.Remaining())
        decreases |stream.Remaining()|
      {
        OpenBodies(Abs());
        Progress.SectionProgress(Abs(), stream.Remaining());
        Invariant.SectionKeepsInv(Abs(), stream.Remaining());
        var _ :- ParseOneSection(stream);
        more := stream.HasRemaining();
      }
      return Ok(());
    }

    method Build() returns (parsed: Progress.ParsedModule)
      ensures parsed == Progress.Build(Abs())
    {
      var exported: map<seq<Byte>, nat> := map[];
      for i := 0 to |exports|
        invariant exported == Progress.ExportMap(exports[..i])
      {
        assert exports[..i + 1][..i] == exports[..i];
        if exports[i].item.FuncItem? && exports[i].name !in exported {
          exported := exported[exports[i].name := exports[i].item.idx];
        }
      }
      assert exports[..|exports|] == exports;
      parsed := Progress.ParsedModule(functions, exported);
    }
  }

  lemma OpenBodies(b: Builder)
    requires Invariant.BuilderInv(b)
    ensures b.latest < 10 ==> forall i :: 0 <= i < |b.functions| ==> b.functions[i].meta.locals == []
  {
  }

  lemma NameAdded(seen: seq<Export>, e: Export)
    ensures forall name :: HasName(seen + [e], name) <==> HasName(seen, name) || name == e.name
  {
    assert (seen + [e])[|seen|] == e;
    forall name | HasName(seen, name)
      ensures HasName(seen + [e], name)
    {
      var i :| 0 <= i < |seen| && seen[i].name == name;
      assert (seen + [e])[i].name == name;
    }
  }

  lemma CodesTurn(done: seq<Function>, todo: seq<Function>, bs: seq<Byte>)
    ensures todo == [] ==> Prepend(done, ReadCodes(todo, bs)) == Ok(Parsed(done, bs))
    ensures todo != [] && ReadCode(todo[0], bs).Err? ==>
      Prepend(done, ReadCodes(todo, bs)) == Err(ReadCode(todo[0], bs).error)
    ensures todo != [] && ReadCode(todo[0], bs).Ok? ==>
      var f := ReadCode(todo[0], bs).value;
      Prepend(done, ReadCodes(todo, bs)) == Prepend(done + [f.value], ReadCodes(todo[1..], f.rest))
  {
    assert done + [] == done;
    if todo != [] && ReadCode(todo[0], bs).Ok? {
      var f := ReadCode(todo[0], bs).value;
      var more := ReadCodes(todo[1..], f.rest);
      if more.Ok? {
        assert done + ([f.value] + more.value.value) == done + [f.value] + more.value.value;
      }
    }
  }

  /** The contents of the sections that are handled in place. */
  lemma ContentsElsewhere(id: Byte, size: nat, b: Builder, bs: seq<Byte>)
    ensures id == 0 ==>
      ReadContents(id, size, b, bs) == if size > |bs| then Err(EndOfStream) else Ok(Parsed(b, bs[size..]))
    ensures id == 8 ==>
      var i := ReadIndex(|b.functions|, bs);
      ReadContents(id, size, b, bs) ==
      if i.Err? then Err(i.error) else Ok(Parsed(b.(start := Some(i.value.value)), i.value.rest))
    ensures id !in {0, 1, 2, 3, 4, 5, 6, 7, 8, 10} ==> ReadContents(id, size, b, bs) == Err(ParseError)
  {
    hide ReadU32, Vector;
  }

  method ParseModule(buffer: seq<Byte>) returns (r: Result<Progress.ParsedModule, Error>)
    ensures r == Progress.ReadModule(buffer)
  {
    var stream := new ByteStream(buffer);
    var builder := new ModuleBuilder();
    var _ :- builder.Parse(stream);
    var parsed := builder.Build();
    return Ok(parsed);
  }
}
