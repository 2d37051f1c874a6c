/** The module parser as functions from the remaining bytes to a value and the bytes behind it (sections
    5.4 and 5.5 of the WebAssembly Core Specification, as far as the repository reads them). */
module ParserSpec {
  import opened Wrappers
  import opened WasmCore
  import opened ByteStream
  import opened Validator
  import opened ValidatorBounds
  import Bits
  import Leb128

  datatype Parsed<+T> = Parsed(value: T, rest: seq<Byte>)

  type Answer<+T> = Result<Parsed<T>, Error>

  const MAX_FUNCTIONS := 0x1_0000
  const MAX_FUNCTION_LOCALS := 0x100
  const MAX_FUNCTION_PARAMETERS := 6
  const MAX_FUNCTION_RESULTS := 1
  const MAX_FUNCTION_SIGNATURES := 0x2_0000
  const MAX_IMPORTS := 0x100
  const MAX_TABLES := 0x10
  const MAX_MEMORIES := 1
  const MAX_GLOBALS := 0x400
  const MAX_EXPORTS := 0x100
  const MAX_NAME_LENGTH := 0x100

  const U32_TYPE := Leb128.IntType(32, false)
  const U64_TYPE := Leb128.IntType(64, false)

  function ReadByte(bs: seq<Byte>): (r: Answer<Byte>)
    ensures r.Ok? ==> |r.value.rest| < |bs|
  {
    if bs == [] then Err(EndOfStream) else Ok(Parsed(bs[0], bs[1..]))
  }

  function ReadBytes(n: nat, bs: seq<Byte>): (r: Answer<seq<Byte>>)
    ensures r.Ok? ==> |r.value.rest| <= |bs|
  {
    if n > |bs| then Err(EndOfStream) else Ok(Parsed(bs[..n], bs[n..]))
  }

  function ReadU32(bs: seq<Byte>): (r: Answer<Word>)
    ensures r.Ok? ==> |r.value.rest| < |bs|
  {
    var d :- Leb128.Decode(U32_TYPE, bs);
    DecodedWord(bs);
    Ok(Parsed(d.value, d.rest))
  }

  lemma DecodedWord(bs: seq<Byte>)
    ensures var d := Leb128.Decode(U32_TYPE, bs);
      d.Ok? ==> 0 <= d.value.value < TWO_32
  {
    Bits.TwoTo32();
  }

  function ReadU64(bs: seq<Byte>): (r: Answer<nat>)
    ensures r.Ok? ==> |r.value.rest| < |bs|
  {
    var d :- Leb128.Decode(U64_TYPE, bs);
    DecodedQuad(bs);
    Ok(Parsed(d.value, d.rest))
  }

  lemma DecodedQuad(bs: seq<Byte>)
    ensures var d := Leb128.Decode(U64_TYPE, bs); d.Ok? ==> 0 <= d.value.value
  {
  }

  function ValTypeCode(vt: ValType): Byte {
    match vt
    case I32 => 0x7F
    case I64 => 0x7E
    case F32 => 0x7D
    case F64 => 0x7C
    case V128 => 0x7B
    case FuncRef => 0x70
    case ExternRef => 0x6F
  }

  function ReadValType(bs: seq<Byte>): (r: Answer<ValType>)
    ensures r.Ok? ==> |r.value.rest| < |bs|
  {
    var b :- ReadByte(bs);
    match b.value
    case 0x7F => Ok(Parsed(I32, b.rest))
    case 0x7E => Ok(Parsed(I64, b.rest))
    case 0x7D => Ok(Parsed(F32, b.rest))
    case 0x7C => Ok(Parsed(F64, b.rest))
    case 0x70 => Ok(Parsed(FuncRef, b.rest))
    case 0x6F => Ok(Parsed(ExternRef, b.rest))
    case _ => Err(ParseError)
  }

  /** `n` values one after the other. */
  function Many<T>(n: nat, bs: seq<Byte>, read: seq<Byte> -> Answer<T>): (r: Answer<seq<T>>)
    ensures r.Ok? ==> |r.value.value| == n
  {
    if n == 0 then Ok(Parsed([], bs))
    else
      var first :- read(bs);
      var rest :- Many(n - 1, first.rest, read);
      Ok(Parsed([first.value] + rest.value, rest.rest))
  }

  /** A length, at most `max`, and that many values. */
  function Vector<T>(max: nat, bs: seq<Byte>, read: seq<Byte> -> Answer<T>): Answer<seq<T>> {
    var n :- ReadU32(bs);
    if n.value > max then Err(ModuleTooLarge) else Many(n.value, n.rest, read)
  }

  function ReadSignature(bs: seq<Byte>): Answer<BlockType> {
    var magic :- ReadByte(bs);
    if magic.value != 0x60 then Err(ParseError) else
    var params :- Vector(MAX_FUNCTION_PARAMETERS, magic.rest, ReadValType);
    var results :- Vector(MAX_FUNCTION_RESULTS, params.rest, ReadValType);
    Ok(Parsed(BlockType(params.value, results.value), results.rest))
  }

  function ReadName(bs: seq<Byte>): Answer<seq<Byte>> {
    var n :- ReadU32(bs);
    if n.value > MAX_NAME_LENGTH then Err(ParseError) else ReadBytes(n.value, n.rest)
  }

  /** An index below `size`. */
  function ReadIndex(size: nat, bs: seq<Byte>): Answer<nat> {
    var i :- ReadU32(bs);
    if i.value >= size then Err(ParseError) else Ok(Parsed(i.value, i.rest))
  }

  // ---------- tables, memories, globals, imports ----------

  /** Without a maximum the maximum is the largest there is. */
  datatype Limits = Limits(min: Word, max: Word)

  function ReadLimits(bs: seq<Byte>): Answer<Limits> {
    var bounded :- ReadByte(bs);
    var min :- ReadU32(bounded.rest);
    if bounded.value == 0 then Ok(Parsed(Limits(min.value, TWO_32 - 1), min.rest))
    else
      var max :- ReadU32(min.rest);
      Ok(Parsed(Limits(min.value, max.value), max.rest))
  }

  datatype TableType = TableType(limits: Limits, reftype: ValType)

  function ReadTableType(bs: seq<Byte>): Answer<TableType> {
    var reftype :- ReadValType(bs);
    if reftype.value != ExternRef && reftype.value != FuncRef then Err(ParseError) else
    var limits :- ReadLimits(reftype.rest);
    Ok(Parsed(TableType(limits.value, reftype.value), limits.rest))
  }

  datatype GlobalType = GlobalType(valtype: ValType, mutable: bool)

  function ReadGlobalType(bs: seq<Byte>): Answer<GlobalType> {
    var valtype :- ReadValType(bs);
    var mutable :- ReadByte(valtype.rest);
    Ok(Parsed(GlobalType(valtype.value, mutable.value != 0), mutable.rest))
  }

  /** Floating-point constants are kept as their bytes. */
  datatype Constant = U32(word: Word) | U64(quad: nat) | Float(bytes: seq<Byte>)

  /** The opcode and its immediate. The end opcode behind it is not read. */
  function ReadConstExpr(bs: seq<Byte>): Answer<Constant> {
    var opcode :- ReadByte(bs);
    match opcode.value
    case 0x41 => var v :- ReadU32(opcode.rest); Ok(Parsed(U32(v.value), v.rest))
    case 0x42 => var v :- ReadU64(opcode.rest); Ok(Parsed(U64(v.value), v.rest))
    case 0x43 => var f :- ReadBytes(4, opcode.rest); Ok(Parsed(Float(f.value), f.rest))
    case 0x44 => var f :- ReadBytes(8, opcode.rest); Ok(Parsed(Float(f.value), f.rest))
    case _ => Err(ParseError)
  }

  datatype Global = Global(globalType: GlobalType, value: Constant)

  function ReadGlobal(bs: seq<Byte>): Answer<Global> {
    var globalType :- ReadGlobalType(bs);
    var value :- ReadConstExpr(globalType.rest);
    Ok(Parsed(Global(globalType.value, value.value), value.rest))
  }

  datatype Description =
    | ImportedFunction(typeIdx: nat)
    | ImportedTable(table: TableType)
    | ImportedMemory(limits: Limits)
    | ImportedGlobal(global: GlobalType)

  datatype Import = Import(moduleName: seq<Byte>, name: seq<Byte>, description: Description)

  function ReadDescription(signatures: nat, bs: seq<Byte>): Answer<Description> {
    var kind :- ReadByte(bs);
    match kind.value
    case 0 => var i :- ReadIndex(signatures, kind.rest); Ok(Parsed(ImportedFunction(i.value), i.rest))
    case 1 => var t :- ReadTableType(kind.rest); Ok(Parsed(ImportedTable(t.value), t.rest))
    case 2 => var l :- ReadLimits(kind.rest); Ok(Parsed(ImportedMemory(l.value), l.rest))
    case 3 => var g :- ReadGlobalType(kind.rest); Ok(Parsed(ImportedGlobal(g.value), g.rest))
    case _ => Err(ParseError)
  }

  function ReadImport(signatures: nat, bs: seq<Byte>): Answer<Import> {
    var moduleName :- ReadName(bs);
    var name :- ReadName(moduleName.rest);
    var description :- ReadDescription(signatures, name.rest);
    Ok(Parsed(Import(moduleName.value, name.value, description.value), description.rest))
  }

  function Imports(signatures: nat): seq<Byte> -> Answer<Import> {
    bs => ReadImport(signatures, bs)
  }

  // ---------- the builder ----------

  datatype Item = FuncItem(idx: nat) | TableItem(idx: nat) | MemoryItem(idx: nat) | GlobalItem(idx: nat)

  datatype Export = Export(name: seq<Byte>, item: Item)

  datatype Builder = Builder(
    latest: nat,                // id of the last section that is not custom
    signatures: seq<BlockType>,
    imports: seq<Import>,
    functions: seq<Function>,
    tables: seq<TableType>,
    memories: seq<Limits>,
    globals: seq<Global>,
    exports: seq<Export>,
    start: Option<nat>)

  const FRESH := Builder(0, [], [], [], [], [], [], [], None)

  /** The sizes of the index spaces. What is imported does not count. */
  datatype Spaces = Spaces(functions: nat, tables: nat, memories: nat, globals: nat)

  function SpacesOf(b: Builder): Spaces {
    Spaces(|b.functions|, |b.tables|, |b.memories|, |b.globals|)
  }

  predicate InSpace(s: Spaces, item: Item) {
    match item
    case FuncItem(i) => i < s.functions
    case TableItem(i) => i < s.tables
    case MemoryItem(i) => i < s.memories
    case GlobalItem(i) => i < s.globals
  }

  function Declared(signature: BlockType): Function {
    Function(Metadata(signature, [], 0, 0), [])
  }

  function ReadDeclaration(signatures: seq<BlockType>, bs: seq<Byte>): Answer<Function> {
    var i :- ReadIndex(|signatures|, bs);
    Ok(Parsed(Declared(signatures[i.value]), i.rest))
  }

  function Declarations(signatures: seq<BlockType>): seq<Byte> -> Answer<Function> {
    bs => ReadDeclaration(signatures, bs)
  }

  function ReadItem(s: Spaces, bs: seq<Byte>): Answer<Item> {
    var kind :- ReadByte(bs);
    match kind.value
    case 0 => var i :- ReadIndex(s.functions, kind.rest); Ok(Parsed(FuncItem(i.value), i.rest))
    case 1 => var i :- ReadIndex(s.tables, kind.rest); Ok(Parsed(TableItem(i.value), i.rest))
    case 2 => var i :- ReadIndex(s.memories, kind.rest); Ok(Parsed(MemoryItem(i.value), i.rest))
    case 3 => var i :- ReadIndex(s.globals, kind.rest); Ok(Parsed(GlobalItem(i.value), i.rest))
    case _ => Err(ParseError)
  }

  function ReadExport(s: Spaces, bs: seq<Byte>): Answer<Export> {
    var name :- ReadName(bs);
    var item :- ReadItem(s, name.rest);
    Ok(Parsed(Export(name.value, item.value), item.rest))
  }

  predicate HasName(exports: seq<Export>, name: seq<Byte>) {
    exists i :: 0 <= i < |exports| && exports[i].name == name
  }

  /** `n` more exports; a repeated name is refused as soon as it is read. */
  function ReadExports(s: Spaces, n: nat, seen: seq<Export>, bs: seq<Byte>): Answer<seq<Export>> {
    if n == 0 then Ok(Parsed(seen, bs))
    else
      var e :- ReadExport(s, bs);
      if HasName(seen, e.value.name) then Err(ParseError)
      else ReadExports(s, n - 1, seen + [e.value], e.rest)
  }

  /** `n` more run-length groups of locals. */
  function ReadLocals(n: nat, locals: seq<ValType>, bs: seq<Byte>): Answer<seq<ValType>> {
    if n == 0 then Ok(Parsed(locals, bs))
    else
      var count :- ReadU32(bs);
      if count.value + |locals| > MAX_FUNCTION_LOCALS then Err(ModuleTooLarge) else
      var vt :- ReadValType(count.rest);
      ReadLocals(n - 1, locals + seq(count.value, _ => vt.value), vt.rest)
  }

  datatype Body = Body(ops: seq<Op>, state: VState)

  /** One opcode other than `end`: the instructions it stands for. */
  function ReadOpcode(opcode: Byte, bs: seq<Byte>): (r: Answer<seq<Op>>)
    ensures r.Ok? ==> |r.value.rest| <= |bs|
  {
    match opcode
    case 0x04 => Ok(Parsed([BrIf("then_0", "else_0"), Label("then_0")], bs))
    case 0x05 => Ok(Parsed([Br("end_0"), Label("else_0")], bs))
    case 0x0F => Ok(Parsed([Return], bs))
    case 0x20 => var i :- ReadU32(bs); Ok(Parsed([GetLocalI32(i.value)], i.rest))
    case 0x21 => var i :- ReadU32(bs); Ok(Parsed([SetLocalI32(i.value)], i.rest))
    case 0x41 => var v :- ReadU32(bs); Ok(Parsed([ConstI32(v.value)], v.rest))
    case 0x6A => Ok(Parsed([AddI32], bs))
    case _ => Err(ParseError)
  }

  /** Instructions up to `end`, each validated as it is read. */
  function ReadExpression(c: Context, v: VState, bs: seq<Byte>): Answer<Body>
    decreases |bs|
  {
    var opcode :- ReadByte(bs);
    if opcode.value == 0x0B then
      var f := Finalize(c, v);
      if f.None? then Err(ValidationError) else Ok(Parsed(Body([], f.value), opcode.rest))
    else
      var ops :- ReadOpcode(opcode.value, opcode.rest);
      var v' := VisitAll(c, v, ops.value);
      if v'.None? then Err(ValidationError) else
      var more :- ReadExpression(c, v'.value, ops.rest);
      Ok(Parsed(Body(ops.value + more.value.ops, more.value.state), more.rest))
  }

  /** The body of one declared function; its size must be the declared one. */
  function ReadCode(f: Function, bs: seq<Byte>): Answer<Function> {
    var size :- ReadU32(bs);
    var groups :- ReadU32(size.rest);
    var locals :- ReadLocals(groups.value, f.meta.locals, groups.rest);
    var c := ContextOf(f.meta.signature, locals.value);
    var body :- ReadExpression(c, START, locals.rest);
    if |size.rest| - |body.rest| != size.value then Err(ParseError)
    else Ok(Parsed(Function(MetaOf(f.meta.signature, locals.value, body.value.state), body.value.ops), body.rest))
  }

  function ReadCodes(functions: seq<Function>, bs: seq<Byte>): (r: Answer<seq<Function>>)
    ensures r.Ok? ==> |r.value.value| == |functions|
    decreases |functions|
  {
    if functions == [] then Ok(Parsed([], bs))
    else
      var f :- ReadCode(functions[0], bs);
      var rest :- ReadCodes(functions[1..], f.rest);
      Ok(Parsed([f.value] + rest.value, rest.rest))
  }

  /** The contents of a section. The declared size is used for custom sections only. */
  function ReadContents(id: Byte, size: nat, b: Builder, bs: seq<Byte>): Answer<Builder> {
    match id
    case 0 => var skipped :- ReadBytes(size, bs); Ok(Parsed(b, skipped.rest))
    case 1 =>
      var ts :- Vector(MAX_FUNCTION_SIGNATURES, bs, ReadSignature);
      Ok(Parsed(b.(signatures := b.signatures + ts.value), ts.rest))
    case 2 =>
      var ms :- Vector(MAX_IMPORTS, bs, Imports(|b.signatures|));
      Ok(Parsed(b.(imports := b.imports + ms.value), ms.rest))
    case 3 =>
      var fs :- Vector(MAX_FUNCTIONS, bs, Declarations(b.signatures));
      Ok(Parsed(b.(functions := b.functions + fs.value), fs.rest))
    case 4 =>
      var ts :- Vector(MAX_TABLES, bs, ReadTableType);
      Ok(Parsed(b.(tables := b.tables + ts.value), ts.rest))
    case 5 =>
      var ms :- Vector(MAX_MEMORIES, bs, ReadLimits);
      Ok(Parsed(b.(memories := b.memories + ms.value), ms.rest))
    case 6 =>
      var gs :- Vector(MAX_GLOBALS, bs, ReadGlobal);
      Ok(Parsed(b.(globals := b.globals + gs.value), gs.rest))
    case 7 =>
      var n :- ReadU32(bs);
      if n.value > MAX_EXPORTS then Err(ModuleTooLarge) else
      var es :- ReadExports(SpacesOf(b), n.value, [], n.rest);
      Ok(Parsed(b.(exports := b.exports + es.value), es.rest))
    case 8 =>
      var i :- ReadIndex(|b.functions|, bs);
      Ok(Parsed(b.(start := Some(i.value)), i.rest))
    case 10 =>
      var n :- ReadU32(bs);
      if n.value != |b.functions| then Err(ParseError) else
      var fs :- ReadCodes(b.functions, n.rest);
      Ok(Parsed(b.(functions := fs.value), fs.rest))
    case _ => Err(ParseError)
  }

  /** One section: ids other than 0 must increase. */
  function ReadSection(b: Builder, bs: seq<Byte>): Answer<Builder> {
    var id :- ReadByte(bs);
    if id.value != 0 && id.value <= b.latest then Err(ParseError) else
    var b' := if id.value != 0 then b.(latest := id.value) else b;
    var size :- ReadU32(id.rest);
    ReadContents(id.value, size.value, b', size.rest)
  }
}
