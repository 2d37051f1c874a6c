/** The binary encoding of the modules the parser reads. */
module ModuleEncoding {
  import opened Wrappers
  import opened WasmCore
  import Leb128
  import opened ByteStream
  import opened Validator
  import opened ValidatorBounds
  import opened ParserSpec
  import opened ParserProgress
  import opened ParserInvariant
  import opened BinaryGrammar

  // ---------- encoders ----------

  function EncodeU32(n: Word): seq<Byte> {
    Leb128.EncodeUnsigned(n)
  }

  function Concat<T>(xs: seq<T>, encode: T -> seq<Byte>): seq<Byte> {
    if xs == [] then [] else encode(xs[0]) + Concat(xs[1..], encode)
  }

  function EncodeVector<T>(xs: seq<T>, encode: T -> seq<Byte>): seq<Byte> {
    EncodeLength(|xs|) + Concat(xs, encode)
  }

  /** Lengths that do not fit 32 bits are excluded by `GoodModule` below. */
  function EncodeLength(n: nat): seq<Byte> {
    if n < TWO_32 then EncodeU32(n) else []
  }

  function EncodeValType(vt: ValType): seq<Byte> {
    [ValTypeCode(vt)]
  }

  function EncodeSignature(s: BlockType): seq<Byte> {
    [0x60] + EncodeVector(s.params, EncodeValType) + EncodeVector(s.results, EncodeValType)
  }

  function EncodeName(name: seq<Byte>): seq<Byte> {
    EncodeLength(|name|) + name
  }

  function ItemCode(item: Item): Byte {
    match item
    case FuncItem(_) => 0
    case TableItem(_) => 1
    case MemoryItem(_) => 2
    case GlobalItem(_) => 3
  }

  function EncodeExport(e: Export): seq<Byte> {
    EncodeName(e.name) + ([ItemCode(e.item)] + EncodeLength(e.item.idx))
  }

  /** The format has limits with and without a maximum. */
  datatype Bounds = Bounds(min: Word, max: Option<Word>)

  function LimitsOf(b: Bounds): Limits {
    Limits(b.min, if b.max.Some? then b.max.value else TWO_32 - 1)
  }

  function EncodeBounds(b: Bounds): seq<Byte> {
    if b.max.None? then [0] + EncodeU32(b.min) else [1] + (EncodeU32(b.min) + EncodeU32(b.max.value))
  }

  datatype TableSource = TableSource(reftype: ValType, bounds: Bounds)

  function TableOf(t: TableSource): TableType {
    TableType(LimitsOf(t.bounds), t.reftype)
  }

  function EncodeTable(t: TableSource): seq<Byte> {
    EncodeValType(t.reftype) + EncodeBounds(t.bounds)
  }

  function EncodeGlobalType(g: GlobalType): seq<Byte> {
    EncodeValType(g.valtype) + [if g.mutable then 1 else 0]
  }

  datatype ImportedItem =
    | FunctionImport(typeIdx: nat)
    | TableImport(table: TableSource)
    | MemoryImport(bounds: Bounds)
    | GlobalImport(global: GlobalType)

  datatype ImportSource = ImportSource(moduleName: seq<Byte>, name: seq<Byte>, item: ImportedItem)

  function DescriptionOf(i: ImportedItem): Description {
    match i
    case FunctionImport(t) => ImportedFunction(t)
    case TableImport(t) => ImportedTable(TableOf(t))
    case MemoryImport(b) => ImportedMemory(LimitsOf(b))
    case GlobalImport(g) => ImportedGlobal(g)
  }

  function ImportOf(i: ImportSource): Import {
    Import(i.moduleName, i.name, DescriptionOf(i.item))
  }

  function EncodeDescription(i: ImportedItem): seq<Byte> {
    match i
    case FunctionImport(t) => [0] + EncodeLength(t)
    case TableImport(t) => [1] + EncodeTable(t)
    case MemoryImport(b) => [2] + EncodeBounds(b)
    case GlobalImport(g) => [3] + EncodeGlobalType(g)
  }

  function EncodeImport(i: ImportSource): seq<Byte> {
    EncodeName(i.moduleName) + (EncodeName(i.name) + EncodeDescription(i.item))
  }

  function EncodeGroup(g: Group): seq<Byte> {
    EncodeLength(g.count) + EncodeValType(g.vt)
  }

  function EncodeOp(op: Op): seq<Byte> {
    match op
    case Return => [0x0F]
    case GetLocalI32(i) => [0x20] + EncodeLength(i)
    case SetLocalI32(i) => [0x21] + EncodeLength(i)
    case ConstI32(v) => [0x41] + EncodeU32(v)
    case AddI32 => [0x6A]
    case _ => []
  }

  /** An instruction as an encoder writes it. The binary format has constants in signed LEB128; `Plain` has
      them in the unsigned form the parser expects. */
  datatype SourceOp = Plain(op: Op) | SignedConst(word: Word)

  function EncodeSource(s: SourceOp): seq<Byte> {
    match s
    case Plain(op) => EncodeOp(op)
    case SignedConst(w) => [0x41] + Leb128.EncodeSigned(Leb128.ToSigned(w))
  }

  /** The instruction that is meant, and the one the parser makes of it. */
  function Intended(s: SourceOp): Op {
    match s
    case Plain(op) => op
    case SignedConst(w) => ConstI32(w)
  }

  function AsRead(s: SourceOp): Op {
    match s
    case Plain(op) => op
    case SignedConst(w) =>
      Leb128.SignedReadExactly(w, []);
      ConstI32(Leb128.Misread(w))
  }

  function AllIntended(body: seq<SourceOp>): (ops: seq<Op>)
    ensures |ops| == |body| && forall i :: 0 <= i < |body| ==> ops[i] == Intended(body[i])
  {
    seq(|body|, i requires 0 <= i < |body| => Intended(body[i]))
  }

  function AllAsRead(body: seq<SourceOp>): (ops: seq<Op>)
    ensures |ops| == |body| && forall i :: 0 <= i < |body| ==> ops[i] == AsRead(body[i])
  {
    seq(|body|, i requires 0 <= i < |body| => AsRead(body[i]))
  }

  /** Constants that survive: written unsigned, or not negative, or in five bytes. */
  predicate ReadsRight(s: SourceOp) {
    s.SignedConst? ==> Leb128.ToSigned(s.word) >= 0 || Leb128.ToSigned(s.word) < -0x800_0000
  }

  /** A function body with its locals in run-length groups. */
  datatype FunctionSource = FunctionSource(typeIdx: nat, groups: seq<Group>, body: seq<SourceOp>)

  function EncodePayload(f: FunctionSource): seq<Byte> {
    EncodeVector(f.groups, EncodeGroup) + Concat(f.body, EncodeSource) + [0x0B]
  }

  function EncodeCode(f: FunctionSource): seq<Byte> {
    EncodeLength(|EncodePayload(f)|) + EncodePayload(f)
  }

  /** A module without globals: no global section of the format is read. */
  datatype ModuleSource = ModuleSource(
    types: seq<BlockType>,
    imports: seq<ImportSource>,
    functions: seq<FunctionSource>,
    tables: seq<TableSource>,
    memories: seq<Bounds>,
    exports: seq<Export>,
    start: Option<nat>)

  function Section(id: Byte, payload: seq<Byte>): seq<Byte> {
    [id] + EncodeLength(|payload|) + payload
  }

  function Customs(cs: seq<seq<Byte>>): seq<Byte> {
    if cs == [] then [] else Section(0, cs[0]) + Customs(cs[1..])
  }

  function TypeIndex(f: FunctionSource): seq<Byte> {
    EncodeLength(f.typeIdx)
  }

  function TypePayload(m: ModuleSource): seq<Byte> {
    EncodeVector(m.types, EncodeSignature)
  }

  function ImportPayload(m: ModuleSource): seq<Byte> {
    EncodeVector(m.imports, EncodeImport)
  }

  function FunctionPayload(m: ModuleSource): seq<Byte> {
    EncodeVector(m.functions, TypeIndex)
  }

  function TablePayload(m: ModuleSource): seq<Byte> {
    EncodeVector(m.tables, EncodeTable)
  }

  function MemoryPayload(m: ModuleSource): seq<Byte> {
    EncodeVector(m.memories, EncodeBounds)
  }

  function ExportPayload(m: ModuleSource): seq<Byte> {
    EncodeVector(m.exports, EncodeExport)
  }

  function CodePayload(m: ModuleSource): seq<Byte> {
    EncodeVector(m.functions, EncodeCode)
  }

  /** A section, or nothing. */
  function Listed(id: Byte, payload: seq<Byte>, listed: bool): seq<Byte> {
    if listed then Section(id, payload) else []
  }

  function StartPayload(m: ModuleSource): seq<Byte> {
    if m.start.None? then [] else EncodeLength(m.start.value)
  }

  /** An encoder's choices: custom sections at every boundary, and which sections are there although their
      list is empty. */
  datatype Extras = Extras(customs: seq<seq<seq<Byte>>>, empties: set<Byte>)
  {
    function Gap(i: nat): seq<seq<Byte>> {
      if i < |customs| then customs[i] else []
    }

    function At(i: nat): seq<Byte> {
      Customs(Gap(i))
    }
  }

  predicate Has<T>(x: Extras, id: Byte, list: seq<T>) {
    |list| > 0 || id in x.empties
  }

  function EncodeModule(m: ModuleSource, x: Extras): seq<Byte> {
    MAGIC + (VERSION + AfterHeader(m, x))
  }

  function AfterHeader(m: ModuleSource, x: Extras): seq<Byte> {
    Earlier(m, x, AfterMemories(m, x))
  }

  /** The sections that declare things, then `rest`. */
  function Earlier(m: ModuleSource, x: Extras, rest: seq<Byte>): seq<Byte> {
    x.At(0) + (Listed(1, TypePayload(m), Has(x, 1, m.types)) + (
    x.At(1) + (Listed(2, ImportPayload(m), Has(x, 2, m.imports)) + (
    x.At(2) + (Listed(3, FunctionPayload(m), Has(x, 3, m.functions)) + (
    x.At(3) + (Listed(4, TablePayload(m), Has(x, 4, m.tables)) + (
    x.At(4) + (Listed(5, MemoryPayload(m), Has(x, 5, m.memories)) + rest)))))))))
  }

  function AfterMemories(m: ModuleSource, x: Extras): seq<Byte> {
    x.At(5) + (Listed(6, EncodeLength(0), 6 in x.empties) + (
    x.At(6) + (Listed(7, ExportPayload(m), Has(x, 7, m.exports)) + (
    x.At(7) + (Listed(8, StartPayload(m), m.start.Some?) + (
    x.At(8) + (Listed(10, CodePayload(m), Has(x, 10, m.functions)) + x.At(9))))))))
  }

  // ---------- what is encoded ----------

  predicate Encodable(op: Op) {
    match op
    case Return => true
    case AddI32 => true
    case ConstI32(_) => true
    case GetLocalI32(i) => i < TWO_32
    case SetLocalI32(i) => i < TWO_32
    case _ => false
  }

  predicate NoVector(ts: seq<ValType>) {
    forall i :: 0 <= i < |ts| ==> ts[i] != V128
  }

  ghost predicate GoodSource(types: seq<BlockType>, f: FunctionSource) {
    && f.typeIdx < |types|
    && |f.groups| < TWO_32 && |EncodePayload(f)| < TWO_32
    && |Expand(f.groups)| <= MAX_FUNCTION_LOCALS
    && (forall i :: 0 <= i < |f.groups| ==> f.groups[i].vt != V128)
    && (forall i :: 0 <= i < |f.body| ==> Encodable(Intended(f.body[i])))
    && Check(ContextOf(types[f.typeIdx], Expand(f.groups)), AllIntended(f.body)).Some?
  }

  /** The function with its marks; `body` is its body as it is meant or as it is read. */
  function Loaded(types: seq<BlockType>, f: FunctionSource, body: seq<Op>): Function
    requires f.typeIdx < |types| && Check(ContextOf(types[f.typeIdx], Expand(f.groups)), AllIntended(f.body)).Some?
  {
    var locals := Expand(f.groups);
    var marks := Check(ContextOf(types[f.typeIdx], locals), AllIntended(f.body)).value;
    Function(MetaOf(types[f.typeIdx], locals, marks), body)
  }

  predicate GoodTable(t: TableSource) {
    t.reftype == FuncRef || t.reftype == ExternRef
  }

  predicate GoodImport(types: seq<BlockType>, i: ImportSource) {
    && |i.moduleName| <= MAX_NAME_LENGTH && |i.name| <= MAX_NAME_LENGTH
    && match i.item
       case FunctionImport(t) => t < |types|
       case TableImport(t) => GoodTable(t)
       case MemoryImport(_) => true
       case GlobalImport(g) => g.valtype != V128
  }

  /** The index spaces as the parser has them, without what is imported. */
  function SpacesIn(m: ModuleSource): Spaces {
    Spaces(|m.functions|, |m.tables|, |m.memories|, 0)
  }

  /** A module within the parser's limits, all of whose bodies are valid. */
  ghost predicate GoodModule(m: ModuleSource) {
    && |m.types| <= MAX_FUNCTION_SIGNATURES && LimitedSignatures(m.types)
    && (forall i :: 0 <= i < |m.types| ==> NoVector(m.types[i].params) && NoVector(m.types[i].results))
    && |m.imports| <= MAX_IMPORTS && (forall i :: 0 <= i < |m.imports| ==> GoodImport(m.types, m.imports[i]))
    && |m.functions| <= MAX_FUNCTIONS
    && (forall i :: 0 <= i < |m.functions| ==> GoodSource(m.types, m.functions[i]))
    && |m.tables| <= MAX_TABLES && (forall i :: 0 <= i < |m.tables| ==> GoodTable(m.tables[i]))
    && |m.memories| <= MAX_MEMORIES
    && |m.exports| <= MAX_EXPORTS && GoodExports(SpacesIn(m), m.exports)
    && (forall i :: 0 <= i < |m.exports| ==> |m.exports[i].name| <= MAX_NAME_LENGTH)
    && (m.start.Some? ==> m.start.value < |m.functions|)
    && |TypePayload(m)| < TWO_32 && |ImportPayload(m)| < TWO_32 && |FunctionPayload(m)| < TWO_32
    && |TablePayload(m)| < TWO_32 && |MemoryPayload(m)| < TWO_32
    && |ExportPayload(m)| < TWO_32 && |CodePayload(m)| < TWO_32
  }

  predicate SmallCustoms(cs: seq<seq<Byte>>) {
    forall i :: 0 <= i < |cs| ==> |cs[i]| < TWO_32
  }

  predicate GoodExtras(x: Extras) {
    forall i :: 0 <= i < |x.customs| ==> SmallCustoms(x.customs[i])
  }
}
