/** The language of the parser as a grammar, apart from the reading functions: which bytes spell what, with the
    limits written out. A relation `XAt(bs, x, rest)` says that `bs` spells `x` and then goes on with `rest`. */
module BinaryGrammar {
  import opened Wrappers
  import opened WasmCore
  import Leb128
  import opened ByteStream
  import opened Validator
  import opened ParserSpec
  import opened ParserInvariant

  type Relation<!T> = (seq<Byte>, T, seq<Byte>) -> bool

  // ---------- numbers and lists ----------

  /** A terminated LEB128 of at most `cap` bytes, reduced modulo `m`. */
  ghost predicate NumberAt(cap: nat, m: nat, bs: seq<Byte>, v: nat, rest: seq<Byte>)
    requires m > 0
  {
    exists e :: bs == e + rest && Leb128.Terminated(e) && |e| <= cap && v == Leb128.UnsignedValue(e) % m
  }

  ghost predicate U32At(bs: seq<Byte>, v: nat, rest: seq<Byte>) {
    NumberAt(5, 0x1_0000_0000, bs, v, rest)
  }

  ghost predicate U64At(bs: seq<Byte>, v: nat, rest: seq<Byte>) {
    NumberAt(10, 0x1_0000_0000_0000_0000, bs, v, rest)
  }

  ghost predicate IndexAt(size: nat, bs: seq<Byte>, v: nat, rest: seq<Byte>) {
    v < size && U32At(bs, v, rest)
  }

  ghost predicate BytesAt(n: nat, bs: seq<Byte>, x: seq<Byte>, rest: seq<Byte>) {
    |x| == n && bs == x + rest
  }

  ghost predicate EachAt<T>(bs: seq<Byte>, xs: seq<T>, g: Relation<T>, rest: seq<Byte>)
    decreases |xs|
  {
    if xs == [] then bs == rest else exists mid :: g(bs, xs[0], mid) && EachAt(mid, xs[1..], g, rest)
  }

  ghost predicate VectorAt<T>(max: nat, bs: seq<Byte>, xs: seq<T>, g: Relation<T>, rest: seq<Byte>) {
    |xs| <= max && exists mid :: U32At(bs, |xs|, mid) && EachAt(mid, xs, g, rest)
  }

  // ---------- types and descriptions ----------

  ghost predicate ValTypeAt(bs: seq<Byte>, vt: ValType, rest: seq<Byte>) {
    || (vt == I32 && bs == [0x7F] + rest)
    || (vt == I64 && bs == [0x7E] + rest)
    || (vt == F32 && bs == [0x7D] + rest)
    || (vt == F64 && bs == [0x7C] + rest)
    || (vt == FuncRef && bs == [0x70] + rest)
    || (vt == ExternRef && bs == [0x6F] + rest)
  }

  ghost predicate SignatureAt(bs: seq<Byte>, s: BlockType, rest: seq<Byte>) {
    exists m0, m1 ::
      bs == [0x60] + m0 && VectorAt(6, m0, s.params, ValTypeAt, m1) && VectorAt(1, m1, s.results, ValTypeAt, rest)
  }

  ghost predicate NameAt(bs: seq<Byte>, name: seq<Byte>, rest: seq<Byte>) {
    |name| <= 256 && U32At(bs, |name|, name + rest)
  }

  ghost predicate LimitsAt(bs: seq<Byte>, l: Limits, rest: seq<Byte>) {
    exists m0, m1 ::
      && bs != [] && m0 == bs[1..] && U32At(m0, l.min, m1)
      && (if bs[0] == 0 then l.max == 0xFFFF_FFFF && m1 == rest else U32At(m1, l.max, rest))
  }

  ghost predicate TableTypeAt(bs: seq<Byte>, t: TableType, rest: seq<Byte>) {
    && (t.reftype == FuncRef || t.reftype == ExternRef)
    && exists m0 :: ValTypeAt(bs, t.reftype, m0) && LimitsAt(m0, t.limits, rest)
  }

  ghost predicate GlobalTypeAt(bs: seq<Byte>, g: GlobalType, rest: seq<Byte>) {
    exists m0 :: ValTypeAt(bs, g.valtype, m0) && m0 != [] && (g.mutable <==> m0[0] != 0) && rest == m0[1..]
  }

  /** An initialiser, without the end opcode. */
  ghost predicate ConstantAt(bs: seq<Byte>, c: Constant, rest: seq<Byte>) {
    && bs != []
    && (match c
        case U32(v) => bs[0] == 0x41 && U32At(bs[1..], v, rest)
        case U64(v) => bs[0] == 0x42 && U64At(bs[1..], v, rest)
        case Float(x) =>
          || (bs[0] == 0x43 && BytesAt(4, bs[1..], x, rest))
          || (bs[0] == 0x44 && BytesAt(8, bs[1..], x, rest)))
  }

  ghost predicate GlobalAt(bs: seq<Byte>, g: Global, rest: seq<Byte>) {
    exists m0 :: GlobalTypeAt(bs, g.globalType, m0) && ConstantAt(m0, g.value, rest)
  }

  ghost predicate DescriptionAt(signatures: nat, bs: seq<Byte>, d: Description, rest: seq<Byte>) {
    && bs != []
    && (match d
        case ImportedFunction(i) => bs[0] == 0 && IndexAt(signatures, bs[1..], i, rest)
        case ImportedTable(t) => bs[0] == 1 && TableTypeAt(bs[1..], t, rest)
        case ImportedMemory(l) => bs[0] == 2 && LimitsAt(bs[1..], l, rest)
        case ImportedGlobal(g) => bs[0] == 3 && GlobalTypeAt(bs[1..], g, rest))
  }

  ghost predicate ImportAt(signatures: nat, bs: seq<Byte>, i: Import, rest: seq<Byte>) {
    exists m0, m1 ::
      NameAt(bs, i.moduleName, m0) && NameAt(m0, i.name, m1) && DescriptionAt(signatures, m1, i.description, rest)
  }

  /** A function is declared by the index of its signature. */
  ghost predicate DeclarationAt(signatures: seq<BlockType>, bs: seq<Byte>, f: Function, rest: seq<Byte>) {
    exists i: nat :: IndexAt(|signatures|, bs, i, rest) && f == Function(Metadata(signatures[i], [], 0, 0), [])
  }

  ghost predicate ItemAt(s: Spaces, bs: seq<Byte>, item: Item, rest: seq<Byte>) {
    && bs != []
    && (match item
        case FuncItem(i) => bs[0] == 0 && IndexAt(s.functions, bs[1..], i, rest)
        case TableItem(i) => bs[0] == 1 && IndexAt(s.tables, bs[1..], i, rest)
        case MemoryItem(i) => bs[0] == 2 && IndexAt(s.memories, bs[1..], i, rest)
        case GlobalItem(i) => bs[0] == 3 && IndexAt(s.globals, bs[1..], i, rest))
  }

  ghost predicate ExportAt(s: Spaces, bs: seq<Byte>, e: Export, rest: seq<Byte>) {
    exists m0 :: NameAt(bs, e.name, m0) && ItemAt(s, m0, e.item, rest)
  }

  // ---------- functions ----------

  /** One instruction: its opcode, perhaps an immediate, and what the parser emits for it. */
  ghost predicate InstructionAt(bs: seq<Byte>, ops: seq<Op>, rest: seq<Byte>) {
    && bs != []
    && (|| (bs[0] == 0x04 && ops == [BrIf("then_0", "else_0"), Label("then_0")] && rest == bs[1..])
        || (bs[0] == 0x05 && ops == [Br("end_0"), Label("else_0")] && rest == bs[1..])
        || (bs[0] == 0x0F && ops == [Return] && rest == bs[1..])
        || (bs[0] == 0x20 && |ops| == 1 && ops[0].GetLocalI32? && U32At(bs[1..], ops[0].idx, rest))
        || (bs[0] == 0x21 && |ops| == 1 && ops[0].SetLocalI32? && U32At(bs[1..], ops[0].idx, rest))
        || (bs[0] == 0x41 && |ops| == 1 && ops[0].ConstI32? && U32At(bs[1..], ops[0].value, rest))
        || (bs[0] == 0x6A && ops == [AddI32] && rest == bs[1..]))
  }

  function Flat(groups: seq<seq<Op>>): seq<Op> {
    if groups == [] then [] else groups[0] + Flat(groups[1..])
  }

  /** Instructions and the end opcode; they are `ops`. */
  ghost predicate InstructionsAt(bs: seq<Byte>, ops: seq<Op>, rest: seq<Byte>) {
    exists groups :: Flat(groups) == ops && EachAt(bs, groups, InstructionAt, [0x0B] + rest)
  }

  /** ... that the validator accepts from `v` on, ending in `body.state`. */
  ghost predicate ExpressionAt(c: Context, v: VState, bs: seq<Byte>, body: Body, rest: seq<Byte>) {
    && InstructionsAt(bs, body.ops, rest)
    && VisitAll(c, v, body.ops).Some? && Finalize(c, VisitAll(c, v, body.ops).value) == Some(body.state)
  }

  /** Locals come in run-length groups. */
  datatype Group = Group(count: nat, vt: ValType)

  ghost predicate GroupAt(bs: seq<Byte>, g: Group, rest: seq<Byte>) {
    exists m0 :: U32At(bs, g.count, m0) && ValTypeAt(m0, g.vt, rest)
  }

  function Expand(groups: seq<Group>): seq<ValType> {
    if groups == [] then [] else seq(groups[0].count, _ => groups[0].vt) + Expand(groups[1..])
  }

  ghost predicate LocalsAt(n: nat, bs: seq<Byte>, locals: seq<ValType>, rest: seq<Byte>) {
    |locals| <= 256 && exists groups :: |groups| == n && Expand(groups) == locals && EachAt(bs, groups, GroupAt, rest)
  }

  /** The entry of a function that has been declared with this signature: its size in bytes, the locals, and the
      body with its marks cut to 32 bits. */
  ghost predicate CodeAt(s: BlockType, bs: seq<Byte>, f: Function, rest: seq<Byte>) {
    exists m0, m1, m2, n: nat, state ::
      && |m0| >= |rest| && U32At(bs, |m0| - |rest|, m0) && U32At(m0, n, m1) && LocalsAt(n, m1, f.meta.locals, m2)
      && ExpressionAt(Context(s.params + f.meta.locals, s.results), START, m2, Body(f.body, state), rest)
      && f.meta.signature == s
      && f.meta.maxStackBytes == state.maxUsage % 0x1_0000_0000
      && f.meta.maxStackElements == state.maxElements % 0x1_0000_0000
  }

  /** One entry for each declared function, in order. */
  ghost predicate CodesAt(declared: seq<Function>, bs: seq<Byte>, fs: seq<Function>, rest: seq<Byte>)
    decreases |declared|
  {
    if declared == [] then fs == [] && bs == rest
    else
      fs != [] && exists mid ::
        CodeAt(declared[0].meta.signature, bs, fs[0], mid) && CodesAt(declared[1..], mid, fs[1..], rest)
  }

  // ---------- sections and modules ----------

  ghost predicate ContentsAt(id: Byte, size: nat, b: Builder, bs: seq<Byte>, b': Builder, rest: seq<Byte>) {
    match id
    case 0 => b' == b && exists skipped :: |skipped| == size && bs == skipped + rest
    case 1 => exists xs :: VectorAt(0x2_0000, bs, xs, SignatureAt, rest) && b' == b.(signatures := b.signatures + xs)
    case 2 =>
      exists xs :: VectorAt(0x100, bs, xs, (c, x, r) => ImportAt(|b.signatures|, c, x, r), rest)
        && b' == b.(imports := b.imports + xs)
    case 3 =>
      exists xs :: VectorAt(0x1_0000, bs, xs, (c, x, r) => DeclarationAt(b.signatures, c, x, r), rest)
        && b' == b.(functions := b.functions + xs)
    case 4 => exists xs :: VectorAt(0x10, bs, xs, TableTypeAt, rest) && b' == b.(tables := b.tables + xs)
    case 5 => exists xs :: VectorAt(1, bs, xs, LimitsAt, rest) && b' == b.(memories := b.memories + xs)
    case 6 => exists xs :: VectorAt(0x400, bs, xs, GlobalAt, rest) && b' == b.(globals := b.globals + xs)
    case 7 =>
      exists xs :: DistinctNames(xs) && b' == b.(exports := b.exports + xs)
        && VectorAt(0x100, bs, xs,
                    (c, x, r) =>
                      ExportAt(Spaces(|b.functions|, |b.tables|, |b.memories|, |b.globals|), c, x, r), rest)
    case 8 => exists i: nat :: IndexAt(|b.functions|, bs, i, rest) && b' == b.(start := Some(i))
    case 10 =>
      exists m0, fs :: U32At(bs, |b.functions|, m0) && CodesAt(b.functions, m0, fs, rest) && b' == b.(functions := fs)
    case _ => false
  }

  /** Ids other than 0 increase. */
  ghost predicate SectionAt(b: Builder, bs: seq<Byte>, b': Builder, rest: seq<Byte>) {
    exists m0, size: nat ::
      && bs != [] && (bs[0] == 0 || bs[0] > b.latest) && U32At(bs[1..], size, m0)
      && ContentsAt(bs[0], size, if bs[0] == 0 then b else b.(latest := bs[0]), m0, b', rest)
  }

  ghost predicate SectionsAt(b: Builder, bs: seq<Byte>, b': Builder)
    decreases |bs|
  {
    if bs == [] then b' == b
    else exists m: Builder, mid: seq<Byte> :: |mid| < |bs| && SectionAt(b, bs, m, mid) && SectionsAt(m, mid, b')
  }

  /** The magic bytes, version 1, and sections. */
  ghost predicate IsModule(bs: seq<Byte>, b: Builder) {
    exists sections ::
      && bs == [0x00, 0x61, 0x73, 0x6D] + ([0x01, 0x00, 0x00, 0x00] + sections)
      && SectionsAt(Builder(0, [], [], [], [], [], [], [], None), sections, b)
  }
}
