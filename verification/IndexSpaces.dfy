/** What an index of a module denotes, in the binary format and to the parser. */
module IndexSpaces {
  import opened Wrappers
  import opened WasmCore
  import opened ByteStream
  import opened ParserSpec
  import opened ParserProgress
  import opened ParserInvariant
  import opened ModuleEncoding
  import opened ParserRoundTrip

  datatype Entity = Imported(position: nat) | Own(position: nat)

  predicate SameKind(item: Item, d: Description) {
    match item
    case FuncItem(_) => d.ImportedFunction?
    case TableItem(_) => d.ImportedTable?
    case MemoryItem(_) => d.ImportedMemory?
    case GlobalItem(_) => d.ImportedGlobal?
  }

  /** How many entities of the item's kind are imported. */
  function ImportedCount(item: Item, ms: seq<Import>): nat {
    if ms == [] then 0 else (if SameKind(item, ms[0].description) then 1 else 0) + ImportedCount(item, ms[1..])
  }

  /** How many the module has of its own. */
  function OwnCount(item: Item, s: Spaces): nat {
    match item
    case FuncItem(_) => s.functions
    case TableItem(_) => s.tables
    case MemoryItem(_) => s.memories
    case GlobalItem(_) => s.globals
  }

  /** Section 2.5.1 of the WebAssembly Core Specification: an index space begins with what is imported. */
  function Meant(b: Builder, item: Item): Option<Entity> {
    var n := ImportedCount(item, b.imports);
    if item.idx < n then Some(Imported(item.idx))
    else if item.idx < n + OwnCount(item, SpacesOf(b)) then Some(Own(item.idx - n))
    else None
  }

  /** The parser's spaces have what is the module's own, and nothing else. */
  function Found(b: Builder, item: Item): Option<Entity> {
    if InSpace(SpacesOf(b), item) then Some(Own(item.idx)) else None
  }

  /** An index denotes to the parser what it does in the format if and only if nothing of its kind is imported
      or it lies beyond both spaces. */
  lemma IndexReadExactly(b: Builder, item: Item)
    ensures var n := ImportedCount(item, b.imports);
      Found(b, item) == Meant(b, item) <==> n == 0 || item.idx >= n + OwnCount(item, SpacesOf(b))
  {
  }

  /** The parser reads an item, as the export section has it, if and only if it takes the index for one of the
      module's own. */
  lemma ItemReadExactly(b: Builder, item: Item, rest: seq<Byte>)
    requires SmallSpaces(SpacesOf(b)) && item.idx < TWO_32
    ensures ReadItem(SpacesOf(b), [ItemCode(item)] + EncodeLength(item.idx) + rest)
         == if Found(b, item).Some? then Ok(Parsed(item, rest)) else Err(ParseError)
  {
    hide ReadU32, EncodeLength;
    Assoc([ItemCode(item)], EncodeLength(item.idx), rest);
    ByteBack(ItemCode(item), EncodeLength(item.idx) + rest);
    U32Back(item.idx, rest);
  }

  // ---------- whole modules with one export ----------

  function WithExport(m: ModuleSource, e: Export): ModuleSource {
    m.(exports := [e])
  }

  lemma ExportSize(e: Export)
    requires |e.name| <= MAX_NAME_LENGTH
    ensures |EncodeVector([e], EncodeExport)| < TWO_32
  {
    ShortLength(|e.name|);
    ShortLength(e.item.idx);
    ShortLength(1);
    hide EncodeLength;
    assert Concat([e], EncodeExport) == EncodeExport(e) + Concat([e][1..], EncodeExport) && [e][1..] == [];
  }

  lemma ExportGood(m: ModuleSource, e: Export)
    requires GoodModule(m) && |e.name| <= MAX_NAME_LENGTH && InSpace(SpacesIn(m), e.item)
    ensures GoodModule(WithExport(m, e))
  {
    ExportSize(e);
    SamePayloads(m, e);
    hide GoodSource, GoodImport, GoodTable, NoVector, LimitedSignatures, EncodeVector, InSpace, SpacesIn;
    hide TypePayload, ImportPayload, FunctionPayload, TablePayload, MemoryPayload, CodePayload, ExportPayload;
  }

  lemma SamePayloads(m: ModuleSource, e: Export)
    ensures var m' := WithExport(m, e);
      && TypePayload(m') == TypePayload(m) && ImportPayload(m') == ImportPayload(m)
      && FunctionPayload(m') == FunctionPayload(m) && TablePayload(m') == TablePayload(m)
      && MemoryPayload(m') == MemoryPayload(m) && CodePayload(m') == CodePayload(m)
      && ExportPayload(m') == EncodeVector([e], EncodeExport) && SpacesIn(m') == SpacesIn(m)
  {
    hide EncodeVector;
  }

  /** A section whose contents are refused. */
  lemma SectionRefused(b: Builder, id: Byte, payload: seq<Byte>, rest: seq<Byte>)
    requires |payload| < TWO_32 && id != 0 && id > b.latest
    requires ReadContents(id, |payload|, b.(latest := id), payload + rest).Err?
    ensures ReadSections(b, Section(id, payload) + rest).Err?
  {
    hide ReadContents, ReadSections, ReadU32, EncodeLength;
    var tail := EncodeLength(|payload|) + (payload + rest);
    var bs := Section(id, payload) + rest;
    assert bs == [id] + tail;
    ByteBack(id, tail);
    U32Back(|payload|, payload + rest);
    assert ReadSection(b, bs).Err?;
    hide ReadSection, Section;
    NextSection(b, bs);
  }

  lemma ExportRefused(b: Builder, e: Export, rest: seq<Byte>)
    requires SmallSpaces(SpacesOf(b)) && e.item.idx < TWO_32 && !InSpace(SpacesOf(b), e.item)
    requires |e.name| <= MAX_NAME_LENGTH && b.latest < 7
    ensures ReadSections(b, Section(7, EncodeVector([e], EncodeExport)) + rest).Err?
  {
    var payload := EncodeVector([e], EncodeExport);
    assert SpacesOf(b.(latest := 7)) == SpacesOf(b);
    ExportSize(e);
    hide EncodeVector, ReadContents, ReadSections, InSpace, SmallSpaces, SpacesOf;
    OneExportRefused(|payload|, b.(latest := 7), e, rest);
    SectionRefused(b, 7, payload, rest);
  }

  lemma OneExportRefused(size: nat, b: Builder, e: Export, rest: seq<Byte>)
    requires SmallSpaces(SpacesOf(b)) && e.item.idx < TWO_32 && !InSpace(SpacesOf(b), e.item)
    requires |e.name| <= MAX_NAME_LENGTH
    ensures ReadContents(7, size, b, EncodeVector([e], EncodeExport) + rest).Err?
  {
    ItemReadExactly(b, e.item, rest);
    hide *;
    CountBack([e], EncodeExport, rest);
    ItemRefused(SpacesOf(b), e, rest);
    RefusedContents(size, b, EncodeVector([e], EncodeExport) + rest, Concat([e], EncodeExport) + rest);
  }

  lemma ItemRefused(s: Spaces, e: Export, rest: seq<Byte>)
    requires |e.name| <= MAX_NAME_LENGTH && ReadItem(s, [ItemCode(e.item)] + EncodeLength(e.item.idx) + rest).Err?
    ensures ReadExport(s, Concat([e], EncodeExport) + rest).Err?
  {
    hide ReadName, EncodeName, ReadItem, EncodeLength, ItemCode;
    var item := [ItemCode(e.item)] + EncodeLength(e.item.idx);
    assert [e][1..] == [];
    assert Concat([e], EncodeExport) + rest == EncodeName(e.name) + (item + rest);
    NameBack(e.name, item + rest);
  }

  lemma RefusedContents(size: nat, b: Builder, bs: seq<Byte>, tail: seq<Byte>)
    requires ReadU32(bs) == Ok(Parsed(1, tail)) && ReadExport(SpacesOf(b), tail).Err?
    ensures ReadContents(7, size, b, bs).Err?
  {
    hide ReadU32, ReadExport, SpacesOf;
    assert ReadExports(SpacesOf(b), 1, [], tail).Err?;
  }

  /** A module with one export, of any kind and index: it is read if and only if the parser takes the index
      for one of the module's own, and then that is what the name stands for. */
  lemma ExportReadExactly(m: ModuleSource, x: Extras, e: Export)
    requires GoodModule(m) && GoodExtras(x) && |e.name| <= MAX_NAME_LENGTH && e.item.idx < TWO_32
    ensures var r := ReadBuilder(EncodeModule(WithExport(m, e), x));
      && (r.Ok? <==> InSpace(SpacesIn(m), e.item))
      && (r.Ok? ==> r.value.exports == [e] && r.value.imports == AllImports(m.imports)
                    && SpacesOf(r.value) == SpacesIn(m))
  {
    if InSpace(SpacesIn(m), e.item) {
      ExportGood(m, e);
      FunctionLimits(m);
      ParserReadsEncoding(WithExport(m, e), x);
      hide GoodModule, GoodSource, ReadBuilder, EncodeModule, DistinctNames, BodyReadsRight, ReadModule, GoodExtras;
      hide Latest;
    } else {
      ExportLimits(m);
      RefusedExport(m, x, e);
    }
  }

  lemma RefusedExport(m: ModuleSource, x: Extras, e: Export)
    requires GoodModule(m) && GoodExtras(x) && |e.name| <= MAX_NAME_LENGTH && e.item.idx < TWO_32
    requires !InSpace(SpacesIn(m), e.item) && SmallSpaces(SpacesIn(m))
    ensures ReadBuilder(EncodeModule(WithExport(m, e), x)).Err?
  {
    var m' := WithExport(m, e);
    SameEarlier(m, e, x);
    assert SpacesOf(BuiltUpTo(m, x, 6)) == SpacesIn(m);
    GapSmall(x, 6);
    hide GoodModule, GoodExtras, SmallCustoms, ReadSections, BuiltUpTo, AfterMemories, Customs, Earlier;
    hide ReadBuilder, Listed, EncodeLength, InSpace, SmallSpaces, SpacesIn, SpacesOf, CodePayload;
    hide StartPayload, Has;
    hide EncodeVector, Section;
    HeaderBack(AfterHeader(m', x));
    EarlierSections(m, x, AfterMemories(m', x));
    var r2, r1 := SameMemories(m, e, x);
    GlobalsStep(m, x, r1);
    CustomsBack(BuiltUpTo(m, x, 6), x.Gap(6), Section(7, EncodeVector([e], EncodeExport)) + r2);
    ExportRefused(BuiltUpTo(m, x, 6), e, r2);
  }

  /** An export changes nothing in the sections before the export section. */
  lemma SameEarlier(m: ModuleSource, e: Export, x: Extras)
    ensures forall rest :: Earlier(WithExport(m, e), x, rest) == Earlier(m, x, rest)
  {
    hide Listed, Customs, EncodeVector;
  }

  lemma SameMemories(m: ModuleSource, e: Export, x: Extras) returns (r2: seq<Byte>, r1: seq<Byte>)
    ensures AfterMemories(WithExport(m, e), x) == x.At(5) + (Listed(6, EncodeLength(0), 6 in x.empties) + r1)
    ensures r1 == Customs(x.Gap(6)) + (Section(7, EncodeVector([e], EncodeExport)) + r2)
  {
    var m' := WithExport(m, e);
    r2 := x.At(7) + (Listed(8, StartPayload(m'), m'.start.Some?) + (
          x.At(8) + (Listed(10, CodePayload(m'), Has(x, 10, m'.functions)) + x.At(9))));
    r1 := x.At(6) + (Listed(7, ExportPayload(m'), Has(x, 7, m'.exports)) + r2);
    hide EncodeVector, Customs, Section, EncodeLength;
  }
}
