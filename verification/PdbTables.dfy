/**
 The tables of a standalone Portable PDB as the format lays them out: rows as values, each column in the
 narrower of the two widths that holds what it may refer to (ECMA-335 II.24.2.6, Portable PDB v1.0).
 Nothing here is taken from the reader; that its row sizes are these is what is proved.
 */
module PdbTables {
  import opened Bytes
  import opened Options
  import opened TablesStream
  import opened DebugTables

  // ----- the heap-size flags

  /** Heaps with four-byte references, four more bytes before the rows, and bits without a meaning here. */
  datatype HeapFlags = HeapFlags(
    strings: bool, guids: bool, blobs: bool, extraData: bool, others: (bool, bool, bool, bool))

  function FlagBits(f: HeapFlags): seq<bool> {
    [f.strings, f.guids, f.blobs, f.others.0, f.others.1, f.others.2, f.extraData, f.others.3]
  }

  function FlagByte(f: HeapFlags): byte {
    MaskBound(FlagBits(f), 1);
    Pow256Values();
    MaskOf(FlagBits(f))
  }

  /** Bits 0, 1, 2 and 6. */
  lemma FlagsRead(f: HeapFlags)
    ensures LargeStrings(FlagByte(f)) <==> f.strings
    ensures LargeGuids(FlagByte(f)) <==> f.guids
    ensures LargeBlobs(FlagByte(f)) <==> f.blobs
    ensures HasExtraData(FlagByte(f)) <==> f.extraData
  {
    hide MaskOf;
    var bits := FlagBits(f);
    MaskBit(bits, 0);
    MaskBit(bits, 1);
    MaskBit(bits, 2);
    MaskBit(bits, 6);
    LowBits(FlagByte(f));
  }

  lemma LowBits(b: nat)
    ensures Bit(b, 0) <==> b % 2 == 1
    ensures Bit(b, 1) <==> b / 0x02 % 2 == 1
    ensures Bit(b, 2) <==> b / 0x04 % 2 == 1
    ensures Bit(b, 6) <==> b / 0x40 % 2 == 1
  {
    hide Bit;
    Halves(b);
    LowBit(b);
    LowBit(b / 2);
    LowBit(b / 4);
    LowBit(b / 64);
    BitHalf(b, 1);
    BitHalf(b, 2);
    BitHalf(b / 2, 1);
    BitHalf(b, 6);
    BitHalf(b / 2, 5);
    BitHalf(b / 4, 4);
    BitHalf(b / 8, 3);
    BitHalf(b / 16, 2);
    BitHalf(b / 32, 1);
  }

  lemma LowBit(b: nat)
    ensures Bit(b, 0) <==> b % 2 == 1
  {}

  lemma BitHalf(b: nat, i: nat)
    requires i > 0
    ensures Bit(b, i) <==> Bit(b / 2, i - 1)
  {}

  lemma Halves(b: nat)
    ensures b / 2 / 2 == b / 4 && b / 4 / 2 == b / 8 && b / 8 / 2 == b / 16
    ensures b / 16 / 2 == b / 32 && b / 32 / 2 == b / 64
  {}

  // ----- rows

  datatype DocumentRow = DocumentRow(name: nat, hashAlgorithm: nat, hash: nat, language: nat)
  datatype MethodRow = MethodRow(document: nat, sequencePoints: nat)
  datatype ScopeRow = ScopeRow(
    methodDef: nat, importScope: nat, variables: nat, constants: nat, startOffset: nat, length: nat)
  datatype VariableRow = VariableRow(attributes: nat, index: nat, name: nat)
  datatype ConstantRow = ConstantRow(name: nat, signature: nat)
  datatype ImportRow = ImportRow(parent: nat, imports: nat)
  datatype MachineRow = MachineRow(moveNext: nat, kickoff: nat)
  datatype CustomRow = CustomRow(tag: nat, target: nat, kind: nat, value: nat)

  /** The rows of the tables 0x30 to 0x37. */
  datatype Rows = Rows(
    documents: seq<DocumentRow>, methods: seq<MethodRow>, scopes: seq<ScopeRow>, variables: seq<VariableRow>,
    constants: seq<ConstantRow>, imports: seq<ImportRow>, machines: seq<MachineRow>, customs: seq<CustomRow>)

  /** What a "#Pdb" stream says of the tables of the module that the file goes with. */
  datatype ExternalTables =
    | NoPdbStream
    | PdbStream(id: seq<byte>, entryPoint: nat, present: seq<bool>, counts: RowCounts)

  predicate CountsMatch(present: seq<bool>, counts: RowCounts) {
    && |present| == TABLE_COUNT
    && forall t | 0 <= t < TABLE_COUNT && !present[t] :: counts[t] == 0
  }

  predicate ValidExternal(e: ExternalTables) {
    e.PdbStream? ==> |e.id| == 20 && e.entryPoint < 0x1_0000_0000 && CountsMatch(e.present, e.counts)
  }

  /** How many rows of its own the file has of a table. */
  function OwnCount(rows: Rows, t: nat): nat {
    match t
    case 0x30 => |rows.documents|
    case 0x31 => |rows.methods|
    case 0x32 => |rows.scopes|
    case 0x33 => |rows.variables|
    case 0x34 => |rows.constants|
    case 0x35 => |rows.imports|
    case 0x36 => |rows.machines|
    case 0x37 => |rows.customs|
    case _ => 0
  }

  /** How many rows a reference into a table can mean: the file's own, or those of its module. */
  function RowsOf(rows: Rows, e: ExternalTables, t: Slot): nat {
    if t >= 0x30 then OwnCount(rows, t) else if e.PdbStream? then e.counts[t] else 0
  }

  // ----- widths

  datatype Widths = Widths(
    strings: nat, guids: nat, blobs: nat, document: nat, methodDef: nat, importScope: nat, variable: nat,
    constant: nat, parent: nat)

  function HeapWidth(large: bool): nat {
    if large then 4 else 2
  }

  /** Two bytes if they hold every row number, four if not. */
  function RowWidthFor(count: nat): nat {
    if count < Pow256(2) then 2 else 4
  }

  /** Portable PDB v1.0, "HasCustomDebugInformation": the tag of a table, if it has one. */
  function TagOf(t: nat): Option<nat> {
    match t
    case 0x06 => Some(0)
    case 0x04 => Some(1)
    case 0x01 => Some(2)
    case 0x02 => Some(3)
    case 0x08 => Some(4)
    case 0x09 => Some(5)
    case 0x0A => Some(6)
    case 0x00 => Some(7)
    case 0x0E => Some(8)
    case 0x17 => Some(9)
    case 0x14 => Some(10)
    case 0x11 => Some(11)
    case 0x1A => Some(12)
    case 0x1B => Some(13)
    case 0x20 => Some(14)
    case 0x23 => Some(15)
    case 0x26 => Some(16)
    case 0x27 => Some(17)
    case 0x28 => Some(18)
    case 0x2A => Some(19)
    case 0x2C => Some(20)
    case 0x2B => Some(21)
    case 0x30 => Some(22)
    case 0x32 => Some(23)
    case 0x33 => Some(24)
    case 0x34 => Some(25)
    case 0x35 => Some(26)
    case _ => None
  }

  /** Every reference from a Parent column fits two bytes. */
  predicate ParentsFitTwo(rows: Rows, e: ExternalTables) {
    forall t: Slot | TagOf(t).Some? :: EncodeParent(TagOf(t).value, RowsOf(rows, e, t)) < Pow256(2)
  }

  function WidthsOf(f: HeapFlags, rows: Rows, e: ExternalTables): Widths {
    Widths(HeapWidth(f.strings), HeapWidth(f.guids), HeapWidth(f.blobs),
           RowWidthFor(RowsOf(rows, e, 0x30)), RowWidthFor(RowsOf(rows, e, 0x06)), RowWidthFor(RowsOf(rows, e, 0x35)),
           RowWidthFor(RowsOf(rows, e, 0x33)), RowWidthFor(RowsOf(rows, e, 0x34)),
           if ParentsFitTwo(rows, e) then 2 else 4)
  }

  // ----- bytes

  function DocumentRowBytes(w: Widths, r: DocumentRow): (b: seq<byte>)
    ensures |b| == 2 * w.blobs + 2 * w.guids
  {
    LeBytes(r.name, w.blobs) + (LeBytes(r.hashAlgorithm, w.guids) +
    (LeBytes(r.hash, w.blobs) + LeBytes(r.language, w.guids)))
  }

  function MethodRowBytes(w: Widths, r: MethodRow): (b: seq<byte>)
    ensures |b| == w.document + w.blobs
  {
    LeBytes(r.document, w.document) + LeBytes(r.sequencePoints, w.blobs)
  }

  function ScopeRowBytes(w: Widths, r: ScopeRow): (b: seq<byte>)
    ensures |b| == w.methodDef + w.importScope + w.variable + w.constant + 8
  {
    LeBytes(r.methodDef, w.methodDef) + (LeBytes(r.importScope, w.importScope) +
    (LeBytes(r.variables, w.variable) + (LeBytes(r.constants, w.constant) +
    (LeBytes(r.startOffset, 4) + LeBytes(r.length, 4)))))
  }

  function VariableRowBytes(w: Widths, r: VariableRow): (b: seq<byte>)
    ensures |b| == 4 + w.strings
  {
    LeBytes(r.attributes, 2) + (LeBytes(r.index, 2) + LeBytes(r.name, w.strings))
  }

  function ConstantRowBytes(w: Widths, r: ConstantRow): (b: seq<byte>)
    ensures |b| == w.strings + w.blobs
  {
    LeBytes(r.name, w.strings) + LeBytes(r.signature, w.blobs)
  }

  function ImportRowBytes(w: Widths, r: ImportRow): (b: seq<byte>)
    ensures |b| == w.importScope + w.blobs
  {
    LeBytes(r.parent, w.importScope) + LeBytes(r.imports, w.blobs)
  }

  function MachineRowBytes(w: Widths, r: MachineRow): (b: seq<byte>)
    ensures |b| == 2 * w.methodDef
  {
    LeBytes(r.moveNext, w.methodDef) + LeBytes(r.kickoff, w.methodDef)
  }

  function CustomRowBytes(w: Widths, r: CustomRow): (b: seq<byte>)
    ensures |b| == w.parent + w.guids + w.blobs
  {
    LeBytes(EncodeParent(r.tag, r.target), w.parent) + (LeBytes(r.kind, w.guids) + LeBytes(r.value, w.blobs))
  }

  function DocumentRowsBytes(w: Widths, rows: seq<DocumentRow>): (b: seq<seq<byte>>)
    ensures |b| == |rows| && forall k | 0 <= k < |rows| :: b[k] == DocumentRowBytes(w, rows[k])
  {
    seq(|rows|, k requires 0 <= k < |rows| => DocumentRowBytes(w, rows[k]))
  }

  function CustomRowsBytes(w: Widths, rows: seq<CustomRow>): (b: seq<seq<byte>>)
    ensures |b| == |rows| && forall k | 0 <= k < |rows| :: b[k] == CustomRowBytes(w, rows[k])
  {
    seq(|rows|, k requires 0 <= k < |rows| => CustomRowBytes(w, rows[k]))
  }

  /** The rows of one table. */
  function RowsBytes(w: Widths, rows: Rows, t: nat): seq<seq<byte>> {
    match t
    case 0x30 => DocumentRowsBytes(w, rows.documents)
    case 0x31 => seq(|rows.methods|, k requires 0 <= k < |rows.methods| => MethodRowBytes(w, rows.methods[k]))
    case 0x32 => seq(|rows.scopes|, k requires 0 <= k < |rows.scopes| => ScopeRowBytes(w, rows.scopes[k]))
    case 0x33 => seq(|rows.variables|, k requires 0 <= k < |rows.variables| => VariableRowBytes(w, rows.variables[k]))
    case 0x34 => seq(|rows.constants|, k requires 0 <= k < |rows.constants| => ConstantRowBytes(w, rows.constants[k]))
    case 0x35 => seq(|rows.imports|, k requires 0 <= k < |rows.imports| => ImportRowBytes(w, rows.imports[k]))
    case 0x36 => seq(|rows.machines|, k requires 0 <= k < |rows.machines| => MachineRowBytes(w, rows.machines[k]))
    case 0x37 => CustomRowsBytes(w, rows.customs)
    case _ => []
  }

  // ----- the reader's widths are these

  /** The reader's shape of a file with these rows. */
  ghost predicate ShapeFits(s: Shape, f: HeapFlags, rows: Rows, e: ExternalTables) {
    && s.heapSizes == FlagByte(f)
    && forall t: Slot :: s.combined[t] == RowsOf(rows, e, t)
  }

  lemma HeapWidthsAre(s: Shape, f: HeapFlags)
    requires s.heapSizes == FlagByte(f)
    ensures ColumnWidth(s, StringRef) == HeapWidth(f.strings)
    ensures ColumnWidth(s, GuidRef) == HeapWidth(f.guids)
    ensures ColumnWidth(s, BlobRef) == HeapWidth(f.blobs)
  {
    hide FlagByte, LargeStrings, LargeGuids, LargeBlobs;
    FlagsRead(f);
  }

  /** A simple index takes two bytes exactly if they hold every row number of its table. */
  lemma SimpleIndexFits(s: Shape, t: Slot, row: nat)
    requires row <= s.combined[t]
    ensures row < Pow256(ColumnWidth(s, RowOf(t)))
    ensures ColumnWidth(s, RowOf(t)) == RowWidthFor(s.combined[t])
  {
    Pow256Values();
  }

  /** The list that the reader searches has exactly the tables with a tag, and 0x16 is that of Document. */
  lemma ReferencedAreTagged()
    ensures forall t: Slot :: t in REFERENCED <==> TagOf(t).Some?
    ensures TagOf(DOCUMENT) == Some(DOCUMENT_TAG)
    ensures forall t: Slot | TagOf(t).Some? :: TagOf(t).value < TAG_VALUES
  {}

  lemma ParentWidthIs(s: Shape, f: HeapFlags, rows: Rows, e: ExternalTables)
    requires ShapeFits(s, f, rows, e)
    ensures ColumnWidth(s, HasCustomDebugInformation) == if ParentsFitTwo(rows, e) then 2 else 4
  {
    hide FlagByte, RowsOf, TagOf, MaxRows, EncodeParent, WidthFrom, CodedIndexSize, ParentsFitTwo;
    ParentWidthIsCodedIndexSize(s.combined);
    AnyLarge(REFERENCED, s.combined);
    AllSmall(s.combined, rows, e);
  }

  lemma AllSmall(combined: RowCounts, rows: Rows, e: ExternalTables)
    requires forall t: Slot :: combined[t] == RowsOf(rows, e, t)
    ensures ParentsFitTwo(rows, e) <==> forall t <- REFERENCED :: combined[t] < LARGE_ROW_COUNT
  {
    hide RowsOf, TagOf, EncodeParent;
    ReferencedAreTagged();
    forall t: Slot | TagOf(t).Some?
      ensures EncodeParent(TagOf(t).value, RowsOf(rows, e, t)) < Pow256(2) <==> combined[t] < LARGE_ROW_COUNT
    {
      ParentThreshold(TagOf(t).value, RowsOf(rows, e, t));
    }
  }

  lemma {:induction false} AnyLarge(tables: seq<Slot>, combined: RowCounts)
    ensures WidthFrom(tables, combined) == if forall t <- tables :: combined[t] < LARGE_ROW_COUNT then 2 else 4
  {
    if tables != [] {
      AnyLarge(tables[1..], combined);
      assert forall t :: t in tables <==> t == tables[0] || t in tables[1..];
    }
  }

  /** Every table's rows take exactly as many bytes as the reader skips for them. */
  lemma RowsTake(s: Shape, f: HeapFlags, rows: Rows, e: ExternalTables, t: nat)
    requires ShapeFits(s, f, rows, e)
    ensures |Concat(RowsBytes(WidthsOf(f, rows, e), rows, t))| == RowWidth(s, t) * OwnCount(rows, t)
  {
    hide FlagByte, ColumnWidth, Concat, RowWidth, RowsOf, ParentsFitTwo, HeapWidth, RowWidthFor;
    var w := WidthsOf(f, rows, e);
    RowWidthIs(s, f, rows, e, t);
    ConcatWidth(RowsBytes(w, rows, t), RowWidth(s, t));
  }

  lemma RowWidthIs(s: Shape, f: HeapFlags, rows: Rows, e: ExternalTables, t: nat)
    requires ShapeFits(s, f, rows, e)
    ensures var b := RowsBytes(WidthsOf(f, rows, e), rows, t);
            |b| == OwnCount(rows, t) && forall k | 0 <= k < |b| :: |b[k]| == RowWidth(s, t)
  {
    hide WidthsOf, RowWidth, LeBytes;
    ReaderWidths(s, f, rows, e);
  }

  /** The reader's row sizes, by the format's widths. */
  lemma ReaderWidths(s: Shape, f: HeapFlags, rows: Rows, e: ExternalTables)
    requires ShapeFits(s, f, rows, e)
    ensures var w := WidthsOf(f, rows, e);
            && RowWidth(s, DOCUMENT) == 2 * w.blobs + 2 * w.guids
            && RowWidth(s, METHOD_DEBUG_INFORMATION) == w.document + w.blobs
            && RowWidth(s, LOCAL_SCOPE) == w.methodDef + w.importScope + w.variable + w.constant + 8
            && RowWidth(s, LOCAL_VARIABLE) == 4 + w.strings
            && RowWidth(s, LOCAL_CONSTANT) == w.strings + w.blobs
            && RowWidth(s, IMPORT_SCOPE) == w.importScope + w.blobs
            && RowWidth(s, STATE_MACHINE_METHOD) == 2 * w.methodDef
            && RowWidth(s, CUSTOM_DEBUG_INFORMATION) == w.parent + w.guids + w.blobs
            && w == WidthsIn(s)
  {
    hide FlagByte, ColumnWidth, RowWidth, RowsOf, ParentsFitTwo, HeapWidth, RowWidthFor;
    HeapWidthsAre(s, f);
    ParentWidthIs(s, f, rows, e);
    SimpleIndexFits(s, DOCUMENT, 0);
    SimpleIndexFits(s, METHOD_DEF, 0);
    SimpleIndexFits(s, LOCAL_VARIABLE, 0);
    SimpleIndexFits(s, LOCAL_CONSTANT, 0);
    SimpleIndexFits(s, IMPORT_SCOPE, 0);
    FixedWidth(s);
    RowWidthSums(s);
  }

  /** The reader's widths. */
  function WidthsIn(s: Shape): Widths {
    Widths(ColumnWidth(s, StringRef), ColumnWidth(s, GuidRef), ColumnWidth(s, BlobRef),
           ColumnWidth(s, RowOf(DOCUMENT)), ColumnWidth(s, RowOf(METHOD_DEF)), ColumnWidth(s, RowOf(IMPORT_SCOPE)),
           ColumnWidth(s, RowOf(LOCAL_VARIABLE)), ColumnWidth(s, RowOf(LOCAL_CONSTANT)),
           ColumnWidth(s, HasCustomDebugInformation))
  }

  lemma FixedWidth(s: Shape)
    ensures ColumnWidth(s, Fixed(2)) == 2 && ColumnWidth(s, Fixed(4)) == 4
  {}

  lemma RowWidthSums(s: Shape)
    ensures RowWidth(s, DOCUMENT) == 2 * ColumnWidth(s, BlobRef) + 2 * ColumnWidth(s, GuidRef)
    ensures RowWidth(s, METHOD_DEBUG_INFORMATION) == ColumnWidth(s, RowOf(DOCUMENT)) + ColumnWidth(s, BlobRef)
    ensures RowWidth(s, LOCAL_SCOPE)
         == ColumnWidth(s, RowOf(METHOD_DEF)) + ColumnWidth(s, RowOf(IMPORT_SCOPE))
            + ColumnWidth(s, RowOf(LOCAL_VARIABLE)) + ColumnWidth(s, RowOf(LOCAL_CONSTANT))
            + ColumnWidth(s, Fixed(4)) + ColumnWidth(s, Fixed(4))
    ensures RowWidth(s, LOCAL_VARIABLE)
         == ColumnWidth(s, Fixed(2)) + ColumnWidth(s, Fixed(2)) + ColumnWidth(s, StringRef)
    ensures RowWidth(s, LOCAL_CONSTANT) == ColumnWidth(s, StringRef) + ColumnWidth(s, BlobRef)
    ensures RowWidth(s, IMPORT_SCOPE) == ColumnWidth(s, RowOf(IMPORT_SCOPE)) + ColumnWidth(s, BlobRef)
    ensures RowWidth(s, STATE_MACHINE_METHOD) == ColumnWidth(s, RowOf(METHOD_DEF)) + ColumnWidth(s, RowOf(METHOD_DEF))
    ensures RowWidth(s, CUSTOM_DEBUG_INFORMATION)
         == ColumnWidth(s, HasCustomDebugInformation) + ColumnWidth(s, GuidRef) + ColumnWidth(s, BlobRef)
  {
    hide ColumnWidth, ColumnsWidth;
    FourColumns(s, BlobRef, GuidRef, BlobRef, GuidRef);
    TwoColumns(s, RowOf(DOCUMENT), BlobRef);
    SixColumns(s, RowOf(METHOD_DEF), RowOf(IMPORT_SCOPE), RowOf(LOCAL_VARIABLE), RowOf(LOCAL_CONSTANT),
               Fixed(4), Fixed(4));
    ThreeColumns(s, Fixed(2), Fixed(2), StringRef);
    TwoColumns(s, StringRef, BlobRef);
    TwoColumns(s, RowOf(IMPORT_SCOPE), BlobRef);
    TwoColumns(s, RowOf(METHOD_DEF), RowOf(METHOD_DEF));
    ThreeColumns(s, HasCustomDebugInformation, GuidRef, BlobRef);
  }
}
