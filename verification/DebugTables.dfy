/**
 internal/pdb/table_layout.go, internal/pdb/has_custom_debug_info_tag.go and
 internal/pdb/debug_tables.go: how wide the rows of the debug tables are and where they lie.

 The row layouts are stated twice: as the column lists of the Portable PDB v1.0 specification
 (Schema) and as the sums the source computes (ComputeDebugTableLayout); the proof relates them.
 */
module DebugTables {
  import opened Bytes
  import opened Options
  import opened Results
  import opened TablesStream

  const METHOD_DEF := 0x06
  const DOCUMENT := 0x30
  const METHOD_DEBUG_INFORMATION := 0x31
  const LOCAL_SCOPE := 0x32
  const LOCAL_VARIABLE := 0x33
  const LOCAL_CONSTANT := 0x34
  const IMPORT_SCOPE := 0x35
  const STATE_MACHINE_METHOD := 0x36
  const CUSTOM_DEBUG_INFORMATION := 0x37

  // ----- the HasCustomDebugInformation coded index

  const TAG_VALUES := 32
  const DOCUMENT_TAG := 0x16
  const LARGE_ROW_COUNT := 2048

  /** The tables a Parent can point at, in ascending order. */
  const REFERENCED: seq<Slot> := [
    0x00, 0x01, 0x02, 0x04, METHOD_DEF, 0x08, 0x09, 0x0A, 0x0E, 0x11, 0x14, 0x17, 0x1A, 0x1B, 0x20, 0x23,
    0x26, 0x27, 0x28, 0x2A, 0x2B, 0x2C, DOCUMENT, LOCAL_SCOPE, LOCAL_VARIABLE, LOCAL_CONSTANT, IMPORT_SCOPE]

  /** The search of the source: the first table with too many rows widens the column. */
  function WidthFrom(tables: seq<Slot>, combined: RowCounts): nat
  {
    if tables == [] then 2
    else if combined[tables[0]] >= LARGE_ROW_COUNT then 4
    else WidthFrom(tables[1..], combined)
  }

  function ParentWidth(combined: RowCounts): nat {
    WidthFrom(REFERENCED, combined)
  }

  function MaxRows(tables: seq<Slot>, combined: RowCounts): (m: nat)
    ensures forall t <- tables :: combined[t] <= m
  {
    if tables == [] then 0
    else
      var m := MaxRows(tables[1..], combined);
      if combined[tables[0]] > m then combined[tables[0]] else m
  }

  /** ECMA-335 II.24.2.6: a coded index takes two bytes while row and tag fit them for every table. */
  function CodedIndexSize(tables: seq<Slot>, tagBits: nat, combined: RowCounts): nat
    requires tagBits <= 16
  {
    if MaxRows(tables, combined) < Pow2(16 - tagBits) then 2 else 4
  }

  lemma {:induction false} WidthFromIsMax(tables: seq<Slot>, combined: RowCounts)
    ensures WidthFrom(tables, combined) == if MaxRows(tables, combined) < LARGE_ROW_COUNT then 2 else 4
  {
    if tables != [] {
      WidthFromIsMax(tables[1..], combined);
    }
  }

  lemma ParentWidthIsCodedIndexSize(combined: RowCounts)
    ensures ParentWidth(combined) == CodedIndexSize(REFERENCED, 5, combined)
  {
    hide WidthFrom, MaxRows;
    WidthFromIsMax(REFERENCED, combined);
    assert Pow2(2) == 4 && Pow2(4) == 16 && Pow2(6) == 64 && Pow2(8) == 256 && Pow2(10) == 1024;
  }

  /** The table tag and 1-based row of a raw reference. */
  function DecodeParent(raw: uint32): (uint32, uint32) {
    (raw % TAG_VALUES, raw / TAG_VALUES)
  }

  function EncodeParent(tag: nat, row: nat): nat {
    row * TAG_VALUES + tag
  }

  /** 2047 is the last row every tag of which fits 16 bits, and 2048 is the first none of which does. */
  lemma ParentThreshold(tag: nat, row: nat)
    requires tag < TAG_VALUES
    ensures EncodeParent(tag, row) < Pow256(2) <==> row < LARGE_ROW_COUNT
  {
    Pow256Values();
  }

  /**
   A reference to any row a referenced table has, below the 27 bits a 4-byte column leaves for it,
   fits the width the reader chooses, and decodes to its tag and row.
   */
  lemma ParentSurvives(combined: RowCounts, table: Slot, tag: nat, row: nat)
    requires table in REFERENCED && row <= combined[table]
    requires tag < TAG_VALUES && row < 0x800_0000
    ensures EncodeParent(tag, row) < Pow256(ParentWidth(combined))
    ensures DecodeParent(EncodeParent(tag, row)) == (tag, row)
  {
    hide WidthFrom, MaxRows;
    Pow256Values();
    ParentThreshold(tag, row);
    WidthFromIsMax(REFERENCED, combined);
  }

  // ----- row layouts

  datatype Column =
    | Fixed(width: nat)
    | StringRef
    | GuidRef
    | BlobRef
    | RowOf(table: Slot)
    | HasCustomDebugInformation

  /** Portable PDB v1.0, the tables 0x30 to 0x37. */
  function Schema(table: nat): seq<Column> {
    if table == DOCUMENT then [BlobRef, GuidRef, BlobRef, GuidRef]
    else if table == METHOD_DEBUG_INFORMATION then [RowOf(DOCUMENT), BlobRef]
    else if table == LOCAL_SCOPE then
      [RowOf(METHOD_DEF), RowOf(IMPORT_SCOPE), RowOf(LOCAL_VARIABLE), RowOf(LOCAL_CONSTANT), Fixed(4), Fixed(4)]
    else if table == LOCAL_VARIABLE then [Fixed(2), Fixed(2), StringRef]
    else if table == LOCAL_CONSTANT then [StringRef, BlobRef]
    else if table == IMPORT_SCOPE then [RowOf(IMPORT_SCOPE), BlobRef]
    else if table == STATE_MACHINE_METHOD then [RowOf(METHOD_DEF), RowOf(METHOD_DEF)]
    else if table == CUSTOM_DEBUG_INFORMATION then [HasCustomDebugInformation, GuidRef, BlobRef]
    else []
  }

  /** A "#~" stream apart from its rows; `combined` has the external counts for type-system tables. */
  datatype Shape = Shape(valid: nat, rowCounts: RowCounts, combined: RowCounts, heapSizes: byte)

  /** ECMA-335 II.24.2.6: two bytes below 2^16 rows, four from there on. */
  function SimpleIndexSize(rows: uint32): nat {
    if rows < 0x1_0000 then 2 else 4
  }

  function RefSize(large: bool): nat {
    if large then 4 else 2
  }

  function ColumnWidth(s: Shape, c: Column): (w: nat)
  {
    match c
    case Fixed(w) => w
    case StringRef => RefSize(LargeStrings(s.heapSizes))
    case GuidRef => RefSize(LargeGuids(s.heapSizes))
    case BlobRef => RefSize(LargeBlobs(s.heapSizes))
    case RowOf(t) => SimpleIndexSize(s.combined[t])
    case HasCustomDebugInformation => CodedIndexSize(REFERENCED, 5, s.combined)
  }

  function ColumnsWidth(s: Shape, cs: seq<Column>): nat
  {
    if cs == [] then 0 else ColumnWidth(s, cs[0]) + ColumnsWidth(s, cs[1..])
  }

  function RowWidth(s: Shape, table: nat): nat {
    ColumnsWidth(s, Schema(table))
  }

  lemma ColumnsWidthCons(s: Shape, c: Column, cs: seq<Column>)
    ensures ColumnsWidth(s, [c] + cs) == ColumnWidth(s, c) + ColumnsWidth(s, cs)
  {
    assert ([c] + cs)[1..] == cs;
  }

  lemma TwoColumns(s: Shape, a: Column, b: Column)
    ensures ColumnsWidth(s, [a, b]) == ColumnWidth(s, a) + ColumnWidth(s, b)
  {
    assert [a, b] == [a] + [b];
    assert [b] == [b] + [];
    ColumnsWidthCons(s, a, [b]);
    ColumnsWidthCons(s, b, []);
  }

  lemma ThreeColumns(s: Shape, a: Column, b: Column, c: Column)
    ensures ColumnsWidth(s, [a, b, c]) == ColumnWidth(s, a) + ColumnWidth(s, b) + ColumnWidth(s, c)
  {
    assert [a, b, c] == [a] + [b, c];
    ColumnsWidthCons(s, a, [b, c]);
    TwoColumns(s, b, c);
  }

  lemma FourColumns(s: Shape, a: Column, b: Column, c: Column, d: Column)
    ensures ColumnsWidth(s, [a, b, c, d])
         == ColumnWidth(s, a) + ColumnWidth(s, b) + ColumnWidth(s, c) + ColumnWidth(s, d)
  {
    assert [a, b, c, d] == [a] + [b, c, d];
    ColumnsWidthCons(s, a, [b, c, d]);
    ThreeColumns(s, b, c, d);
  }

  lemma SixColumns(s: Shape, a: Column, b: Column, c: Column, d: Column, e: Column, f: Column)
    ensures ColumnsWidth(s, [a, b, c, d, e, f])
         == ColumnWidth(s, a) + ColumnWidth(s, b) + ColumnWidth(s, c) + ColumnWidth(s, d)
            + ColumnWidth(s, e) + ColumnWidth(s, f)
  {
    assert [a, b, c, d, e, f] == [a] + [b, c, d, e, f];
    assert [b, c, d, e, f] == [b] + [c, d, e, f];
    ColumnsWidthCons(s, a, [b, c, d, e, f]);
    ColumnsWidthCons(s, b, [c, d, e, f]);
    FourColumns(s, c, d, e, f);
  }

  lemma RowWidthBound(s: Shape, table: nat)
    ensures RowWidth(s, table) <= 24
  {
    if table == DOCUMENT { FourColumns(s, BlobRef, GuidRef, BlobRef, GuidRef); }
    else if table == METHOD_DEBUG_INFORMATION { TwoColumns(s, RowOf(DOCUMENT), BlobRef); }
    else if table == LOCAL_SCOPE {
      SixColumns(s, RowOf(METHOD_DEF), RowOf(IMPORT_SCOPE), RowOf(LOCAL_VARIABLE), RowOf(LOCAL_CONSTANT),
                 Fixed(4), Fixed(4));
    }
    else if table == LOCAL_VARIABLE { ThreeColumns(s, Fixed(2), Fixed(2), StringRef); }
    else if table == LOCAL_CONSTANT { TwoColumns(s, StringRef, BlobRef); }
    else if table == IMPORT_SCOPE { TwoColumns(s, RowOf(IMPORT_SCOPE), BlobRef); }
    else if table == STATE_MACHINE_METHOD { TwoColumns(s, RowOf(METHOD_DEF), RowOf(METHOD_DEF)); }
    else if table == CUSTOM_DEBUG_INFORMATION { ThreeColumns(s, HasCustomDebugInformation, GuidRef, BlobRef); }
  }

  // ----- offsets

  /** The bytes that the rows of one table take. */
  function TableSize(s: Shape, table: nat): (n: nat)
    requires table < TABLE_COUNT
  {
    if Bit(s.valid, table) then RowWidth(s, table) * s.rowCounts[table] else 0
  }

  /** The offset of a table: the sizes of the present tables before it. */
  function OffsetOf(s: Shape, table: nat): nat
    requires table <= TABLE_COUNT
  {
    if table == 0 then 0 else OffsetOf(s, table - 1) + TableSize(s, table - 1)
  }

  lemma {:induction false} OffsetMonotone(s: Shape, a: nat, b: nat)
    requires a <= b <= TABLE_COUNT
    ensures OffsetOf(s, a) <= OffsetOf(s, b)
    decreases b
  {
    hide TableSize;
    if a < b {
      OffsetMonotone(s, a, b - 1);
    }
  }

  lemma TableSizeBound(s: Shape, table: nat)
    requires table < TABLE_COUNT
    ensures TableSize(s, table) <= 24 * 0xFFFF_FFFF
  {
    RowWidthBound(s, table);
    var w, n := RowWidth(s, table), s.rowCounts[table];
    assert w * n <= 24 * n;
  }

  /** No row counts make the walk overflow a 64-bit int: not an offset, nor an offset plus a size. */
  lemma {:induction false} OffsetFitsInt(s: Shape, table: nat)
    requires table <= TABLE_COUNT
    ensures OffsetOf(s, table) <= table * 24 * 0xFFFF_FFFF
    ensures table < TABLE_COUNT ==> OffsetOf(s, table) + TableSize(s, table) < 0x8000_0000_0000_0000
  {
    hide TableSize;
    if table > 0 {
      OffsetFitsInt(s, table - 1);
      TableSizeBound(s, table - 1);
    }
    if table < TABLE_COUNT {
      TableSizeBound(s, table);
    }
  }

  // ----- the walk

  datatype DocumentInfo = DocumentInfo(data: seq<byte>, rowCount: nat, rowSize: nat, blobRefSize: nat)

  datatype CustomDebugInfo = CustomDebugInfo(
    data: seq<byte>, rowCount: nat, rowSize: nat, parentWidth: nat, guidRefSize: nat, blobRefSize: nat)

  const NO_DOCUMENTS := DocumentInfo([], 0, 0, 0)
  const NO_CUSTOM_DEBUG_INFO := CustomDebugInfo([], 0, 0, 0, 0, 0)

  function SliceAt(data: seq<byte>, offset: int, length: int): Result<seq<byte>> {
    if offset < 0 || length < 0 || offset + length > |data| then Err(RowDataOutOfRange)
    else Ok(data[offset..offset + length])
  }

  /** What is wrong with one table, if anything. */
  function FaultOf(s: Shape, available: nat, table: nat): Option<PdbError>
    requires table < TABLE_COUNT
  {
    if !Bit(s.valid, table) then None
    else if table == DOCUMENT || table == CUSTOM_DEBUG_INFORMATION then
      if OffsetOf(s, table) + TableSize(s, table) > available then Some(RowDataOutOfRange) else None
    else if DOCUMENT < table < CUSTOM_DEBUG_INFORMATION then None
    else if s.rowCounts[table] != 0 then Some(UnsupportedTable(table, s.rowCounts[table]))
    else None
  }

  function FirstFault(s: Shape, available: nat, table: nat): Option<PdbError>
    requires table <= TABLE_COUNT
    decreases TABLE_COUNT - table
  {
    if table == TABLE_COUNT then None
    else if FaultOf(s, available, table).Some? then FaultOf(s, available, table)
    else FirstFault(s, available, table + 1)
  }

  lemma {:induction false} NoFault(s: Shape, available: nat, from: nat, table: nat)
    requires from <= table < TABLE_COUNT && FirstFault(s, available, from) == None
    ensures FaultOf(s, available, table) == None
    decreases table - from
  {
    hide FaultOf;
    if from < table {
      NoFault(s, available, from + 1, table);
    }
  }

  /** The rows of a table, as far as the data reaches. */
  function Segment(payload: seq<byte>, s: Shape, table: nat): seq<byte>
    requires table < TABLE_COUNT
  {
    var start := OffsetOf(s, table);
    var end := start + TableSize(s, table);
    if end <= |payload| then payload[start..end] else []
  }

  function DocumentsOf(payload: seq<byte>, s: Shape): DocumentInfo {
    if Bit(s.valid, DOCUMENT) then
      DocumentInfo(Segment(payload, s, DOCUMENT), s.rowCounts[DOCUMENT], RowWidth(s, DOCUMENT),
                   ColumnWidth(s, BlobRef))
    else NO_DOCUMENTS
  }

  function CustomDebugInfoOf(payload: seq<byte>, s: Shape): CustomDebugInfo {
    if Bit(s.valid, CUSTOM_DEBUG_INFORMATION) then
      CustomDebugInfo(Segment(payload, s, CUSTOM_DEBUG_INFORMATION), s.rowCounts[CUSTOM_DEBUG_INFORMATION],
                      RowWidth(s, CUSTOM_DEBUG_INFORMATION), ColumnWidth(s, HasCustomDebugInformation),
                      ColumnWidth(s, GuidRef), ColumnWidth(s, BlobRef))
    else NO_CUSTOM_DEBUG_INFO
  }

  /** The first fault in table order, or the two tables wanted. */
  function LayoutOf(payload: seq<byte>, s: Shape): Result<(DocumentInfo, CustomDebugInfo)> {
    match FirstFault(s, |payload|, 0)
    case Some(e) => Err(e)
    case None => Ok((DocumentsOf(payload, s), CustomDebugInfoOf(payload, s)))
  }

  /** The row size that the switch of the source computes. */
  method RowSizeOf(s: Shape, table: nat) returns (rowSize: nat)
    requires table < TABLE_COUNT
    ensures rowSize == RowWidth(s, table)
  {
    hide ParentWidth, CodedIndexSize, LargeStrings, LargeGuids, LargeBlobs;
    var guidRefSize := RefSize(LargeGuids(s.heapSizes));
    var blobRefSize := RefSize(LargeBlobs(s.heapSizes));
    var stringRefSize := RefSize(LargeStrings(s.heapSizes));
    if table == DOCUMENT {
      rowSize := 2 * blobRefSize + 2 * guidRefSize;
      FourColumns(s, BlobRef, GuidRef, BlobRef, GuidRef);
    } else if table == METHOD_DEBUG_INFORMATION {
      rowSize := SimpleIndexSize(s.combined[DOCUMENT]) + blobRefSize;
      TwoColumns(s, RowOf(DOCUMENT), BlobRef);
    } else if table == LOCAL_SCOPE {
      rowSize := SimpleIndexSize(s.combined[METHOD_DEF]) + SimpleIndexSize(s.combined[IMPORT_SCOPE]) +
                 SimpleIndexSize(s.combined[LOCAL_VARIABLE]) + SimpleIndexSize(s.combined[LOCAL_CONSTANT]) + 8;
      SixColumns(s, RowOf(METHOD_DEF), RowOf(IMPORT_SCOPE), RowOf(LOCAL_VARIABLE), RowOf(LOCAL_CONSTANT),
                 Fixed(4), Fixed(4));
    } else if table == LOCAL_VARIABLE {
      rowSize := 4 + stringRefSize;
      ThreeColumns(s, Fixed(2), Fixed(2), StringRef);
    } else if table == LOCAL_CONSTANT {
      rowSize := stringRefSize + blobRefSize;
      TwoColumns(s, StringRef, BlobRef);
    } else if table == IMPORT_SCOPE {
      rowSize := SimpleIndexSize(s.combined[IMPORT_SCOPE]) + blobRefSize;
      TwoColumns(s, RowOf(IMPORT_SCOPE), BlobRef);
    } else if table == STATE_MACHINE_METHOD {
      rowSize := 2 * SimpleIndexSize(s.combined[METHOD_DEF]);
      TwoColumns(s, RowOf(METHOD_DEF), RowOf(METHOD_DEF));
    } else if table == CUSTOM_DEBUG_INFORMATION {
      rowSize := ParentWidth(s.combined) + guidRefSize + blobRefSize;
      ThreeColumns(s, HasCustomDebugInformation, GuidRef, BlobRef);
      ParentWidthIsCodedIndexSize(s.combined);
    } else {
      rowSize := 0;
    }
  }

  method ComputeDebugTableLayout(payload: seq<byte>, s: Shape)
    returns (r: Result<(DocumentInfo, CustomDebugInfo)>)
    ensures r == LayoutOf(payload, s)
  {
    hide Bit, RowWidth, ParentWidth, CodedIndexSize, LargeGuids, LargeBlobs;
    ParentWidthIsCodedIndexSize(s.combined);
    var docInfo, cdiInfo := NO_DOCUMENTS, NO_CUSTOM_DEBUG_INFO;
    var offset := 0;
    for table := 0 to TABLE_COUNT
      invariant offset == OffsetOf(s, table)
      invariant FirstFault(s, |payload|, 0) == FirstFault(s, |payload|, table)
      invariant docInfo == if table > DOCUMENT then DocumentsOf(payload, s) else NO_DOCUMENTS
      invariant cdiInfo
                == if table > CUSTOM_DEBUG_INFORMATION then CustomDebugInfoOf(payload, s) else NO_CUSTOM_DEBUG_INFO
    {
      if Bit(s.valid, table) {
        var rowCount := s.rowCounts[table];
        var rowSize := RowSizeOf(s, table);
        var size := rowSize * rowCount;
        assert size == TableSize(s, table);
        if table == DOCUMENT {
          var data :- SliceAt(payload, offset, size);
          docInfo := DocumentInfo(data, rowCount, rowSize, RefSize(LargeBlobs(s.heapSizes)));
        } else if table == CUSTOM_DEBUG_INFORMATION {
          var data :- SliceAt(payload, offset, size);
          cdiInfo := CustomDebugInfo(data, rowCount, rowSize, ParentWidth(s.combined),
                                     RefSize(LargeGuids(s.heapSizes)), RefSize(LargeBlobs(s.heapSizes)));
        } else if !(DOCUMENT < table < CUSTOM_DEBUG_INFORMATION) && rowCount != 0 {
          return Err(UnsupportedTable(table, rowCount));
        }
        offset := offset + size;
      }
    }
    return Ok((docInfo, cdiInfo));
  }

  /** In an accepted layout the two tables are whole, of rowSize * rowCount bytes, and do not overlap. */
  lemma AcceptedSegments(payload: seq<byte>, s: Shape)
    requires LayoutOf(payload, s).Ok?
    ensures var (doc, cdi) := LayoutOf(payload, s).value;
            && |doc.data| == doc.rowSize * doc.rowCount && |cdi.data| == cdi.rowSize * cdi.rowCount
            && (Bit(s.valid, DOCUMENT) ==> At(payload, OffsetOf(s, DOCUMENT), doc.data))
            && (Bit(s.valid, CUSTOM_DEBUG_INFORMATION) ==> At(payload, OffsetOf(s, CUSTOM_DEBUG_INFORMATION), cdi.data))
            && OffsetOf(s, DOCUMENT) + |doc.data| <= OffsetOf(s, CUSTOM_DEBUG_INFORMATION)
  {
    hide Bit, RowWidth, OffsetOf, FirstFault, ColumnWidth;
    NoFault(s, |payload|, 0, DOCUMENT);
    NoFault(s, |payload|, 0, CUSTOM_DEBUG_INFORMATION);
    OffsetMonotone(s, DOCUMENT + 1, CUSTOM_DEBUG_INFORMATION);
    OffsetStep(s, DOCUMENT);
  }

  lemma OffsetStep(s: Shape, table: nat)
    requires table < TABLE_COUNT
    ensures OffsetOf(s, table + 1) == OffsetOf(s, table) + TableSize(s, table)
  {}

  // ----- the writer's side

  /** One chunk of row bytes per table slot, as long as its rows; absent tables have none. */
  ghost predicate Chunks(s: Shape, chunks: seq<seq<byte>>) {
    |chunks| == TABLE_COUNT && forall t | 0 <= t < TABLE_COUNT :: |chunks[t]| == TableSize(s, t)
  }

  lemma {:induction false} ChunksBefore(s: Shape, chunks: seq<seq<byte>>, table: nat)
    requires Chunks(s, chunks) && table <= TABLE_COUNT
    ensures |Concat(chunks[..table])| == OffsetOf(s, table)
  {
    hide TableSize, OffsetOf;
    if table == 0 {
      OffsetZero(s);
    } else {
      ChunksBefore(s, chunks, table - 1);
      assert chunks[..table] == chunks[..table - 1] + [chunks[table - 1]];
      ConcatAppend(chunks[..table - 1], [chunks[table - 1]]);
      OffsetStep(s, table - 1);
    }
  }

  lemma OffsetZero(s: Shape)
    ensures OffsetOf(s, 0) == 0
  {}

  lemma SegmentOfChunks(s: Shape, chunks: seq<seq<byte>>, table: nat)
    requires Chunks(s, chunks) && table < TABLE_COUNT
    ensures Segment(Concat(chunks), s, table) == chunks[table]
    ensures OffsetOf(s, table) + TableSize(s, table) <= |Concat(chunks)|
  {
    hide TableSize, OffsetOf;
    ConcatAt(chunks, table);
    ChunksBefore(s, chunks, table);
  }

  /** Only debug tables have rows in a standalone file. */
  ghost predicate Standalone(s: Shape) {
    forall t | 0 <= t < TABLE_COUNT && !(DOCUMENT <= t <= CUSTOM_DEBUG_INFORMATION) && Bit(s.valid, t) ::
      s.rowCounts[t] == 0
  }

  lemma {:induction false} ChunksHaveNoFault(s: Shape, chunks: seq<seq<byte>>, table: nat)
    requires Chunks(s, chunks) && Standalone(s) && table <= TABLE_COUNT
    ensures FirstFault(s, |Concat(chunks)|, table) == None
    decreases TABLE_COUNT - table
  {
    hide TableSize, OffsetOf, Bit;
    if table < TABLE_COUNT {
      ChunksHaveNoFault(s, chunks, table + 1);
      SegmentOfChunks(s, chunks, table);
    }
  }

  /** Rows laid out table by table are found again: the two tables are exactly their chunks. */
  lemma LayoutRoundTrip(s: Shape, chunks: seq<seq<byte>>)
    requires Chunks(s, chunks) && Standalone(s)
    ensures LayoutOf(Concat(chunks), s).Ok?
    ensures var (doc, cdi) := LayoutOf(Concat(chunks), s).value;
            && doc.data == chunks[DOCUMENT]
            && cdi.data == chunks[CUSTOM_DEBUG_INFORMATION]
            && (Bit(s.valid, DOCUMENT) ==> doc.rowCount == s.rowCounts[DOCUMENT])
            && (Bit(s.valid, CUSTOM_DEBUG_INFORMATION) ==> cdi.rowCount == s.rowCounts[CUSTOM_DEBUG_INFORMATION])
  {
    hide Bit, RowWidth, OffsetOf, FirstFault, ColumnWidth;
    ChunksHaveNoFault(s, chunks, 0);
    SegmentOfChunks(s, chunks, DOCUMENT);
    SegmentOfChunks(s, chunks, CUSTOM_DEBUG_INFORMATION);
  }
}
