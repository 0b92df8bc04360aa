/**
 internal/pdb/metadata_reader.go, internal/pdb/document_table.go and
 internal/pdb/custom_debug_info_table.go: opening a standalone Portable PDB, and reading the
 documents and their embedded sources from it.
 */
module MetadataReaders {
  import opened Bytes
  import opened Options
  import opened Results
  import opened ByteCursors
  import opened RootHeader
  import opened TablesStream
  import opened DebugTables
  import opened Heaps
  import opened Guids

  /** The names of the streams read: "#~", "#-", "#Pdb", "#Blob" and "#GUID". */
  const TABLES: seq<byte> := [0x23, 0x7E]
  const UNCOMPRESSED_TABLES: seq<byte> := [0x23, 0x2D]
  const PDB: seq<byte> := [0x23, 0x50, 0x64, 0x62]
  const BLOB: seq<byte> := [0x23, 0x42, 0x6C, 0x6F, 0x62]
  const GUID: seq<byte> := [0x23, 0x47, 0x55, 0x49, 0x44]

  predicate RefWidth(w: nat) {
    w == 2 || w == 4
  }

  datatype MetadataReader = MetadataReader(
    blobHeap: seq<byte>, guidHeap: seq<byte>, documents: DocumentInfo, customDebugInfo: CustomDebugInfo)
  {
    /** The tables are whole, and their columns have widths that can be read. */
    ghost predicate Valid() {
      && (documents.rowCount > 0 ==>
            && RefWidth(documents.blobRefSize) && documents.rowSize >= documents.blobRefSize
            && |documents.data| == documents.rowSize * documents.rowCount)
      && (customDebugInfo.rowCount > 0 ==>
            && RefWidth(customDebugInfo.parentWidth) && RefWidth(customDebugInfo.guidRefSize)
            && RefWidth(customDebugInfo.blobRefSize)
            && customDebugInfo.rowSize
               == customDebugInfo.parentWidth + customDebugInfo.guidRefSize + customDebugInfo.blobRefSize
            && |customDebugInfo.data| == customDebugInfo.rowSize * customDebugInfo.rowCount)
    }

    function DocumentCount(): nat {
      documents.rowCount
    }

    // ----- columns, by 1-based row

    function NameOffset(row: int): Result<uint32>
      requires Valid()
    {
      if row < 1 || row > documents.rowCount then Err(RowOutOfRange(row))
      else ReadHeapRef(documents.data, (row - 1) * documents.rowSize, documents.blobRefSize)
    }

    function Parent(row: int): Result<(uint32, uint32)>
      requires Valid()
    {
      if row < 1 || row > customDebugInfo.rowCount then Err(RowOutOfRange(row))
      else
        var raw :- ReadHeapRef(customDebugInfo.data, (row - 1) * customDebugInfo.rowSize, customDebugInfo.parentWidth);
        Ok(DecodeParent(raw))
    }

    function KindIndex(row: int): Result<uint32>
      requires Valid()
    {
      if row < 1 || row > customDebugInfo.rowCount then Err(RowOutOfRange(row))
      else
        ReadHeapRef(customDebugInfo.data,
                    (row - 1) * customDebugInfo.rowSize + customDebugInfo.parentWidth, customDebugInfo.guidRefSize)
    }

    function ValueOffset(row: int): Result<uint32>
      requires Valid()
    {
      if row < 1 || row > customDebugInfo.rowCount then Err(RowOutOfRange(row))
      else
        ReadHeapRef(customDebugInfo.data,
                    (row - 1) * customDebugInfo.rowSize + customDebugInfo.parentWidth + customDebugInfo.guidRefSize,
                    customDebugInfo.blobRefSize)
    }

    // ----- documents

    function NameOf(row: int): Result<seq<byte>>
      requires Valid()
    {
      var offset :- NameOffset(row);
      NameAt(blobHeap, offset)
    }

    method DocumentName(row: int) returns (r: Result<seq<byte>>)
      requires Valid()
      ensures r == NameOf(row)
    {
      var offset :- NameOffset(row);
      r := DecodeDocumentName(blobHeap, offset);
    }

    /** The scan of the CustomDebugInformation rows from `row` on. */
    function SourceFrom(document: int, row: nat): Result<Option<seq<byte>>>
      requires Valid()
      decreases customDebugInfo.rowCount - row
    {
      if row > customDebugInfo.rowCount then Ok(None)
      else
        var (tag, target) :- Parent(row);
        if tag != DOCUMENT_TAG || target != document then SourceFrom(document, row + 1)
        else
          var kindIndex :- KindIndex(row);
          var kind :- ReadGuidFromHeap(guidHeap, kindIndex);
          if kind != EMBEDDED_SOURCE then SourceFrom(document, row + 1)
          else
            var offset :- ValueOffset(row);
            var blob :- BlobAt(blobHeap, offset);
            Ok(Some(blob))
    }

    function SourceOf(document: int): Result<Option<seq<byte>>>
      requires Valid()
    {
      SourceFrom(document, 1)
    }

    method EmbeddedSource(document: int) returns (r: Result<Option<seq<byte>>>)
      requires Valid()
      ensures r == SourceOf(document)
    {
      hide Parent, KindIndex, ValueOffset, BlobAt, ReadGuidFromHeap, Valid;
      for row := 1 to customDebugInfo.rowCount + 1
        invariant SourceFrom(document, row) == SourceOf(document)
      {
        var parent :- Parent(row);
        if parent.0 != DOCUMENT_TAG || parent.1 != document {
          continue;
        }
        var kindIndex :- KindIndex(row);
        var kind :- ReadGuidFromHeap(guidHeap, kindIndex);
        if kind != EMBEDDED_SOURCE {
          continue;
        }
        var valueOffset :- ValueOffset(row);
        var blob :- ReadBlob(blobHeap, valueOffset);
        return Ok(Some(blob));
      }
      return Ok(None);
    }
  }

  // ----- opening a file

  function StreamIn(data: seq<byte>, dir: Directory, name: seq<byte>): Result<seq<byte>> {
    if name in dir then SliceStream(data, dir[name]) else Err(StreamNotFound(name))
  }

  function TablesStreamIn(data: seq<byte>, dir: Directory): Result<seq<byte>> {
    if TABLES in dir then SliceStream(data, dir[TABLES])
    else if UNCOMPRESSED_TABLES in dir then SliceStream(data, dir[UNCOMPRESSED_TABLES])
    else Err(TablesStreamNotFound)
  }

  function Zeros(n: nat): (c: seq<uint32>)
    ensures |c| == n && forall i | 0 <= i < n :: c[i] == 0
  {
    if n == 0 then [] else [0] + Zeros(n - 1)
  }

  const NO_ROWS: RowCounts := Zeros(TABLE_COUNT)

  function ExternalCountsIn(data: seq<byte>, dir: Directory): Result<RowCounts> {
    if PDB !in dir then Ok(NO_ROWS)
    else
      var pdb :- SliceStream(data, dir[PDB]);
      ExternalCountsOf(pdb)
  }

  /** Type-system tables are counted by the "#Pdb" stream, debug tables by the file itself. */
  function Combine(external: RowCounts, own: RowCounts): (c: RowCounts) {
    external[..DOCUMENT] + own[DOCUMENT..]
  }

  function ShapeOf(h: TablesHeader, external: RowCounts): Shape {
    Shape(h.valid, h.rowCounts, Combine(external, h.rowCounts), h.heapSizes)
  }

  /** The two tables of a "#~" stream. */
  function TablesOf(stream: seq<byte>, external: RowCounts): Result<(DocumentInfo, CustomDebugInfo)> {
    HeaderFields(stream);
    var h :- HeaderOf(stream);
    LayoutOf(stream[h.payloadOffset..], ShapeOf(h, external))
  }

  function ReaderOf(data: seq<byte>): Result<MetadataReader> {
    var dir :- StreamsOf(data);
    var tables :- TablesStreamIn(data, dir);
    var external :- ExternalCountsIn(data, dir);
    var infos :- TablesOf(tables, external);
    var blobHeap :- StreamIn(data, dir, BLOB);
    var guidHeap :- StreamIn(data, dir, GUID);
    Ok(MetadataReader(blobHeap, guidHeap, infos.0, infos.1))
  }

  method ReadTables(stream: seq<byte>, external: RowCounts)
    returns (r: Result<(DocumentInfo, CustomDebugInfo)>)
    ensures r == TablesOf(stream, external)
  {
    hide LayoutOf, HeaderOf, Combine;
    var h :- ParseTablesStreamHeader(stream);
    HeaderFields(stream);
    var combined := new uint32[TABLE_COUNT](_ => 0);
    for i := 0 to TABLE_COUNT
      invariant forall k | 0 <= k < i :: combined[k] == if k < DOCUMENT then external[k] else h.rowCounts[k]
    {
      if i < DOCUMENT {
        combined[i] := external[i];
      } else {
        combined[i] := h.rowCounts[i];
      }
    }
    CombineSlots(external, h.rowCounts, combined[..]);
    r := ComputeDebugTableLayout(stream[h.payloadOffset..], Shape(h.valid, h.rowCounts, combined[..], h.heapSizes));
  }

  lemma CombineSlots(external: RowCounts, own: RowCounts, c: RowCounts)
    requires forall k | 0 <= k < TABLE_COUNT :: c[k] == if k < DOCUMENT then external[k] else own[k]
    ensures c == Combine(external, own)
  {}

  method NewMetadataReader(data: seq<byte>) returns (r: Result<MetadataReader>)
    ensures r == ReaderOf(data)
    ensures r.Ok? ==> r.value.Valid()
  {
    hide StreamsOf, ExternalCountsOf, TablesOf, SliceStream;
    AcceptedIsValid(data);
    var streams :- ParseStreams(data);
    var tables :- TablesStreamIn(data, streams);
    var external := NO_ROWS;
    if PDB in streams {
      var pdb :- SliceStream(data, streams[PDB]);
      external :- ParsePdbStream(pdb);
    }
    var infos :- ReadTables(tables, external);
    var blobHeap :- StreamIn(data, streams, BLOB);
    var guidHeap :- StreamIn(data, streams, GUID);
    return Ok(MetadataReader(blobHeap, guidHeap, infos.0, infos.1));
  }

  // ----- acceptance implies readability

  lemma DocumentWidths(s: Shape)
    ensures RefWidth(ColumnWidth(s, BlobRef)) && RefWidth(ColumnWidth(s, GuidRef))
    ensures RefWidth(ColumnWidth(s, HasCustomDebugInformation))
    ensures RowWidth(s, DOCUMENT) == 2 * ColumnWidth(s, BlobRef) + 2 * ColumnWidth(s, GuidRef)
    ensures RowWidth(s, CUSTOM_DEBUG_INFORMATION)
         == ColumnWidth(s, HasCustomDebugInformation) + ColumnWidth(s, GuidRef) + ColumnWidth(s, BlobRef)
  {
    hide ColumnsWidth, MaxRows;
    FourColumns(s, BlobRef, GuidRef, BlobRef, GuidRef);
    ThreeColumns(s, HasCustomDebugInformation, GuidRef, BlobRef);
  }

  lemma AcceptedIsValid(data: seq<byte>)
    ensures ReaderOf(data).Ok? ==> ReaderOf(data).value.Valid()
  {
    hide StreamsOf, ExternalCountsOf, HeaderOf, SliceStream, LayoutOf, Combine;
    if ReaderOf(data).Ok? {
      var dir := StreamsOf(data).value;
      var tables := TablesStreamIn(data, dir).value;
      var external := ExternalCountsIn(data, dir).value;
      HeaderFields(tables);
      var h := HeaderOf(tables).value;
      LayoutIsValid(tables[h.payloadOffset..], ShapeOf(h, external), ReaderOf(data).value);
    }
  }

  lemma LayoutIsValid(payload: seq<byte>, s: Shape, r: MetadataReader)
    requires LayoutOf(payload, s) == Ok((r.documents, r.customDebugInfo))
    ensures r.Valid()
  {
    hide ColumnWidth, RowWidth, Segment, FirstFault, Bit;
    AcceptedSegments(payload, s);
    DocumentWidths(s);
  }

  /** A row of a whole table lies inside it. */
  lemma RowInside(row: nat, rows: nat, width: nat)
    requires 1 <= row <= rows
    ensures 0 <= (row - 1) * width && (row - 1) * width + width <= width * rows
  {
    assert (row - 1) * width + width == row * width;
    assert row * width <= rows * width;
  }

  lemma ColumnsReadable(r: MetadataReader)
    requires r.Valid()
    ensures forall row: nat | 1 <= row <= r.documents.rowCount :: r.NameOffset(row).Ok?
    ensures forall row: nat | 1 <= row <= r.customDebugInfo.rowCount ::
              r.Parent(row).Ok? && r.KindIndex(row).Ok? && r.ValueOffset(row).Ok?
  {
    forall row: nat | 1 <= row <= r.documents.rowCount ensures r.NameOffset(row).Ok? {
      RowInside(row, r.documents.rowCount, r.documents.rowSize);
    }
    forall row: nat | 1 <= row <= r.customDebugInfo.rowCount
      ensures r.Parent(row).Ok? && r.KindIndex(row).Ok? && r.ValueOffset(row).Ok?
    {
      RowInside(row, r.customDebugInfo.rowCount, r.customDebugInfo.rowSize);
    }
  }

  /** In every file that is accepted, every column of every row can be read. */
  lemma AcceptedIsReadable(data: seq<byte>)
    requires ReaderOf(data).Ok?
    ensures var r := ReaderOf(data).value;
            && r.Valid()
            && (forall row: nat | 1 <= row <= r.documents.rowCount :: r.NameOffset(row).Ok?)
            && (forall row: nat | 1 <= row <= r.customDebugInfo.rowCount ::
                  r.Parent(row).Ok? && r.KindIndex(row).Ok? && r.ValueOffset(row).Ok?)
  {
    hide ReaderOf;
    AcceptedIsValid(data);
    ColumnsReadable(ReaderOf(data).value);
  }

  // ----- what the scan finds

  /** The row is attached to another entity, or its Kind is another guid that the heap has. */
  predicate Passed(r: MetadataReader, document: int, row: nat)
    requires r.Valid()
  {
    r.Parent(row) == Ok((DOCUMENT_TAG, document)) ==>
      && r.KindIndex(row).Ok?
      && ReadGuidFromHeap(r.guidHeap, r.KindIndex(row).value).Ok?
      && ReadGuidFromHeap(r.guidHeap, r.KindIndex(row).value).value != EMBEDDED_SOURCE
  }

  /** The row attaches an embedded source to the document. */
  predicate IsSource(r: MetadataReader, document: int, row: nat)
    requires r.Valid()
  {
    && r.Parent(row) == Ok((DOCUMENT_TAG, document))
    && r.KindIndex(row).Ok? && ReadGuidFromHeap(r.guidHeap, r.KindIndex(row).value) == Ok(EMBEDDED_SOURCE)
  }

  ghost predicate AllPassed(r: MetadataReader, document: int, from: nat, to: nat)
    requires r.Valid()
  {
    forall row: nat | from <= row < to :: Passed(r, document, row)
  }

  lemma {:induction false} ScanPasses(r: MetadataReader, document: int, from: nat, to: nat)
    requires r.Valid() && 1 <= from <= to <= r.customDebugInfo.rowCount + 1
    requires AllPassed(r, document, from, to)
    ensures r.SourceFrom(document, from) == r.SourceFrom(document, to)
    decreases r.customDebugInfo.rowCount + 1 - from
  {
    hide MetadataReader.Valid, Passed, MetadataReader.SourceFrom;
    if from < to {
      PassOne(r, document, from);
      ScanPasses(r, document, from + 1, to);
    }
  }

  lemma PassOne(r: MetadataReader, document: int, row: nat)
    requires r.Valid() && 1 <= row <= r.customDebugInfo.rowCount && Passed(r, document, row)
    ensures r.SourceFrom(document, row) == r.SourceFrom(document, row + 1)
  {
    hide MetadataReader.Valid, BlobAt, ReadGuidFromHeap;
    ColumnsReadable(r);
  }

  /** The scan answers with the first row it does not pass: the source there, or the error. */
  lemma {:induction false} ScanStops(r: MetadataReader, document: int, from: nat) returns (stop: nat)
    requires r.Valid() && 1 <= from <= r.customDebugInfo.rowCount + 1
    ensures from <= stop <= r.customDebugInfo.rowCount + 1 && AllPassed(r, document, from, stop)
    ensures stop <= r.customDebugInfo.rowCount ==> !Passed(r, document, stop)
    decreases r.customDebugInfo.rowCount + 1 - from
  {
    hide MetadataReader.Valid, MetadataReader.Parent, MetadataReader.KindIndex, Passed;
    ColumnsReadable(r);
    if from == r.customDebugInfo.rowCount + 1 || !Passed(r, document, from) {
      stop := from;
    } else {
      stop := ScanStops(r, document, from + 1);
    }
  }

  /** No source is reported exactly when every row attached to the document has another, known Kind. */
  lemma NoSource(r: MetadataReader, document: int)
    requires r.Valid()
    ensures r.SourceOf(document) == Ok(None) <==> AllPassed(r, document, 1, r.customDebugInfo.rowCount + 1)
  {
    var stop := ScanStops(r, document, 1);
    ScanPasses(r, document, 1, stop);
    StopNotNone(r, document, stop);
  }

  lemma StopNotNone(r: MetadataReader, document: int, stop: nat)
    requires r.Valid() && 1 <= stop <= r.customDebugInfo.rowCount + 1
    requires stop <= r.customDebugInfo.rowCount ==> !Passed(r, document, stop)
    ensures r.SourceFrom(document, stop) == Ok(None) <==> stop == r.customDebugInfo.rowCount + 1
    ensures stop <= r.customDebugInfo.rowCount && IsSource(r, document, stop) ==>
              r.ValueOffset(stop).Ok? &&
              r.SourceFrom(document, stop) == (
                match BlobAt(r.blobHeap, r.ValueOffset(stop).value)
                case Ok(b) => Ok(Some(b))
                case Err(e) => Err(e))
  {
    hide MetadataReader.Valid, MetadataReader.Parent, MetadataReader.KindIndex, MetadataReader.ValueOffset,
      BlobAt, ReadGuidFromHeap;
    ColumnsReadable(r);
  }

  /** The first source row decides: its blob is the result. */
  lemma FirstSource(r: MetadataReader, document: int, row: nat)
    requires r.Valid() && 1 <= row <= r.customDebugInfo.rowCount
    requires AllPassed(r, document, 1, row)
    requires IsSource(r, document, row)
    ensures r.ValueOffset(row).Ok?
    ensures r.SourceOf(document) == (
              match BlobAt(r.blobHeap, r.ValueOffset(row).value)
              case Ok(b) => Ok(Some(b))
              case Err(e) => Err(e))
  {
    hide MetadataReader.Parent, MetadataReader.KindIndex, MetadataReader.ValueOffset, BlobAt,
      MetadataReader.SourceFrom, AllPassed;
    ColumnsReadable(r);
    ScanPasses(r, document, 1, row);
    StopNotNone(r, document, row);
  }
}
