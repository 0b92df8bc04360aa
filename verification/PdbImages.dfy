/**
 The writer's side of a whole standalone Portable PDB, and the proof that opening the file gives
 back the heaps and the two tables (internal/pdb/metadata_reader.go:20-86 against ECMA-335 II.24
 and Portable PDB v1.0).
 */
module PdbImages {
  import opened Bytes
  import opened Options
  import opened Results
  import opened ByteCursors
  import opened RootHeader
  import opened TablesStream
  import opened DebugTables
  import opened Heaps
  import opened MetadataReaders
  import opened PdbTables

  /** Everything in a file but the order, number and names of its streams. */
  datatype Image = Image(
    fields: RootFields,
    filler: HeaderFiller,
    heapSizes: byte,
    present: seq<bool>,
    rowCounts: RowCounts,
    chunks: seq<seq<byte>>,
    external: ExternalTables,
    blobHeap: seq<byte>,
    guidHeap: seq<byte>)

  function ExternalCounts(e: ExternalTables): RowCounts {
    if e.PdbStream? then e.counts else NO_ROWS
  }

  function ShapeFor(img: Image): Shape {
    Shape(MaskOf(img.present), img.rowCounts, Combine(ExternalCounts(img.external), img.rowCounts), img.heapSizes)
  }

  ghost predicate WellFormed(img: Image) {
    && ValidFiller(img.filler)
    && CountsMatch(img.present, img.rowCounts)
    && ValidExternal(img.external)
    && Standalone(ShapeFor(img))
    && Chunks(ShapeFor(img), img.chunks)
  }

  function SerializeTables(img: Image): seq<byte>
    requires |img.present| == TABLE_COUNT
  {
    SerializeHeader(img.filler, img.heapSizes, img.present, img.rowCounts) + Concat(img.chunks)
  }

  /** The streams hold the image, in any order, among any others; "#-" will do for "#~". */
  ghost predicate Carries(streams: seq<Stream>, img: Image)
    requires |img.present| == TABLE_COUNT && ValidExternal(img.external)
  {
    && (|| LastNamed(streams, TABLES) == Some(SerializeTables(img))
        || (LastNamed(streams, TABLES) == None
            && LastNamed(streams, UNCOMPRESSED_TABLES) == Some(SerializeTables(img))))
    && LastNamed(streams, PDB) == (
         match img.external
         case NoPdbStream => None
         case PdbStream(id, entryPoint, present, counts) => Some(SerializePdbStream(id, entryPoint, present, counts)))
    && LastNamed(streams, BLOB) == Some(img.blobHeap)
    && LastNamed(streams, GUID) == Some(img.guidHeap)
  }

  function ReaderFor(img: Image): MetadataReader {
    var payload, s := Concat(img.chunks), ShapeFor(img);
    MetadataReader(img.blobHeap, img.guidHeap, DocumentsOf(payload, s), CustomDebugInfoOf(payload, s))
  }

  lemma TablesRoundTrip(img: Image)
    requires WellFormed(img)
    ensures TablesOf(SerializeTables(img), ExternalCounts(img.external))
         == Ok((ReaderFor(img).documents, ReaderFor(img).customDebugInfo))
  {
    hide HeaderOf, SerializeHeader, Concat, MaskOf, Combine, FirstFault, DocumentsOf, CustomDebugInfoOf,
      Chunks, Standalone;
    var header, payload := SerializeHeader(img.filler, img.heapSizes, img.present, img.rowCounts), Concat(img.chunks);
    var stream := header + payload;
    AtMiddle([], header, payload);
    assert [] + header + payload == stream;
    HeaderRoundTrip(stream, img.filler, img.heapSizes, img.present, img.rowCounts);
    HeaderFields(stream);
    assert stream[|header|..] == payload;
    LayoutRoundTrip(ShapeFor(img), img.chunks);
  }

  lemma ExternalRoundTrip(data: seq<byte>, dir: Directory, streams: seq<Stream>, img: Image)
    requires WellFormed(img) && Carries(streams, img) && Locates(data, dir, streams, map[])
    ensures ExternalCountsIn(data, dir) == Ok(ExternalCounts(img.external))
  {
    hide LastNamed, SliceStream, SerializeTables, SerializePdbStream, ExternalCountsOf, WellFormed;
    assert LocatesName(data, dir, streams, map[], PDB);
    if img.external.PdbStream? {
      ValidExternalOf(img);
      PdbStreamRoundTrip(img.external.id, img.external.entryPoint, img.external.present, img.external.counts);
    }
  }

  lemma ValidExternalOf(img: Image)
    requires WellFormed(img)
    ensures ValidExternal(img.external)
  {}

  lemma StreamsFound(data: seq<byte>, dir: Directory, streams: seq<Stream>, img: Image)
    requires WellFormed(img) && Carries(streams, img) && Locates(data, dir, streams, map[])
    ensures TablesStreamIn(data, dir) == Ok(SerializeTables(img))
    ensures StreamIn(data, dir, BLOB) == Ok(img.blobHeap)
    ensures StreamIn(data, dir, GUID) == Ok(img.guidHeap)
  {
    hide LastNamed, SliceStream, SerializeTables, WellFormed;
    assert LocatesName(data, dir, streams, map[], TABLES);
    assert LocatesName(data, dir, streams, map[], UNCOMPRESSED_TABLES);
    assert LocatesName(data, dir, streams, map[], BLOB);
    assert LocatesName(data, dir, streams, map[], GUID);
  }

  /**
   Opening a serialised file succeeds, whatever the order of its streams, the contents of the tables
   in between, the external row counts and the heap sizes; it finds both heaps and both tables.
   */
  lemma OpenRoundTrip(img: Image, streams: seq<Stream>)
    requires WellFormed(img) && Representable(img.fields, streams) && Carries(streams, img)
    ensures ReaderOf(SerializeRoot(img.fields, streams)) == Ok(ReaderFor(img))
    ensures ReaderFor(img).Valid()
  {
    hide StreamsOf, SerializeRoot, SliceStream, TablesStreamIn, StreamIn, ExternalCountsIn, TablesOf,
      SerializeTables, ReaderFor, WellFormed, Carries, Representable, MetadataReader.Valid;
    var data := SerializeRoot(img.fields, streams);
    RootRoundTrip(img.fields, streams);
    var dir := StreamsOf(data).value;
    StreamsFound(data, dir, streams, img);
    ExternalRoundTrip(data, dir, streams, img);
    TablesRoundTrip(img);
    assert ReaderOf(data) == Ok(ReaderFor(img)) by {
      assert ReaderFor(img).blobHeap == img.blobHeap && ReaderFor(img).guidHeap == img.guidHeap by {
        ReaderHeaps(img);
      }
    }
    AcceptedIsValid(data);
  }

  lemma ReaderHeaps(img: Image)
    ensures ReaderFor(img).blobHeap == img.blobHeap && ReaderFor(img).guidHeap == img.guidHeap
  {}

  // ----- rows of the two tables

  predicate DocumentRowFits(w: Widths, r: DocumentRow) {
    var blob, guid := Pow256(w.blobs), Pow256(w.guids);
    r.name < blob && r.hash < blob && r.hashAlgorithm < guid && r.language < guid
  }

  predicate CustomRowFits(w: Widths, r: CustomRow) {
    && r.tag < TAG_VALUES && EncodeParent(r.tag, r.target) < Pow256(w.parent)
    && r.kind < Pow256(w.guids) && r.value < Pow256(w.blobs)
  }

  /** Row k of rows of one width starts at k * width. */
  lemma RowAt(rows: seq<seq<byte>>, width: nat, k: nat)
    requires k < |rows| && forall i | 0 <= i < |rows| :: |rows[i]| == width
    ensures 0 <= k * width && At(Concat(rows), k * width, rows[k])
  {
    hide Concat;
    ConcatAt(rows, k);
    ConcatWidth(rows[..k], width);
  }

  /** The image has these rows in its two tables; a table without rows may be left out of the mask. */
  ghost predicate HasRows(img: Image, docs: seq<DocumentRow>, customs: seq<CustomRow>)
    requires WellFormed(img)
  {
    var w := WidthsIn(ShapeFor(img));
    && img.rowCounts[DOCUMENT] == |docs| && img.rowCounts[CUSTOM_DEBUG_INFORMATION] == |customs|
    && (forall r <- docs :: DocumentRowFits(w, r)) && (forall r <- customs :: CustomRowFits(w, r))
    && img.chunks[DOCUMENT] == Concat(DocumentRowsBytes(w, docs))
    && img.chunks[CUSTOM_DEBUG_INFORMATION] == Concat(CustomRowsBytes(w, customs))
  }

  lemma TableInfos(img: Image, docs: seq<DocumentRow>, customs: seq<CustomRow>)
    requires WellFormed(img) && HasRows(img, docs, customs)
    ensures var s, r := ShapeFor(img), ReaderFor(img);
            && r.documents.rowCount == |docs| && r.customDebugInfo.rowCount == |customs|
            && (docs != [] ==>
                  r.documents
                  == DocumentInfo(img.chunks[DOCUMENT], |docs|, RowWidth(s, DOCUMENT), ColumnWidth(s, BlobRef)))
            && (customs != [] ==>
                  r.customDebugInfo == CustomDebugInfo(
                    img.chunks[CUSTOM_DEBUG_INFORMATION], |customs|, RowWidth(s, CUSTOM_DEBUG_INFORMATION),
                    ColumnWidth(s, HasCustomDebugInformation), ColumnWidth(s, GuidRef), ColumnWidth(s, BlobRef)))
  {
    hide RowWidth, ColumnWidth, Concat, MaskOf, Bit, Combine, FirstFault, OffsetOf;
    MaskBit(img.present, DOCUMENT);
    MaskBit(img.present, CUSTOM_DEBUG_INFORMATION);
    LayoutRoundTrip(ShapeFor(img), img.chunks);
  }

  lemma DocumentRowRead(img: Image, docs: seq<DocumentRow>, customs: seq<CustomRow>, k: nat)
    requires WellFormed(img) && HasRows(img, docs, customs) && ReaderFor(img).Valid() && k < |docs|
    ensures ReaderFor(img).NameOffset(k + 1) == Ok(docs[k].name)
  {
    hide ColumnWidth, RowWidth, Concat, LeBytes, WellFormed, ShapeFor, ReaderFor, ReadHeapRef, MetadataReader.Valid;
    var s := ShapeFor(img);
    TableInfos(img, docs, customs);
    DocumentWidths(s);
    var rows := DocumentRowsBytes(WidthsIn(s), docs);
    RowAt(rows, RowWidth(s, DOCUMENT), k);
    var blob, guid := ColumnWidth(s, BlobRef), ColumnWidth(s, GuidRef);
    AtAppend(Concat(rows), k * RowWidth(s, DOCUMENT), LeBytes(docs[k].name, blob),
             LeBytes(docs[k].hashAlgorithm, guid) + (LeBytes(docs[k].hash, blob) + LeBytes(docs[k].language, guid)));
    assert DocumentRowFits(WidthsIn(s), docs[k]);
    HeapRefRead(Concat(rows), k * RowWidth(s, DOCUMENT), blob, docs[k].name);
  }

  lemma CustomRowColumns(s: Shape, rows: seq<CustomRow>, k: nat)
    requires k < |rows|
    ensures var data, p := Concat(CustomRowsBytes(WidthsIn(s), rows)), k * RowWidth(s, CUSTOM_DEBUG_INFORMATION);
            var w0, w1, w2 := ColumnWidth(s, HasCustomDebugInformation), ColumnWidth(s, GuidRef),
              ColumnWidth(s, BlobRef);
            && 0 <= p
            && At(data, p, LeBytes(EncodeParent(rows[k].tag, rows[k].target), w0))
            && At(data, p + w0, LeBytes(rows[k].kind, w1))
            && At(data, p + w0 + w1, LeBytes(rows[k].value, w2))
  {
    hide ColumnWidth, RowWidth, Concat, LeBytes, EncodeParent;
    DocumentWidths(s);
    var r, b, width := rows[k], CustomRowsBytes(WidthsIn(s), rows), RowWidth(s, CUSTOM_DEBUG_INFORMATION);
    var w0, w1, w2 := ColumnWidth(s, HasCustomDebugInformation), ColumnWidth(s, GuidRef), ColumnWidth(s, BlobRef);
    RowAt(b, width, k);
    AtAppend(Concat(b), k * width, LeBytes(EncodeParent(r.tag, r.target), w0),
             LeBytes(r.kind, w1) + LeBytes(r.value, w2));
    AtAppend(Concat(b), k * width + w0, LeBytes(r.kind, w1), LeBytes(r.value, w2));
  }

  lemma CustomRowRead(img: Image, docs: seq<DocumentRow>, customs: seq<CustomRow>, k: nat)
    requires WellFormed(img) && HasRows(img, docs, customs) && ReaderFor(img).Valid() && k < |customs|
    ensures ReaderFor(img).Parent(k + 1) == Ok((customs[k].tag, customs[k].target))
    ensures ReaderFor(img).KindIndex(k + 1) == Ok(customs[k].kind)
    ensures ReaderFor(img).ValueOffset(k + 1) == Ok(customs[k].value)
  {
    hide ColumnWidth, RowWidth, Concat, LeBytes, WellFormed, ShapeFor, ReaderFor, ReadHeapRef, MetadataReader.Valid;
    var s := ShapeFor(img);
    TableInfos(img, docs, customs);
    DocumentWidths(s);
    CustomRowColumns(s, customs, k);
    assert CustomRowFits(WidthsIn(s), customs[k]);
    var data, p := Concat(CustomRowsBytes(WidthsIn(s), customs)), k * RowWidth(s, CUSTOM_DEBUG_INFORMATION);
    var w0, w1, w2 := ColumnWidth(s, HasCustomDebugInformation), ColumnWidth(s, GuidRef), ColumnWidth(s, BlobRef);
    HeapRefRead(data, p, w0, EncodeParent(customs[k].tag, customs[k].target));
    HeapRefRead(data, p + w0, w1, customs[k].kind);
    HeapRefRead(data, p + w0 + w1, w2, customs[k].value);
  }
}
