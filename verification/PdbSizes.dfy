/**
 How large a written file gets: documents that fit the heap, among surroundings of moderate size,
 always fit the format's 32-bit offsets, so that the round trip of PdbWriter applies to all of them.
 */
module PdbSizes {
  import opened Bytes
  import opened Options
  import opened ByteCursors
  import opened RootHeader
  import opened TablesStream
  import opened DebugTables
  import opened MetadataReaders
  import opened PdbTables
  import opened PdbImages
  import opened PdbFiles
  import opened PdbRoundTrip
  import opened PdbWriter

  const ROWS_LIMIT := 0x20_0000
  const OTHER_LIMIT := 0x100_0000

  /** Version text and further GUIDs take at most 16 MB, each table in between has at most 2^21 rows. */
  predicate Moderate(t: Surroundings) {
    && |t.fields.version| <= OTHER_LIMIT && |t.moreGuids| <= OTHER_LIMIT
    && forall i: Slot :: OwnCount(t.others, i) <= ROWS_LIMIT
  }

  lemma {:induction false} DocumentsTakeSpace(docs: seq<Document>)
    ensures 5 * |docs| <= TotalBudget(docs)
  {
    if docs != [] {
      DocumentsTakeSpace(docs[1..]);
    }
  }

  /** The first n chunks, with at most so many rows in the tables of documents and sources. */
  function ChunkBound(docs: nat, n: nat): nat {
    if n <= DOCUMENT then 0
    else if n <= CUSTOM_DEBUG_INFORMATION then 16 * docs + (n - DOCUMENT - 1) * 24 * ROWS_LIMIT
    else 28 * docs + 6 * 24 * ROWS_LIMIT
  }

  lemma {:induction false} ConcatBound(chunks: seq<seq<byte>>, docs: nat, n: nat)
    requires n <= |chunks|
    requires forall i | 0 <= i < |chunks| :: |chunks[i]| <= ChunkBound(docs, i + 1) - ChunkBound(docs, i)
    ensures |Concat(chunks[..n])| <= ChunkBound(docs, n)
  {
    hide ChunkBound;
    if n == 0 {
      NoChunks(docs);
    } else {
      ConcatBound(chunks, docs, n - 1);
      assert chunks[..n] == chunks[..n - 1] + [chunks[n - 1]];
      ConcatAppend(chunks[..n - 1], [chunks[n - 1]]);
    }
  }

  lemma NoChunks(docs: nat)
    ensures ChunkBound(docs, 0) == 0
  {}

  lemma {:induction false} CountBytesBound(bits: seq<bool>, counts: RowCounts, i: nat)
    requires |bits| == TABLE_COUNT && i <= TABLE_COUNT
    ensures |CountBytes(bits, counts, i)| <= 4 * (TABLE_COUNT - i)
    decreases TABLE_COUNT - i
  {
    hide LeBytes;
    if i < TABLE_COUNT {
      CountBytesBound(bits, counts, i + 1);
    }
  }

  lemma HeaderBound(f: HeaderFiller, heapSizes: byte, bits: seq<bool>, counts: RowCounts)
    requires |bits| == TABLE_COUNT
    ensures |SerializeHeader(f, heapSizes, bits, counts)| <= 28 + 4 * TABLE_COUNT
  {
    hide LeBytes, MaskOf, CountBytes;
    CountBytesBound(bits, counts, 0);
  }

  lemma MulBound(a: nat, b: nat, n: nat)
    requires a <= b
    ensures a * n <= b * n
  {}

  lemma WidthsBound(f: HeapFlags, rows: Rows, e: ExternalTables)
    ensures var w := WidthsOf(f, rows, e);
            && w.strings <= 4 && w.guids <= 4 && w.blobs <= 4 && w.document <= 4 && w.methodDef <= 4
            && w.importScope <= 4 && w.variable <= 4 && w.constant <= 4 && w.parent <= 4
  {
    hide ParentsFitTwo, RowsOf;
  }

  /** Rows are at most 16, 12 and 24 bytes wide. */
  lemma RowBound(f: HeapFlags, rows: Rows, e: ExternalTables, t: nat)
    ensures var b, limit := RowsBytes(WidthsOf(f, rows, e), rows, t),
                            if t == DOCUMENT then 16 else if t == CUSTOM_DEBUG_INFORMATION then 12 else 24;
            |b| == OwnCount(rows, t) && forall k | 0 <= k < |b| :: |b[k]| <= limit
  {
    hide WidthsOf, LeBytes;
    WidthsBound(f, rows, e);
  }

  lemma {:induction false} ConcatAtMost(parts: seq<seq<byte>>, limit: nat)
    requires forall k | 0 <= k < |parts| :: |parts[k]| <= limit
    ensures |Concat(parts)| <= limit * |parts|
  {
    if parts != [] {
      ConcatAtMost(parts[1..], limit);
      assert limit * |parts| == limit + limit * (|parts| - 1);
    }
  }

  lemma ChunkStep(t: Surroundings, docs: seq<Document>, i: Slot)
    requires Sized(t, docs) && Moderate(t)
    ensures |WriteImage(t, docs).chunks[i]| <= ChunkBound(|docs|, i + 1) - ChunkBound(|docs|, i)
  {
    hide Concat, RowsBytes, WidthsOf, WriteDocuments, DocumentRows, SourceRows, Listed, FlagByte, OwnCounts,
      TotalBudget, Moderate;
    var p := WriteFile(t, docs);
    RowsCount(t, docs);
    RowCounts(t, docs, i);
    RowBound(p.flags, p.rows, p.external, i);
    var limit := if i == DOCUMENT then 16 else if i == CUSTOM_DEBUG_INFORMATION then 12 else 24;
    ConcatAtMost(RowsBytes(WidthsFor(p), p.rows, i), limit);
    MulBound(OwnCount(p.rows, i), if limit == 24 then ROWS_LIMIT else |docs|, limit);
  }

  lemma RowCounts(t: Surroundings, docs: seq<Document>, i: Slot)
    requires Sized(t, docs) && Moderate(t)
    ensures var n := OwnCount(WriteFile(t, docs).rows, i);
            if i == DOCUMENT || i == CUSTOM_DEBUG_INFORMATION then n <= |docs|
            else if DOCUMENT < i < CUSTOM_DEBUG_INFORMATION then n <= ROWS_LIMIT
            else n == 0
  {
    hide WriteDocuments, DocumentRows, SourceRows, Listed, TotalBudget;
    assert OwnCount(t.others, i) <= ROWS_LIMIT;
  }

  lemma TablesBound(t: Surroundings, docs: seq<Document>)
    requires Sized(t, docs) && Moderate(t)
    ensures |WriteImage(t, docs).present| == TABLE_COUNT
    ensures |SerializeTables(WriteImage(t, docs))|
         <= 28 + 4 * TABLE_COUNT + 28 * |docs| + 6 * 24 * ROWS_LIMIT
  {
    hide Concat, SerializeHeader, WriteDocuments, TotalBudget, ChunkBound, Moderate, WidthsOf, FlagByte, RowsFor, Sized;
    var img := WriteImage(t, docs);
    HeaderBound(img.filler, img.heapSizes, img.present, img.rowCounts);
    forall i | 0 <= i < |img.chunks|
      ensures |img.chunks[i]| <= ChunkBound(|docs|, i + 1) - ChunkBound(|docs|, i)
    {
      ChunkStep(t, docs, i);
    }
    ConcatBound(img.chunks, |docs|, TABLE_COUNT);
    AllChunks(|docs|);
    assert img.chunks[..TABLE_COUNT] == img.chunks;
  }

  lemma AllChunks(docs: nat)
    ensures ChunkBound(docs, TABLE_COUNT) == 28 * docs + 6 * 24 * ROWS_LIMIT
  {}

  lemma StreamsCons(s: Stream, rest: seq<Stream>)
    ensures EntriesLength([s] + rest) == 8 + |PaddedName(s.name)| + EntriesLength(rest)
    ensures Contents([s] + rest) == s.content + Contents(rest)
  {
    assert ([s] + rest)[1..] == rest;
  }

  lemma NoStreams()
    ensures EntriesLength([]) == 0 && Contents([]) == []
  {}

  /** The directory is less than 100 bytes, and the contents are the streams'. */
  lemma FileBound(pdb: seq<byte>, tables: seq<byte>, blob: seq<byte>, guid: seq<byte>, withPdb: bool)
    ensures var rest := [Stream(TABLES, tables), Stream(BLOB, blob), Stream(GUID, guid)];
            var streams := (if withPdb then [Stream(PDB, pdb)] else []) + rest;
            && EntriesLength(streams) <= 100
            && |Contents(streams)| <= |pdb| + |tables| + |blob| + |guid|
            && |streams| <= 4 && forall s <- streams :: 0 !in s.name
  {
    hide EntriesLength, Contents;
    var p, a, b, c := Stream(PDB, pdb), Stream(TABLES, tables), Stream(BLOB, blob), Stream(GUID, guid);
    NoStreams();
    StreamsCons(c, []);
    StreamsCons(b, [c]);
    StreamsCons(a, [b, c]);
    StreamsCons(p, [a, b, c]);
    assert [c] + [] == [c] && [b] + [c] == [b, c] && [a] + [b, c] == [a, b, c];
    assert [] + [a, b, c] == [a, b, c];
  }

  lemma PdbStreamBound(e: ExternalTables)
    requires ValidExternal(e) && e.PdbStream?
    ensures |SerializePdbStream(e.id, e.entryPoint, e.present, e.counts)| <= 32 + 4 * TABLE_COUNT
  {
    hide LeBytes, MaskOf, CountBytes;
    CountBytesBound(e.present, e.counts, 0);
  }

  function PdbStreamContent(e: ExternalTables): seq<byte>
    requires ValidExternal(e)
  {
    if e.PdbStream? then SerializePdbStream(e.id, e.entryPoint, e.present, e.counts) else []
  }

  lemma FileFits(f: RootFields, img: Image)
    requires ValidFields(f) && |img.present| == TABLE_COUNT && ValidExternal(img.external)
    requires 120 + |f.version| + |PdbStreamContent(img.external)| + |SerializeTables(img)|
             + |img.blobHeap| + |img.guidHeap|
             < 0x1_0000_0000
    ensures Representable(f, WriteStreams(img))
  {
    hide SerializeTables, SerializePdbStream, EntriesLength, Contents;
    FileBound(PdbStreamContent(img.external), SerializeTables(img), img.blobHeap, img.guidHeap,
              img.external.PdbStream?);
  }

  /** Moderate surroundings never make a file too large. */
  lemma ModerateFits(t: Surroundings, docs: seq<Document>)
    requires Writable(t, docs) && ValidFields(t.fields) && Moderate(t)
    ensures Fits(t, docs)
  {
    hide WriteImage, WriteStreams, SerializeTables, SerializePdbStream, Representable, ValidExternal, AsciiSeparators,
      ValidFiller, TotalBudget;
    TablesBound(t, docs);
    DocumentsTakeSpace(docs);
    if t.external.PdbStream? {
      PdbStreamBound(t.external);
    }
    HeapsBound(t, docs);
    FileFits(t.fields, WriteImage(t, docs));
  }

  lemma HeapsBound(t: Surroundings, docs: seq<Document>)
    requires Sized(t, docs)
    ensures var img := WriteImage(t, docs);
            && img.fields == t.fields && img.external == t.external && |img.present| == TABLE_COUNT
            && |img.blobHeap| <= 1 + TotalBudget(docs) && |img.guidHeap| == 16 + |t.moreGuids|
  {
    hide WriteDocuments, TotalBudget, ChunksOf, OwnCounts, FlagByte, RowsFor, WidthsOf;
  }

  const NO_OTHERS := Rows([], [], [], [], [], [], [], [])

  /** A writer with nothing to write beside the documents. */
  function Plain(flags: HeapFlags, external: ExternalTables, listEmpty: bool): Surroundings {
    Surroundings(RootFields(1, 1, 0, [], 0), HeaderFiller(0, 2, 0, 1, 0, 0), flags, external, NO_OTHERS, [], listEmpty)
  }

  /** Any documents that fit the heap are read back, whatever the heap-size flags, the external row counts and
      the listing of tables without rows, such as the one of embedded sources when there are none. */
  lemma PlainRoundTrip(flags: HeapFlags, external: ExternalTables, listEmpty: bool, docs: seq<Document>)
    requires ValidExternal(external) && AsciiSeparators(docs) && 1 + TotalBudget(docs) < BlobLimit(flags)
    ensures Sized(Plain(flags, external, listEmpty), docs)
    ensures ReadsBack(Write(Plain(flags, external, listEmpty), docs), docs)
  {
    hide WriteImage, Write, ReadsBack, Representable, WriteStreams, TotalBudget;
    var t := Plain(flags, external, listEmpty);
    DocumentsTakeSpace(docs);
    ModerateFits(t, docs);
    WriteThenRead(t, docs);
  }
}
