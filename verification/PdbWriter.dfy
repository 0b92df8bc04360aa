/**
 A writer of standalone Portable PDBs, as a function from documents to bytes: it stores blobs one
 after another, one Document row per document and one CustomDebugInformation row per embedded
 source, and is one of the writers that PdbRoundTrip speaks of.
 */
module PdbWriter {
  import opened Bytes
  import opened Options
  import opened Results
  import opened ByteCursors
  import opened RootHeader
  import opened TablesStream
  import opened DebugTables
  import opened Heaps
  import opened Guids
  import opened MetadataReaders
  import opened PdbTables
  import opened PdbImages
  import opened PdbFiles
  import opened PdbRoundTrip

  const HEAP_LIMIT := 0x2000_0000

  /** Upper bounds of what storing takes. */
  function PartsBudget(parts: seq<seq<byte>>): nat {
    if parts == [] then 0 else 4 + |parts[0]| + PartsBudget(parts[1..])
  }

  function Budget(d: Document): nat {
    PartsBudget(d.parts) + (5 + 4 * |d.parts|) + if d.source.Some? then 4 + |d.source.value| else 0
  }

  function TotalBudget(docs: seq<Document>): nat {
    if docs == [] then 0 else Budget(docs[0]) + TotalBudget(docs[1..])
  }

  lemma {:induction false} ReferencesLength(offsets: seq<uint29>)
    ensures |References(offsets)| <= 4 * |offsets|
  {
    if offsets != [] {
      ReferencesLength(offsets[1..]);
    }
  }

  function WriteParts(heap: seq<byte>, parts: seq<seq<byte>>): (r: (seq<byte>, seq<uint29>))
    requires |heap| + PartsBudget(parts) < HEAP_LIMIT
    ensures heap <= r.0 && |r.0| <= |heap| + PartsBudget(parts) && |r.1| == |parts|
    decreases parts
  {
    if parts == [] then (heap, [])
    else
      var (h, offsets) := WriteParts(heap + Blob(parts[0]), parts[1..]);
      (h, [|heap|] + offsets)
  }

  function WriteDocument(heap: seq<byte>, d: Document): (r: (seq<byte>, Placed))
    requires |heap| + Budget(d) < HEAP_LIMIT
    ensures heap <= r.0 && |r.0| <= |heap| + Budget(d)
    ensures r.1.source.Some? <==> d.source.Some?
  {
    var (h0, parts) := WriteParts(heap, d.parts);
    ReferencesLength(parts);
    var h1 := h0 + Blob([d.separator] + References(parts));
    match d.source
    case None => (h1, Placed(parts, |h0|, None))
    case Some(b) => (h1 + Blob(b), Placed(parts, |h0|, Some(|h1|)))
  }

  function WriteDocuments(heap: seq<byte>, docs: seq<Document>): (r: (seq<byte>, seq<Placed>))
    requires |heap| + TotalBudget(docs) < HEAP_LIMIT
    ensures heap <= r.0 && |r.0| <= |heap| + TotalBudget(docs) && |r.1| == |docs|
    decreases docs
  {
    if docs == [] then (heap, [])
    else
      var (h, p) := WriteDocument(heap, docs[0]);
      var (rest, placed) := WriteDocuments(h, docs[1..]);
      (rest, [p] + placed)
  }

  // ----- what was stored stays stored

  lemma AtPrefix(heap: seq<byte>, longer: seq<byte>, p: nat, x: seq<byte>)
    requires heap <= longer && At(heap, p, x)
    ensures At(longer, p, x)
  {
    assert longer[p..p + |x|] == heap[p..p + |x|];
  }

  lemma PartsPrefix(heap: seq<byte>, longer: seq<byte>, offsets: seq<uint29>, parts: seq<seq<byte>>)
    requires heap <= longer && PartsStored(heap, offsets, parts)
    ensures PartsStored(longer, offsets, parts)
  {
    hide Blob, At;
    forall k | 0 <= k < |parts| ensures At(longer, offsets[k], Blob(parts[k])) {
      AtPrefix(heap, longer, offsets[k], Blob(parts[k]));
    }
  }

  lemma StoredPrefix(heap: seq<byte>, longer: seq<byte>, d: Document, p: Placed)
    requires heap <= longer && Stored(heap, d, p)
    ensures Stored(longer, d, p)
  {
    hide Blob, At, PartsStored, NameBlob;
    PartsPrefix(heap, longer, p.parts, d.parts);
    AtPrefix(heap, longer, p.name, Blob(NameBlob(d, p)));
    if d.source.Some? {
      AtPrefix(heap, longer, p.source.value, Blob(d.source.value));
    }
  }

  lemma BlobAppended(heap: seq<byte>, x: seq<byte>)
    requires BlobSized(x)
    ensures At(heap + Blob(x), |heap|, Blob(x))
  {}

  lemma {:induction false} PartsWritten(heap: seq<byte>, parts: seq<seq<byte>>)
    requires |heap| + PartsBudget(parts) < HEAP_LIMIT
    ensures PartsStored(WriteParts(heap, parts).0, WriteParts(heap, parts).1, parts)
    decreases parts
  {
    hide Blob, At, Compress;
    if parts != [] {
      var first := heap + Blob(parts[0]);
      BlobLength(parts[0]);
      PartsWritten(first, parts[1..]);
      BlobAppended(heap, parts[0]);
      AtPrefix(first, WriteParts(heap, parts).0, |heap|, Blob(parts[0]));
    }
  }

  lemma BlobLength(x: seq<byte>)
    requires BlobSized(x)
    ensures |Blob(x)| <= 4 + |x|
  {}

  lemma DocumentWritten(heap: seq<byte>, d: Document)
    requires |heap| + Budget(d) < HEAP_LIMIT && d.separator <= 0x7F
    ensures Stored(WriteDocument(heap, d).0, d, WriteDocument(heap, d).1)
  {
    hide Blob, At, Compress, References, PartsStored, WriteParts;
    var (h0, parts) := WriteParts(heap, d.parts);
    var (h, p) := WriteDocument(heap, d);
    ReferencesLength(parts);
    PartsWritten(heap, d.parts);
    var name := [d.separator] + References(parts);
    var h1 := h0 + Blob(name);
    assert h1 <= h;
    PartsPrefix(h0, h, parts, d.parts);
    BlobAppended(h0, name);
    AtPrefix(h1, h, |h0|, Blob(name));
    if d.source.Some? {
      BlobAppended(h1, d.source.value);
    }
  }

  ghost predicate AsciiSeparators(docs: seq<Document>) {
    forall k | 0 <= k < |docs| :: docs[k].separator <= 0x7F
  }

  lemma {:induction false} DocumentsWritten(heap: seq<byte>, docs: seq<Document>)
    requires |heap| + TotalBudget(docs) < HEAP_LIMIT && AsciiSeparators(docs)
    ensures AllStored(WriteDocuments(heap, docs).0, docs, WriteDocuments(heap, docs).1)
    decreases docs
  {
    hide Stored, WriteDocument, Budget;
    if docs != [] {
      var (h, p) := WriteDocument(heap, docs[0]);
      var (rest, placed) := WriteDocuments(h, docs[1..]);
      DocumentWritten(heap, docs[0]);
      DocumentsWritten(h, docs[1..]);
      StoredPrefix(h, rest, docs[0], p);
      assert WriteDocuments(heap, docs) == (rest, [p] + placed);
    }
  }

  // ----- rows

  function DocumentRows(placed: seq<Placed>): (rows: seq<DocumentRow>)
    ensures |rows| == |placed| && forall k | 0 <= k < |placed| :: rows[k] == DocumentRow(placed[k].name, 0, 0, 0)
  {
    if placed == [] then [] else [DocumentRow(placed[0].name, 0, 0, 0)] + DocumentRows(placed[1..])
  }

  /** One row per source, in document order; `first` documents came before. */
  function SourceRows(placed: seq<Placed>, first: nat): (rows: seq<CustomRow>)
    ensures |rows| <= |placed|
    ensures forall r <- rows :: r.tag == DOCUMENT_TAG && first < r.target <= first + |placed| && r.kind == 1
  {
    if placed == [] then []
    else
      (match placed[0].source
       case None => []
       case Some(o) => [CustomRow(DOCUMENT_TAG, first + 1, 1, o)])
      + SourceRows(placed[1..], first + 1)
  }

  lemma FirstGuid(guidHeap: seq<byte>)
    requires EMBEDDED_SOURCE <= guidHeap
    ensures ReadGuidFromHeap(guidHeap, 1) == Ok(EMBEDDED_SOURCE)
  {
    assert guidHeap[0..16] == EMBEDDED_SOURCE;
  }

  lemma {:induction false} SourceRowsAttach(guidHeap: seq<byte>, placed: seq<Placed>, first: nat, k: nat)
    requires EMBEDDED_SOURCE <= guidHeap && k < |placed|
    ensures Attached(guidHeap, SourceRows(placed, first), first + k, placed[k])
    decreases placed
  {
    hide AttachesSource, IrrelevantBefore;
    var rest := SourceRows(placed[1..], first + 1);
    if k == 0 {
      FirstSourceRow(guidHeap, placed, first);
    } else {
      SourceRowsAttach(guidHeap, placed[1..], first + 1, k - 1);
      if placed[0].source.Some? {
        var r := CustomRow(DOCUMENT_TAG, first + 1, 1, placed[0].source.value);
        assert SourceRows(placed, first) == [r] + rest;
        AttachedAfter(guidHeap, r, rest, first + k, placed[k]);
      } else {
        assert SourceRows(placed, first) == rest;
      }
    }
  }

  /** The first document's row comes first, and no later row is about it. */
  lemma FirstSourceRow(guidHeap: seq<byte>, placed: seq<Placed>, first: nat)
    requires EMBEDDED_SOURCE <= guidHeap && placed != []
    ensures Attached(guidHeap, SourceRows(placed, first), first, placed[0])
  {
    hide ReadGuidFromHeap;
    FirstGuid(guidHeap);
    var rows, rest := SourceRows(placed, first), SourceRows(placed[1..], first + 1);
    if placed[0].source.Some? {
      assert IrrelevantBefore(guidHeap, rows, first, 0);
      assert AttachesSource(guidHeap, rows[0], first);
    } else {
      assert rows == rest;
    }
  }

  /** A row of another document in front changes nothing. */
  lemma AttachedAfter(guidHeap: seq<byte>, r: CustomRow, rest: seq<CustomRow>, k: nat, p: Placed)
    requires Attached(guidHeap, rest, k, p) && r.target != k + 1
    ensures Attached(guidHeap, [r] + rest, k, p)
  {
    hide AttachesSource;
    var rows := [r] + rest;
    if p.source.Some? {
      var i :| 0 <= i < |rest| && IrrelevantBefore(guidHeap, rest, k, i) && AttachesSource(guidHeap, rest[i], k)
               && rest[i].value == p.source.value;
      IrrelevantAfter(guidHeap, r, rest, k, i);
      assert rows[i + 1] == rest[i];
    } else {
      IrrelevantAfter(guidHeap, r, rest, k, |rest|);
    }
  }

  lemma IrrelevantAfter(guidHeap: seq<byte>, r: CustomRow, rest: seq<CustomRow>, k: nat, end: nat)
    requires end <= |rest| && IrrelevantBefore(guidHeap, rest, k, end) && r.target != k + 1
    ensures IrrelevantBefore(guidHeap, [r] + rest, k, end + 1)
  {
    hide ReadGuidFromHeap;
    var rows := [r] + rest;
    forall i | 0 <= i < end + 1 ensures Irrelevant(guidHeap, rows[i], k) {
      if i > 0 {
        assert Irrelevant(guidHeap, rest[i - 1], k);
      }
    }
  }

  // ----- the file

  /** What a file has besides its documents: headers, external counts, heap sizes, the rows of the six tables
      in between (those for documents and sources are not looked at), and whether its mask lists tables
      without rows. */
  datatype Surroundings = Surroundings(
    fields: RootFields, filler: HeaderFiller, flags: HeapFlags, external: ExternalTables, others: Rows,
    moreGuids: seq<byte>, listEmpty: bool)

  /** The #Blob heap starts with the empty blob. */
  const EMPTY_HEAP: seq<byte> := [0]

  /** Offsets have to fit the compressed integers of names and the columns of rows. */
  function BlobLimit(flags: HeapFlags): (n: nat)
    ensures n <= HEAP_LIMIT
  {
    if flags.blobs then HEAP_LIMIT else 0x1_0000
  }

  function Written(docs: seq<Document>): (r: (seq<byte>, seq<Placed>))
    requires 1 + TotalBudget(docs) < HEAP_LIMIT
    ensures |r.1| == |docs|
  {
    WriteDocuments(EMPTY_HEAP, docs)
  }

  predicate Sized(t: Surroundings, docs: seq<Document>) {
    && |docs| < 0x800_0000 && 1 + TotalBudget(docs) < BlobLimit(t.flags)
    && forall i: Slot :: OwnCount(t.others, i) < 0x1_0000_0000
  }

  /** A writer may list all eight tables, or leave out those without rows. */
  function Listed(listEmpty: bool, rows: Rows): (p: seq<bool>)
    ensures |p| == TABLE_COUNT
    ensures forall i | 0 <= i < TABLE_COUNT ::
              p[i] == (OwnCount(rows, i) > 0 || (listEmpty && DOCUMENT <= i <= CUSTOM_DEBUG_INFORMATION))
  {
    seq(TABLE_COUNT, i requires 0 <= i < TABLE_COUNT =>
      OwnCount(rows, i) > 0 || (listEmpty && DOCUMENT <= i <= CUSTOM_DEBUG_INFORMATION))
  }

  function RowsFor(t: Surroundings, placed: seq<Placed>): Rows {
    t.others.(documents := DocumentRows(placed), customs := SourceRows(placed, 0))
  }

  function WriteFile(t: Surroundings, docs: seq<Document>): PdbFile
    requires Sized(t, docs)
  {
    var (heap, placed) := Written(docs);
    var rows := RowsFor(t, placed);
    PdbFile(t.fields, t.filler, t.flags, Listed(t.listEmpty, rows), t.external, rows, heap,
            EMBEDDED_SOURCE + t.moreGuids)
  }

  lemma RowsCount(t: Surroundings, docs: seq<Document>)
    requires Sized(t, docs)
    ensures forall i: Slot :: OwnCount(WriteFile(t, docs).rows, i) < 0x1_0000_0000
    ensures OwnCount(WriteFile(t, docs).rows, DOCUMENT) == |docs|
  {
    hide WriteDocuments, DocumentRows, SourceRows, Listed;
    forall i: Slot ensures OwnCount(WriteFile(t, docs).rows, i) < 0x1_0000_0000 {
      assert OwnCount(t.others, i) < 0x1_0000_0000;
    }
  }

  function WriteImage(t: Surroundings, docs: seq<Document>): Image
    requires Sized(t, docs)
  {
    RowsCount(t, docs);
    ImageOf(WriteFile(t, docs))
  }

  function WriteStreams(img: Image): seq<Stream>
    requires |img.present| == TABLE_COUNT
    requires img.external.PdbStream? ==> |img.external.present| == TABLE_COUNT
  {
    (match img.external
     case NoPdbStream => []
     case PdbStream(id, entryPoint, present, counts) =>
       [Stream(PDB, SerializePdbStream(id, entryPoint, present, counts))])
    + [Stream(TABLES, SerializeTables(img)), Stream(BLOB, img.blobHeap), Stream(GUID, img.guidHeap)]
  }

  function Write(t: Surroundings, docs: seq<Document>): seq<byte>
    requires Sized(t, docs) && ValidExternal(t.external)
  {
    SerializeRoot(t.fields, WriteStreams(WriteImage(t, docs)))
  }

  /** The surroundings are expressible. */
  ghost predicate Writable(t: Surroundings, docs: seq<Document>) {
    Sized(t, docs) && ValidFiller(t.filler) && ValidExternal(t.external) && AsciiSeparators(docs)
  }

  /** Also, the file fits 32-bit offsets. */
  ghost predicate Fits(t: Surroundings, docs: seq<Document>) {
    Writable(t, docs) && Representable(t.fields, WriteStreams(WriteImage(t, docs)))
  }

  lemma DocumentRowFit(p: PdbFile, name: nat)
    requires name < BlobLimit(p.flags)
    ensures DocumentRowFits(WidthsFor(p), DocumentRow(name, 0, 0, 0))
  {
    hide ParentsFitTwo, RowsOf;
    Pow256Values();
  }

  lemma CustomRowFit(p: PdbFile, r: CustomRow)
    requires r.tag == DOCUMENT_TAG && r.target <= OwnCount(p.rows, DOCUMENT) < 0x800_0000
    requires r.kind == 1 && r.value < BlobLimit(p.flags)
    ensures CustomRowFits(WidthsFor(p), r)
  {
    hide TagOf, OwnCount;
    Pow256Values();
    ReferencedAreTagged();
    var t: Slot := DOCUMENT;
    assert RowsOf(p.rows, p.external, t) == OwnCount(p.rows, DOCUMENT);
    assert ParentsFitTwo(p.rows, p.external) ==>
        EncodeParent(TagOf(t).value, RowsOf(p.rows, p.external, t)) < Pow256(2);
  }

  lemma FileIsProper(t: Surroundings, docs: seq<Document>)
    requires Writable(t, docs)
    ensures Proper(WriteFile(t, docs))
  {
    hide WriteDocuments, DocumentRowFits, CustomRowFits, Stored, BlobLimit, DocumentRows, SourceRows, TotalBudget,
      WidthsOf, OwnCount;
    var p := WriteFile(t, docs);
    var (heap, placed) := Written(docs);
    RowsCount(t, docs);
    DocumentsWritten(EMPTY_HEAP, docs);
    forall r <- p.rows.documents ensures DocumentRowFits(WidthsFor(p), r) {
      var k :| 0 <= k < |placed| && r == DocumentRow(placed[k].name, 0, 0, 0);
      NameInHeap(heap, docs[k], placed[k]);
      DocumentRowFit(p, placed[k].name);
    }
    SourceOffsets(placed, 0, |heap|, heap, docs);
    forall r <- p.rows.customs ensures CustomRowFits(WidthsFor(p), r) {
      CustomRowFit(p, r);
    }
  }

  lemma NameInHeap(heap: seq<byte>, d: Document, p: Placed)
    requires Stored(heap, d, p)
    ensures p.name < |heap| && (p.source.Some? ==> p.source.value < |heap|)
  {
    hide PartsStored, References, Compress;
  }

  lemma {:induction false} SourceOffsets(
    placed: seq<Placed>, first: nat, limit: nat, heap: seq<byte>, docs: seq<Document>)
    requires AllStored(heap, docs, placed) && limit == |heap|
    ensures forall r <- SourceRows(placed, first) :: r.value < limit
    decreases placed
  {
    if placed != [] {
      NameInHeap(heap, docs[0], placed[0]);
      assert AllStored(heap, docs[1..], placed[1..]) by {
        forall k | 0 <= k < |docs| - 1 ensures Stored(heap, docs[1..][k], placed[1..][k]) {
          assert Stored(heap, docs[k + 1], placed[k + 1]);
        }
      }
      SourceOffsets(placed[1..], first + 1, limit, heap, docs[1..]);
    }
  }

  lemma StreamsCarry(img: Image)
    requires |img.present| == TABLE_COUNT && ValidExternal(img.external)
    ensures Carries(WriteStreams(img), img)
  {
    hide SerializeTables, SerializePdbStream, LastNamed, Standalone, Chunks;
    var tables, blob, guid := Stream(TABLES, SerializeTables(img)), Stream(BLOB, img.blobHeap),
      Stream(GUID, img.guidHeap);
    NamedThree(tables, blob, guid);
    if img.external.PdbStream? {
      var pdb := WriteStreams(img)[0];
      assert WriteStreams(img) == [pdb] + [tables, blob, guid];
      forall name: seq<byte> ensures LastNamed([pdb] + [tables, blob, guid], name) == (
        match LastNamed([tables, blob, guid], name)
        case Some(content) => Some(content)
        case None => if pdb.name == name then Some(pdb.content) else None)
      {
        NamedCons(pdb, [tables, blob, guid], name);
      }
    } else {
      assert WriteStreams(img) == [tables, blob, guid];
    }
  }

  lemma NamedCons(s: Stream, rest: seq<Stream>, name: seq<byte>)
    ensures LastNamed([s] + rest, name) == (
              match LastNamed(rest, name)
              case Some(content) => Some(content)
              case None => if s.name == name then Some(s.content) else None)
  {}

  lemma NamedThree(a: Stream, b: Stream, c: Stream)
    requires a.name != b.name && a.name != c.name && b.name != c.name
    ensures forall name: seq<byte> ::
              LastNamed([a, b, c], name) == if name == a.name then Some(a.content)
                                            else if name == b.name then Some(b.content)
                                            else if name == c.name then Some(c.content)
                                            else None
  {
    hide LastNamed;
    forall name: seq<byte>
      ensures LastNamed([a, b, c], name) == if name == a.name then Some(a.content)
                                            else if name == b.name then Some(b.content)
                                            else if name == c.name then Some(c.content)
                                            else None
    {
      NamedCons(a, [b, c], name);
      NamedCons(b, [c], name);
      NamedCons(c, [], name);
      NamedNone(name);
      assert [a] + [b, c] == [a, b, c];
      assert [b] + [c] == [b, c];
      assert [c] + [] == [c];
    }
  }

  lemma NamedNone(name: seq<byte>)
    ensures LastNamed([], name) == None
  {}

  /** Reading back what was written. */
  lemma WriteThenRead(t: Surroundings, docs: seq<Document>)
    requires Fits(t, docs)
    ensures ReadsBack(Write(t, docs), docs)
  {
    hide WriteDocuments, SourceRows, DocumentRows, Representable, Carries, ReadsBack, Stored, Attached, WriteStreams,
      AsciiSeparators, ValidFiller, TotalBudget, Proper, ChunksOf, FlagByte, OwnCounts, WidthsOf;
    var p := WriteFile(t, docs);
    var (heap, placed) := Written(docs);
    FileIsProper(t, docs);
    DocumentsWritten(EMPTY_HEAP, docs);
    forall k | 0 <= k < |docs| ensures Attached(p.guidHeap, SourceRows(placed, 0), k, placed[k]) {
      SourceRowsAttach(p.guidHeap, placed, 0, k);
    }
    StreamsCarry(WriteImage(t, docs));
    FullRoundTrip(p, WriteStreams(WriteImage(t, docs)), docs, placed);
  }
}
