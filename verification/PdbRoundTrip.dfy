/**
 The full round trip: documents written to a standalone Portable PDB, by any writer that lays out
 the #Blob heap as it likes, are read back name for name and source for source.
 */
module PdbRoundTrip {
  import opened Bytes
  import opened Options
  import opened Results
  import opened ByteCursors
  import opened RootHeader
  import opened TablesStream
  import opened DebugTables
  import opened Heaps
  import opened Guids
  import opened MetadataReaders
  import opened PdbTables
  import opened PdbImages
  import opened PdbFiles
  import opened Text

  /** A source document: its name in parts, and its embedded source blob if it has one. */
  datatype Document = Document(separator: byte, parts: seq<seq<byte>>, source: Option<seq<byte>>)

  /** The parts with the separator between each two, or with nothing between if it is 0. */
  function FullName(d: Document): seq<byte> {
    Join(d.parts, if d.separator == 0 then [] else [d.separator])
  }

  /** Where a document's blobs are in the heap. */
  datatype Placed = Placed(parts: seq<uint29>, name: nat, source: Option<nat>)

  function NameBlob(d: Document, p: Placed): seq<byte> {
    [d.separator] + References(p.parts)
  }

  ghost predicate Stored(heap: seq<byte>, d: Document, p: Placed) {
    && d.separator <= 0x7F
    && PartsStored(heap, p.parts, d.parts)
    && BlobSized(NameBlob(d, p)) && At(heap, p.name, Blob(NameBlob(d, p)))
    && (d.source.Some? <==> p.source.Some?)
    && (d.source.Some? ==> BlobSized(d.source.value) && At(heap, p.source.value, Blob(d.source.value)))
  }

  ghost predicate AllStored(heap: seq<byte>, docs: seq<Document>, placed: seq<Placed>) {
    |docs| == |placed| && forall k | 0 <= k < |docs| :: Stored(heap, docs[k], placed[k])
  }

  /** The custom row attaches an embedded source to document k. */
  predicate AttachesSource(guidHeap: seq<byte>, r: CustomRow, k: nat) {
    && r.tag == DOCUMENT_TAG && r.target == k + 1
    && r.kind < 0x1_0000_0000 && ReadGuidFromHeap(guidHeap, r.kind) == Ok(EMBEDDED_SOURCE)
  }

  /** The custom row concerns something else: another entity, or another kind the heap knows. */
  predicate Irrelevant(guidHeap: seq<byte>, r: CustomRow, k: nat) {
    r.tag == DOCUMENT_TAG && r.target == k + 1 ==>
      && r.kind < 0x1_0000_0000 && ReadGuidFromHeap(guidHeap, r.kind).Ok?
      && ReadGuidFromHeap(guidHeap, r.kind).value != EMBEDDED_SOURCE
  }

  ghost predicate IrrelevantBefore(guidHeap: seq<byte>, customs: seq<CustomRow>, k: nat, end: nat)
    requires end <= |customs|
  {
    forall i | 0 <= i < end :: Irrelevant(guidHeap, customs[i], k)
  }

  /** The first row with a source of document k has the offset of that source; if it has none, no row does. */
  ghost predicate Attached(guidHeap: seq<byte>, customs: seq<CustomRow>, k: nat, p: Placed) {
    match p.source
    case None => IrrelevantBefore(guidHeap, customs, k, |customs|)
    case Some(offset) =>
      exists i | 0 <= i < |customs| ::
        IrrelevantBefore(guidHeap, customs, k, i) && AttachesSource(guidHeap, customs[i], k)
        && customs[i].value == offset
  }

  /** The image describes the documents: rows name the stored names, custom rows attach the stored sources. */
  ghost predicate ImageDescribes(
    img: Image, docs: seq<Document>, placed: seq<Placed>, rows: seq<DocumentRow>, customs: seq<CustomRow>)
    requires WellFormed(img)
  {
    && HasRows(img, rows, customs)
    && AllStored(img.blobHeap, docs, placed)
    && |rows| == |docs|
    && forall k | 0 <= k < |docs| :: rows[k].name == placed[k].name && Attached(img.guidHeap, customs, k, placed[k])
  }

  lemma NameReadBack(
    img: Image, docs: seq<Document>, placed: seq<Placed>, rows: seq<DocumentRow>, customs: seq<CustomRow>, k: nat)
    requires WellFormed(img) && ImageDescribes(img, docs, placed, rows, customs) && ReaderFor(img).Valid()
    requires k < |docs|
    ensures ReaderFor(img).NameOf(k + 1) == Ok(FullName(docs[k]))
  {
    hide NameAt, Join, Blob, References, MetadataReader.Valid, MetadataReader.NameOffset, WellFormed, HasRows,
      ReaderFor, Attached;
    DocumentRowRead(img, rows, customs, k);
    ReaderHeaps(img);
    assert Stored(img.blobHeap, docs[k], placed[k]);
    NameRoundTrip(img.blobHeap, placed[k].name, docs[k].separator, placed[k].parts, docs[k].parts);
  }

  lemma IrrelevantIsPassed(
    img: Image, rows: seq<DocumentRow>, customs: seq<CustomRow>, k: nat, end: nat)
    requires WellFormed(img) && HasRows(img, rows, customs) && ReaderFor(img).Valid() && end <= |customs|
    requires IrrelevantBefore(img.guidHeap, customs, k, end)
    ensures AllPassed(ReaderFor(img), k + 1, 1, end + 1)
  {
    hide ReadGuidFromHeap, MetadataReader.Valid, MetadataReader.Parent, MetadataReader.KindIndex, WellFormed,
      HasRows, ReaderFor;
    ReaderHeaps(img);
    var r, document := ReaderFor(img), k + 1;
    forall row: nat | 1 <= row < end + 1 ensures Passed(r, document, row) {
      CustomRowRead(img, rows, customs, row - 1);
      assert Irrelevant(img.guidHeap, customs[row - 1], k);
    }
  }

  lemma SourceReadBack(
    img: Image, docs: seq<Document>, placed: seq<Placed>, rows: seq<DocumentRow>, customs: seq<CustomRow>, k: nat)
    requires WellFormed(img) && ImageDescribes(img, docs, placed, rows, customs) && ReaderFor(img).Valid()
    requires k < |docs|
    ensures ReaderFor(img).SourceOf(k + 1) == Ok(docs[k].source)
  {
    hide ReadGuidFromHeap, Blob, BlobAt, MetadataReader.Valid, MetadataReader.Parent, MetadataReader.KindIndex,
      MetadataReader.ValueOffset, MetadataReader.SourceOf, WellFormed, HasRows, ReaderFor, AllPassed, PartsStored;
    var r := ReaderFor(img);
    CountsOf(img, rows, customs);
    ReaderHeaps(img);
    assert Stored(img.blobHeap, docs[k], placed[k]);
    assert Attached(img.guidHeap, customs, k, placed[k]);
    if docs[k].source == None {
      IrrelevantIsPassed(img, rows, customs, k, |customs|);
      NoSource(r, k + 1);
    } else {
      var i :| 0 <= i < |customs| && IrrelevantBefore(img.guidHeap, customs, k, i)
               && AttachesSource(img.guidHeap, customs[i], k) && customs[i].value == placed[k].source.value;
      IrrelevantIsPassed(img, rows, customs, k, i);
      CustomRowRead(img, rows, customs, i);
      FirstSource(r, k + 1, i + 1);
      BlobRead(img.blobHeap, placed[k].source.value, docs[k].source.value);
    }
  }

  lemma CountsOf(img: Image, rows: seq<DocumentRow>, customs: seq<CustomRow>)
    requires WellFormed(img) && HasRows(img, rows, customs)
    ensures ReaderFor(img).documents.rowCount == |rows| && ReaderFor(img).customDebugInfo.rowCount == |customs|
  {
    hide RowWidth, ColumnWidth, WellFormed, HasRows, ReaderFor;
    TableInfos(img, rows, customs);
  }

  /** What reading back documents means. */
  ghost predicate ReadsBack(data: seq<byte>, docs: seq<Document>) {
    && ReaderOf(data).Ok? && ReaderOf(data).value.Valid()
    && var r := ReaderOf(data).value;
    && r.DocumentCount() == |docs|
    && forall k | 0 <= k < |docs| :: r.NameOf(k + 1) == Ok(FullName(docs[k])) && r.SourceOf(k + 1) == Ok(docs[k].source)
  }

  /** The reader's side: an image with these rows, placed anywhere in the file, is read back. */
  lemma ImageRoundTrip(
    img: Image, streams: seq<Stream>,
    docs: seq<Document>, placed: seq<Placed>, rows: seq<DocumentRow>, customs: seq<CustomRow>)
    requires WellFormed(img) && Representable(img.fields, streams) && Carries(streams, img)
    requires ImageDescribes(img, docs, placed, rows, customs)
    ensures ReadsBack(SerializeRoot(img.fields, streams), docs)
  {
    hide WellFormed, Representable, Carries, SerializeRoot, ReaderFor, ReaderOf, MetadataReader.Valid,
      MetadataReader.NameOf, MetadataReader.SourceOf, HasRows, FullName;
    OpenRoundTrip(img, streams);
    CountsOf(img, rows, customs);
    var r := ReaderFor(img);
    forall k | 0 <= k < |docs|
      ensures r.NameOf(k + 1) == Ok(FullName(docs[k])) && r.SourceOf(k + 1) == Ok(docs[k].source) {
      NameReadBack(img, docs, placed, rows, customs, k);
      SourceReadBack(img, docs, placed, rows, customs, k);
    }
  }
  /** The file describes the documents: rows name the stored names, custom rows attach the stored sources. */
  ghost predicate Describes(p: PdbFile, docs: seq<Document>, placed: seq<Placed>) {
    && AllStored(p.blobHeap, docs, placed)
    && |p.rows.documents| == |docs|
    && forall k | 0 <= k < |docs| ::
         p.rows.documents[k].name == placed[k].name && Attached(p.guidHeap, p.rows.customs, k, placed[k])
  }

  /**
   The law of the package. Any file that describes the documents, whatever rows its other tables have, is
   read back: as many documents, each with its joined name and exactly its attached blob.
   */
  lemma FullRoundTrip(p: PdbFile, streams: seq<Stream>, docs: seq<Document>, placed: seq<Placed>)
    requires Proper(p) && Representable(p.fields, streams) && Carries(streams, ImageOf(p))
    requires Describes(p, docs, placed)
    ensures ReadsBack(SerializeRoot(p.fields, streams), docs)
  {
    hide WellFormed, HasRows, Representable, Carries, AllStored, Attached, ReadsBack, FlagByte, OwnCount, WidthsOf;
    ImageIs(p);
    ImageRoundTrip(ImageOf(p), streams, docs, placed, p.rows.documents, p.rows.customs);
  }
}
