/** A standalone Portable PDB as rows and heaps, laid out by the format alone. */
module PdbFiles {
  import opened Bytes
  import opened Options
  import opened RootHeader
  import opened TablesStream
  import opened DebugTables
  import opened MetadataReaders
  import opened PdbTables
  import opened PdbImages

  /** The rows of all tables, which tables the mask lists, the heaps, and what the reader skips. */
  datatype PdbFile = PdbFile(
    fields: RootFields, filler: HeaderFiller, flags: HeapFlags, listed: seq<bool>, external: ExternalTables,
    rows: Rows, blobHeap: seq<byte>, guidHeap: seq<byte>)

  function WidthsFor(p: PdbFile): Widths {
    WidthsOf(p.flags, p.rows, p.external)
  }

  /** Tables with rows are listed, others may be; 32-bit counts; names, sources and parents fit their columns. */
  ghost predicate Proper(p: PdbFile) {
    && ValidFiller(p.filler) && ValidExternal(p.external)
    && |p.listed| == TABLE_COUNT
    && (forall t: Slot :: OwnCount(p.rows, t) < 0x1_0000_0000 && (OwnCount(p.rows, t) > 0 ==> p.listed[t]))
    && (forall r <- p.rows.documents :: DocumentRowFits(WidthsFor(p), r))
    && (forall r <- p.rows.customs :: CustomRowFits(WidthsFor(p), r))
  }

  function OwnCounts(rows: Rows): (c: RowCounts)
    requires forall t: Slot :: OwnCount(rows, t) < 0x1_0000_0000
    ensures forall t: Slot :: c[t] == OwnCount(rows, t)
  {
    seq(TABLE_COUNT, t requires 0 <= t < TABLE_COUNT => var slot: Slot := t; OwnCount(rows, slot))
  }

  function ChunksOf(w: Widths, rows: Rows): (c: seq<seq<byte>>)
    ensures |c| == TABLE_COUNT && forall t | 0 <= t < TABLE_COUNT :: c[t] == Concat(RowsBytes(w, rows, t))
  {
    seq(TABLE_COUNT, t requires 0 <= t < TABLE_COUNT => Concat(RowsBytes(w, rows, t)))
  }

  function ImageOf(p: PdbFile): Image
    requires forall t: Slot :: OwnCount(p.rows, t) < 0x1_0000_0000
  {
    Image(p.fields, p.filler, FlagByte(p.flags), p.listed, OwnCounts(p.rows), ChunksOf(WidthsFor(p), p.rows),
          p.external, p.blobHeap, p.guidHeap)
  }

  /** The reader counts the rows that references can mean as the format does. */
  lemma CountsAgree(p: PdbFile)
    requires Proper(p)
    ensures ShapeFits(ShapeFor(ImageOf(p)), p.flags, p.rows, p.external)
  {
    hide OwnCount, FlagByte, WidthsOf, RowsBytes, Concat, MaskOf, DocumentRowFits, CustomRowFits;
    var s := ShapeFor(ImageOf(p));
    forall t: Slot ensures s.combined[t] == RowsOf(p.rows, p.external, t) {}
  }

  lemma ChunkTakes(p: PdbFile, t: Slot)
    requires Proper(p)
    ensures |ImageOf(p).chunks[t]| == TableSize(ShapeFor(ImageOf(p)), t)
  {
    hide OwnCount, FlagByte, WidthsOf, RowsBytes, Concat, MaskOf, Bit, RowWidth, DocumentRowFits, CustomRowFits,
      Combine, ShapeFits;
    CountsAgree(p);
    RowsTake(ShapeFor(ImageOf(p)), p.flags, p.rows, p.external, t);
    MaskBit(p.listed, t);
  }

  lemma OnlyDebugTables(rows: Rows, t: nat)
    ensures !(DOCUMENT <= t <= CUSTOM_DEBUG_INFORMATION) ==> OwnCount(rows, t) == 0
    ensures OwnCount(rows, DOCUMENT) == |rows.documents|
    ensures OwnCount(rows, CUSTOM_DEBUG_INFORMATION) == |rows.customs|
  {}

  /** The reader finds the file's two tables where its own widths put them. */
  lemma ImageIs(p: PdbFile)
    requires Proper(p)
    ensures WellFormed(ImageOf(p)) && HasRows(ImageOf(p), p.rows.documents, p.rows.customs)
  {
    hide OwnCount, FlagByte, WidthsOf, RowsBytes, Concat, MaskOf, Bit, TableSize, DocumentRowFits, CustomRowFits,
      ShapeFits, RowWidth, ColumnWidth;
    var img, s := ImageOf(p), ShapeFor(ImageOf(p));
    forall t: nat | t < TABLE_COUNT ensures |img.chunks[t]| == TableSize(s, t) {
      ChunkTakes(p, t);
    }
    forall t: nat ensures !(DOCUMENT <= t <= CUSTOM_DEBUG_INFORMATION) ==> OwnCount(p.rows, t) == 0 {
      OnlyDebugTables(p.rows, t);
    }
    OnlyDebugTables(p.rows, 0);
    CountsAgree(p);
    ReaderWidths(s, p.flags, p.rows, p.external);
    ChunkRows(WidthsFor(p), p.rows);
  }

  lemma ChunkRows(w: Widths, rows: Rows)
    ensures RowsBytes(w, rows, DOCUMENT) == DocumentRowsBytes(w, rows.documents)
    ensures RowsBytes(w, rows, CUSTOM_DEBUG_INFORMATION) == CustomRowsBytes(w, rows.customs)
  {}
}
