/**
 Extracting from a written file: what the sources alone say must end up on disk, and the proof that
 internal/pdb/embedded_source.go puts it there for every file that describes them.
 */
module ExtractRoundTrip {
  import opened Bytes
  import opened Options
  import opened Results
  import opened Text
  import opened Heaps
  import opened MetadataReaders
  import opened PdbRoundTrip
  import opened EmbeddedSource

  /** A text that is not embedded, embedded as it is, or DEFLATE data of its length. */
  datatype SourceText = NoText | Raw(text: seq<byte>) | Deflated(text: seq<byte>, packed: seq<byte>)

  /** A source file: its name in parts as stored, the segments of the path that the name is, and its text. */
  datatype Source = Source(separator: byte, parts: seq<seq<byte>>, segments: seq<seq<byte>>, text: SourceText)

  /** The segments are those of the name, and inflating gives the text. */
  ghost predicate ProperSource(w: World, s: Source) {
    && SpelledAs(FullName(Embed(s)), s.segments)
    && (s.text.Deflated? ==>
          0 < |s.text.text| < 0x8000_0000 && w.inflate(s.text.packed, |s.text.text|) == Some(s.text.text))
  }

  function BlobOf(t: SourceText): Option<seq<byte>> {
    match t
    case NoText => None
    case Raw(text) => Some(LeBytes(0, 4) + text)
    case Deflated(text, packed) => Some(LeBytes(|text|, 4) + packed)
  }

  function Embed(s: Source): Document {
    Document(s.separator, s.parts, BlobOf(s.text))
  }

  function EmbedAll(sources: seq<Source>): (docs: seq<Document>)
    ensures |docs| == |sources| && forall k | 0 <= k < |docs| :: docs[k] == Embed(sources[k])
  {
    seq(|sources|, k requires 0 <= k < |sources| => Embed(sources[k]))
  }

  /** Where a source goes: its segments with slashes between. */
  function PathOf(w: World, s: Source): seq<byte> {
    w.destination(Join(s.segments, [SLASH]))
  }

  predicate Skipped(skipObj: bool, s: Source) {
    skipObj && OBJ in s.segments
  }

  predicate WritesTo(w: World, skipObj: bool, s: Source, path: seq<byte>) {
    !Skipped(skipObj, s) && !s.text.NoText? && PathOf(w, s) == path
  }

  /** Whatever is to be written can be. */
  predicate AllWritable(w: World, skipObj: bool, sources: seq<Source>) {
    forall s <- sources :: !Skipped(skipObj, s) && !s.text.NoText? ==> w.writable(PathOf(w, s))
  }

  /** The path holds the text of the last source that goes there, or what was there before if none does. */
  ghost predicate HoldsLast(
    w: World, skipObj: bool, sources: seq<Source>, before: Files, files: Files, path: seq<byte>)
  {
    || (&& (forall k | 0 <= k < |sources| :: !WritesTo(w, skipObj, sources[k], path))
        && (path in files <==> path in before) && (path in before ==> files[path] == before[path]))
    || exists k | 0 <= k < |sources| ::
         && WritesTo(w, skipObj, sources[k], path) && path in files && files[path] == sources[k].text.text
         && forall j | k < j < |sources| :: !WritesTo(w, skipObj, sources[j], path)
  }

  /** How many sources are extracted, how many have no text, how many are skipped. */
  function Tally(skipObj: bool, sources: seq<Source>): ExtractResult {
    if sources == [] then ExtractResult(0, 0, 0, 0)
    else
      var r, s := Tally(skipObj, sources[..|sources| - 1]), sources[|sources| - 1];
      var one := r.(total := r.total + 1);
      if Skipped(skipObj, s) then one.(skippedObj := r.skippedObj + 1)
      else if s.text.NoText? then one.(skipped := r.skipped + 1)
      else one.(extracted := r.extracted + 1)
  }

  function OutcomeFor(w: World, skipObj: bool, s: Source): Outcome {
    if Skipped(skipObj, s) then UnderObj
    else if s.text.NoText? then NoSource
    else if w.writable(PathOf(w, s)) then Extracted(PathOf(w, s), s.text.text)
    else Failed(WriteFailed)
  }

  ghost predicate IsFileOf(data: seq<byte>, w: World, sources: seq<Source>) {
    ReadsBack(data, EmbedAll(sources)) && forall s <- sources :: ProperSource(w, s)
  }

  /** The reader's outcomes are the ones for the sources. */
  ghost predicate ComesTo(r: MetadataReader, w: World, skipObj: bool, sources: seq<Source>)
    requires r.Valid()
  {
    forall row: nat | 1 <= row <= |sources| :: OutcomeOf(r, w, skipObj, row) == OutcomeFor(w, skipObj, sources[row - 1])
  }

  /** The text comes out of its blob. */
  lemma TextComesOut(w: World, s: Source)
    requires ProperSource(w, s) && !s.text.NoText?
    ensures BlobOf(s.text).Some? && Decompress(w, BlobOf(s.text).value) == Ok(s.text.text)
  {
    hide Decompress, LeBytes, SpelledAs;
    match s.text
    case Raw(text) => RawSourceRoundTrip(w, text);
    case Deflated(text, packed) => DeflatedSource(w, |text|, packed);
  }

  lemma OutcomeIs(r: MetadataReader, w: World, skipObj: bool, row: nat, s: Source)
    requires r.Valid() && ProperSource(w, s)
    requires r.NameOf(row) == Ok(FullName(Embed(s))) && r.SourceOf(row) == Ok(Embed(s).source)
    ensures OutcomeOf(r, w, skipObj, row) == OutcomeFor(w, skipObj, s)
  {
    hide MetadataReader.Valid, MetadataReader.NameOf, MetadataReader.SourceOf, Decompress, LeBytes, RelPath,
      IsUnderObjDirectory, FullName, SpelledAs, Join;
    PathOfSegments(FullName(Embed(s)), s.segments);
    if !s.text.NoText? {
      TextComesOut(w, s);
    }
  }

  lemma OutcomesAre(data: seq<byte>, sources: seq<Source>, w: World, skipObj: bool)
    requires IsFileOf(data, w, sources)
    ensures ReaderOf(data).Ok? && ReaderOf(data).value.Valid() && ReaderOf(data).value.DocumentCount() == |sources|
    ensures ComesTo(ReaderOf(data).value, w, skipObj, sources)
  {
    hide ReaderOf, MetadataReader.Valid, MetadataReader.NameOf, MetadataReader.SourceOf, OutcomeOf, OutcomeFor, Embed,
      FullName, ProperSource;
    var r := ReaderOf(data).value;
    forall row: nat | 1 <= row <= |sources|
      ensures OutcomeOf(r, w, skipObj, row) == OutcomeFor(w, skipObj, sources[row - 1])
    {
      var k := row - 1;
      assert EmbedAll(sources)[k] == Embed(sources[k]);
      assert r.NameOf(k + 1) == Ok(FullName(Embed(sources[k]))) && r.SourceOf(k + 1) == Ok(Embed(sources[k]).source);
      assert sources[k] in sources;
      OutcomeIs(r, w, skipObj, row, sources[k]);
    }
  }

  lemma FileOpens(data: seq<byte>, w: World, sources: seq<Source>)
    ensures IsFileOf(data, w, sources) ==> ReaderOf(data).Ok?
  {
    hide ReaderOf, ProperSource;
  }

  lemma {:induction false} CountsAre(r: MetadataReader, sources: seq<Source>, w: World, skipObj: bool, n: nat)
    requires r.Valid() && ComesTo(r, w, skipObj, sources) && AllWritable(w, skipObj, sources) && n <= |sources|
    ensures var c := Tally(skipObj, sources[..n]);
            && NoneFailed(r, w, skipObj, n) && c.total == n
            && |ExtractedRows(r, w, skipObj, n)| == c.extracted
            && |SourcelessRows(r, w, skipObj, n)| == c.skipped
            && |ObjRows(r, w, skipObj, n)| == c.skippedObj
  {
    hide MetadataReader.Valid, OutcomeOf, Skipped, PathOf, ExtractedRows, SourcelessRows, ObjRows;
    if n == 0 {
      NoRows(r, w, skipObj);
    } else {
      CountsAre(r, sources, w, skipObj, n - 1);
      CountStep(r, w, skipObj, n);
      assert OutcomeOf(r, w, skipObj, n) == OutcomeFor(w, skipObj, sources[n - 1]);
      assert sources[n - 1] in sources;
      assert sources[..n][..n - 1] == sources[..n - 1];
    }
  }

  lemma NoRows(r: MetadataReader, w: World, skipObj: bool)
    requires r.Valid()
    ensures ExtractedRows(r, w, skipObj, 0) == SourcelessRows(r, w, skipObj, 0) == ObjRows(r, w, skipObj, 0) == {}
  {
    hide MetadataReader.Valid, OutcomeOf;
  }

  lemma {:induction false} LastWriterIs(
    r: MetadataReader, sources: seq<Source>, w: World, skipObj: bool, n: nat, path: seq<byte>)
    requires r.Valid() && ComesTo(r, w, skipObj, sources) && AllWritable(w, skipObj, sources) && n <= |sources|
    ensures match LastWriter(r, w, skipObj, n, path)
            case None => forall k | 0 <= k < n :: !WritesTo(w, skipObj, sources[k], path)
            case Some(row) =>
              && 1 <= row <= n && WritesTo(w, skipObj, sources[row - 1], path)
              && forall k | row <= k < n :: !WritesTo(w, skipObj, sources[k], path)
  {
    hide MetadataReader.Valid, OutcomeOf, Skipped, PathOf;
    if n > 0 {
      LastWriterIs(r, sources, w, skipObj, n - 1, path);
      assert OutcomeOf(r, w, skipObj, n) == OutcomeFor(w, skipObj, sources[n - 1]);
      assert sources[n - 1] in sources;
    }
  }

  lemma FileIs(
    r: MetadataReader, sources: seq<Source>, w: World, skipObj: bool, before: Files, files: Files, path: seq<byte>)
    requires r.Valid() && ComesTo(r, w, skipObj, sources) && AllWritable(w, skipObj, sources)
    requires FileAfter(r, w, skipObj, |sources|, before, files, path)
    ensures HoldsLast(w, skipObj, sources, before, files, path)
  {
    hide MetadataReader.Valid, OutcomeOf, LastWriter, AllWritable;
    LastWriterIs(r, sources, w, skipObj, |sources|, path);
  }

  /**
   Extract on a file's bytes. If they are a file of these sources, every text, raw or deflated, ends up at
   the path of its segments, the last one for a path winning; sources with a segment "obj" are left out if
   that is asked for; nothing else changes, and the counts are those of the sources.
   */
  method ExtractFile(data: seq<byte>, w: World, skipObj: bool, before: Files, ghost sources: seq<Source>)
    returns (result: ExtractResult, files: Files, error: Option<PdbError>)
    ensures ReaderOf(data).Err? ==>
              error == Some(ReaderOf(data).error) && files == before && result == ExtractResult(0, 0, 0, 0)
    ensures IsFileOf(data, w, sources) && AllWritable(w, skipObj, sources) ==>
              && error == None && result == Tally(skipObj, sources)
              && forall path: seq<byte> :: HoldsLast(w, skipObj, sources, before, files, path)
  {
    hide ReaderOf, MetadataReader.Valid, HoldsLast, AllWritable, FileAfter, NoneFailed, ExtractedRows, SourcelessRows,
      ObjRows, Tally, IsFileOf, ComesTo, MetadataReader.NameOf, MetadataReader.SourceOf;
    var reader := NewMetadataReader(data);
    FileOpens(data, w, sources);
    if reader.Err? {
      return ExtractResult(0, 0, 0, 0), before, Some(reader.error);
    }
    result, files, error := Extract(reader.value, w, skipObj, before);
    if IsFileOf(data, w, sources) && AllWritable(w, skipObj, sources) {
      OutcomesAre(data, sources, w, skipObj);
      CountsAre(reader.value, sources, w, skipObj, |sources|);
      assert sources[..|sources|] == sources;
      forall path: seq<byte> ensures HoldsLast(w, skipObj, sources, before, files, path) {
        FileIs(reader.value, sources, w, skipObj, before, files, path);
      }
    }
  }
}
