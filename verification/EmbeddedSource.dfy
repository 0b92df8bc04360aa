/**
 internal/pdb/embedded_source.go: writing out every embedded source and counting the documents.

 The file system, the joining of paths and DEFLATE are parameters. A negative uncompressed size
 makes the source panic rather than return an error; it is the error NegativeSourceSize here.
 */
module EmbeddedSource {
  import opened Bytes
  import opened Options
  import opened Results
  import opened Text
  import opened MetadataReaders

  const SLASH: byte := 0x2F
  const BACKSLASH: byte := 0x5C

  /** "obj" */
  const OBJ: seq<byte> := [0x6F, 0x62, 0x6A]

  /** Names are bytes. */
  lemma CharactersAre()
    ensures SLASH == '/' as int && BACKSLASH == '\\' as int
    ensures |OBJ| == 3 && OBJ[0] == 'o' as int && OBJ[1] == 'b' as int && OBJ[2] == 'j' as int
  {}

  function TrimLeft(s: seq<byte>, c: byte): (r: seq<byte>)
    ensures r == [] || r[0] != c
  {
    if s != [] && s[0] == c then TrimLeft(s[1..], c) else s
  }

  function RelPath(name: seq<byte>): seq<byte> {
    TrimLeft(ReplaceAll(name, BACKSLASH, SLASH), SLASH)
  }

  predicate IsUnderObjDirectory(relPath: seq<byte>) {
    OBJ in Split(relPath, SLASH)
  }

  /** The world outside: where a path ends up, whether it can be written, and inflating to a given size. */
  datatype World = World(
    destination: seq<byte> -> seq<byte>,
    writable: seq<byte> -> bool,
    inflate: (seq<byte>, nat) -> Option<seq<byte>>)

  /** A little-endian int32 size, then raw text when it is 0 and DEFLATE data otherwise. */
  function Decompress(w: World, blob: seq<byte>): Result<seq<byte>> {
    if |blob| < 4 then Err(SourceBlobTooSmall)
    else
      var size := LeValue(blob[..4]);
      if size == 0 then Ok(blob[4..])
      else if size >= 0x8000_0000 then Err(NegativeSourceSize)
      else match w.inflate(blob[4..], size)
        case None => Err(InflateFailed)
        case Some(text) => Ok(text)
  }

  lemma RawSourceRoundTrip(w: World, text: seq<byte>)
    ensures Decompress(w, LeBytes(0, 4) + text) == Ok(text)
  {
    Pow256Values();
    LeRoundTrip(0, 4);
    assert (LeBytes(0, 4) + text)[..4] == LeBytes(0, 4);
  }

  /** Any other size up to the largest int32 makes the rest DEFLATE data of that many bytes. */
  lemma DeflatedSource(w: World, size: nat, packed: seq<byte>)
    requires 0 < size < 0x8000_0000
    ensures Decompress(w, LeBytes(size, 4) + packed) == (
              match w.inflate(packed, size)
              case None => Err(InflateFailed)
              case Some(text) => Ok(text))
  {
    hide LeBytes;
    Pow256Values();
    LeRoundTrip(size, 4);
    var blob := LeBytes(size, 4) + packed;
    assert blob[..4] == LeBytes(size, 4) && blob[4..] == packed;
  }

  lemma TooSmallSource(w: World, blob: seq<byte>)
    ensures |blob| < 4 <==> Decompress(w, blob) == Err(SourceBlobTooSmall)
  {}

  /** The panic is met by exactly the blobs whose size field has its sign bit set. */
  lemma NegativeSize(w: World, blob: seq<byte>)
    ensures Decompress(w, blob) == Err(NegativeSourceSize) <==> |blob| >= 4 && blob[3] >= 0x80
  {
    if |blob| >= 4 {
      hide LeValue;
      LeFour(blob[..4]);
    }
  }

  /** What one document comes to. */
  datatype Outcome =
    | Failed(error: PdbError)
    | UnderObj
    | NoSource
    | Extracted(path: seq<byte>, text: seq<byte>)

  function OutcomeOf(r: MetadataReader, w: World, skipObj: bool, row: nat): Outcome
    requires r.Valid()
  {
    match r.NameOf(row)
    case Err(e) => Failed(e)
    case Ok(name) =>
      if skipObj && IsUnderObjDirectory(RelPath(name)) then UnderObj
      else match r.SourceOf(row)
        case Err(e) => Failed(e)
        case Ok(None) => NoSource
        case Ok(Some(blob)) =>
          match Decompress(w, blob)
          case Err(e) => Failed(e)
          case Ok(text) =>
            var path := w.destination(RelPath(name));
            if w.writable(path) then Extracted(path, text) else Failed(WriteFailed)
  }

  datatype ExtractResult = ExtractResult(total: nat, extracted: nat, skipped: int, skippedObj: nat)

  type Files = map<seq<byte>, seq<byte>>

  // ----- names as paths

  predicate IsSeparator(c: byte) {
    IsOneOf(c, SLASH, BACKSLASH)
  }

  /** The name is any number of separators and then the segments. */
  ghost predicate SpelledAs(name: seq<byte>, segments: seq<seq<byte>>) {
    exists k | 0 <= k <= |name| ::
      (forall i | 0 <= i < k :: IsSeparator(name[i])) && (k < |name| ==> !IsSeparator(name[k]))
      && Spells(name[k..], segments, SLASH, BACKSLASH)
  }

  lemma {:induction false} TrimmedAfter(s: seq<byte>, c: byte, k: nat)
    requires k <= |s| && (forall i | 0 <= i < k :: s[i] == c) && (k < |s| ==> s[k] != c)
    ensures TrimLeft(s, c) == s[k..]
    decreases |s|
  {
    if k > 0 {
      TrimmedAfter(s[1..], c, k - 1);
      assert s[1..][k - 1..] == s[k..];
    }
  }

  lemma RelPathFrom(name: seq<byte>, k: nat)
    requires k <= |name| && (forall i | 0 <= i < k :: IsSeparator(name[i])) && (k < |name| ==> !IsSeparator(name[k]))
    ensures RelPath(name) == ReplaceAll(name[k..], BACKSLASH, SLASH)
  {
    hide TrimLeft;
    var r := ReplaceAll(name, BACKSLASH, SLASH);
    TrimmedAfter(r, SLASH, k);
    assert r[k..] == ReplaceAll(name[k..], BACKSLASH, SLASH);
  }

  /** The path is the segments with slashes between, and it is under obj exactly if one of them is "obj". */
  lemma PathOfSegments(name: seq<byte>, segments: seq<seq<byte>>)
    requires SpelledAs(name, segments)
    ensures RelPath(name) == Join(segments, [SLASH])
    ensures IsUnderObjDirectory(RelPath(name)) <==> OBJ in segments
  {
    hide Split, Join, RelPath, Spells, ReplaceAll;
    var k :| 0 <= k <= |name| && (forall i | 0 <= i < k :: IsSeparator(name[i]))
             && (k < |name| ==> !IsSeparator(name[k])) && Spells(name[k..], segments, SLASH, BACKSLASH);
    RelPathFrom(name, k);
    SpelledIsJoined(name[k..], segments, SLASH, BACKSLASH);
    SplitJoin(segments, SLASH);
  }

  /** Every name is a path of some segments. */
  lemma {:induction false} EveryNameHasSegments(name: seq<byte>) returns (segments: seq<seq<byte>>)
    ensures SpelledAs(name, segments)
    decreases |name|
  {
    if name != [] && IsSeparator(name[0]) {
      segments := EveryNameHasSegments(name[1..]);
      var k :| 0 <= k <= |name[1..]| && (forall i | 0 <= i < k :: IsSeparator(name[1..][i]))
               && (k < |name[1..]| ==> !IsSeparator(name[1..][k]))
               && Spells(name[1..][k..], segments, SLASH, BACKSLASH);
      assert name[1..][k..] == name[k + 1..];
      assert forall i | 0 <= i < k + 1 :: i > 0 ==> name[i] == name[1..][i - 1];
    } else {
      segments := EverySpells(name, SLASH, BACKSLASH);
      assert name[0..] == name;
    }
  }

  // ----- what the first n documents come to

  ghost function ExtractedRows(r: MetadataReader, w: World, skipObj: bool, n: nat): set<nat>
    requires r.Valid()
  {
    set row: nat | 1 <= row <= n && OutcomeOf(r, w, skipObj, row).Extracted?
  }

  ghost function ObjRows(r: MetadataReader, w: World, skipObj: bool, n: nat): set<nat>
    requires r.Valid()
  {
    set row: nat | 1 <= row <= n && OutcomeOf(r, w, skipObj, row).UnderObj?
  }

  ghost function SourcelessRows(r: MetadataReader, w: World, skipObj: bool, n: nat): set<nat>
    requires r.Valid()
  {
    set row: nat | 1 <= row <= n && OutcomeOf(r, w, skipObj, row).NoSource?
  }

  ghost predicate NoneFailed(r: MetadataReader, w: World, skipObj: bool, n: nat)
    requires r.Valid()
  {
    forall row: nat | 1 <= row <= n :: !OutcomeOf(r, w, skipObj, row).Failed?
  }

  /** The last of the first n documents that was written to a path. */
  function LastWriter(r: MetadataReader, w: World, skipObj: bool, n: nat, path: seq<byte>): Option<nat>
    requires r.Valid()
  {
    if n == 0 then None
    else
      var o := OutcomeOf(r, w, skipObj, n);
      if o.Extracted? && o.path == path then Some(n) else LastWriter(r, w, skipObj, n - 1, path)
  }

  /** Each path holds the source of the last document written to it, and what it held before if there is none. */
  ghost predicate FilesAfter(r: MetadataReader, w: World, skipObj: bool, n: nat, before: Files, files: Files)
    requires r.Valid()
  {
    forall path: seq<byte> :: FileAfter(r, w, skipObj, n, before, files, path)
  }

  ghost predicate FileAfter(
    r: MetadataReader, w: World, skipObj: bool, n: nat, before: Files, files: Files, path: seq<byte>)
    requires r.Valid()
  {
    match LastWriter(r, w, skipObj, n, path)
    case None => (path in files <==> path in before) && (path in before ==> files[path] == before[path])
    case Some(row) =>
      var o := OutcomeOf(r, w, skipObj, row);
      o.Extracted? && path in files && files[path] == o.text
  }

  /**
   All documents are gone through in order up to the first that fails. On success the three counts
   are those of the documents extracted, without a source and under obj, in that order of tests.
   */
  method Extract(r: MetadataReader, w: World, skipObj: bool, before: Files)
    returns (result: ExtractResult, files: Files, error: Option<PdbError>)
    requires r.Valid()
    ensures result.total == r.DocumentCount()
    ensures error == None <==> NoneFailed(r, w, skipObj, result.total)
    ensures error == None ==>
              && result.extracted == |ExtractedRows(r, w, skipObj, result.total)|
              && result.skipped == |SourcelessRows(r, w, skipObj, result.total)|
              && result.skippedObj == |ObjRows(r, w, skipObj, result.total)|
              && result.total == result.extracted + result.skipped + result.skippedObj
              && FilesAfter(r, w, skipObj, result.total, before, files)
    ensures error.Some? ==>
              exists row: nat | 1 <= row <= result.total ::
                && NoneFailed(r, w, skipObj, row - 1) && OutcomeOf(r, w, skipObj, row) == Failed(error.value)
                && FilesAfter(r, w, skipObj, row - 1, before, files)
  {
    hide OutcomeOf, FileAfter;
    result := ExtractResult(r.DocumentCount(), 0, 0, 0);
    files := before;
    NothingWritten(r, w, skipObj, before);
    for row := 1 to result.total + 1
      invariant result.total == r.DocumentCount()
      invariant NoneFailed(r, w, skipObj, row - 1)
      invariant result.extracted == |ExtractedRows(r, w, skipObj, row - 1)|
      invariant result.skippedObj == |ObjRows(r, w, skipObj, row - 1)|
      invariant FilesAfter(r, w, skipObj, row - 1, before, files)
    {
      CountStep(r, w, skipObj, row);
      FilesStep(r, w, skipObj, row, before, files);
      var o := ExtractOne(r, w, skipObj, row);
      match o
      case Failed(e) => return result, files, Some(e);
      case UnderObj => result := result.(skippedObj := result.skippedObj + 1);
      case NoSource =>
      case Extracted(path, text) =>
        files := files[path := text];
        result := result.(extracted := result.extracted + 1);
    }
    CountsPartition(r, w, skipObj, result.total);
    result := result.(skipped := result.total - result.extracted - result.skippedObj);
    error := None;
  }

  /** One turn of the loop, without its bookkeeping. */
  method ExtractOne(r: MetadataReader, w: World, skipObj: bool, row: nat) returns (o: Outcome)
    requires r.Valid()
    ensures o == OutcomeOf(r, w, skipObj, row)
  {
    hide MetadataReader.NameOf, MetadataReader.SourceOf, MetadataReader.Valid, IsUnderObjDirectory, RelPath, Decompress;
    var name := r.DocumentName(row);
    if name.Err? {
      return Failed(name.error);
    }
    var relPath := RelPath(name.value);
    if skipObj && IsUnderObjDirectory(relPath) {
      return UnderObj;
    }
    var blob := r.EmbeddedSource(row);
    if blob.Err? {
      return Failed(blob.error);
    }
    if blob.value == None {
      return NoSource;
    }
    var source := Decompress(w, blob.value.value);
    if source.Err? {
      return Failed(source.error);
    }
    var fullPath := w.destination(relPath);
    if !w.writable(fullPath) {
      return Failed(WriteFailed);
    }
    return Extracted(fullPath, source.value);
  }

  lemma NothingWritten(r: MetadataReader, w: World, skipObj: bool, before: Files)
    requires r.Valid()
    ensures FilesAfter(r, w, skipObj, 0, before, before)
    ensures ExtractedRows(r, w, skipObj, 0) == {} && ObjRows(r, w, skipObj, 0) == {}
  {
    hide OutcomeOf;
    forall path: seq<byte> ensures FileAfter(r, w, skipObj, 0, before, before, path) {}
  }

  lemma AddOne(s: set<nat>, t: set<nat>, x: nat, added: bool)
    requires x !in s && forall y :: y in t <==> y in s || (added && y == x)
    ensures |t| == |s| + if added then 1 else 0
  {
    assert t == if added then s + {x} else s;
  }

  /** How one more document adds to the counts. */
  lemma CountStep(r: MetadataReader, w: World, skipObj: bool, row: nat)
    requires r.Valid() && row >= 1
    ensures |ExtractedRows(r, w, skipObj, row)|
         == |ExtractedRows(r, w, skipObj, row - 1)| + if OutcomeOf(r, w, skipObj, row).Extracted? then 1 else 0
    ensures |ObjRows(r, w, skipObj, row)|
         == |ObjRows(r, w, skipObj, row - 1)| + if OutcomeOf(r, w, skipObj, row).UnderObj? then 1 else 0
    ensures |SourcelessRows(r, w, skipObj, row)|
         == |SourcelessRows(r, w, skipObj, row - 1)| + if OutcomeOf(r, w, skipObj, row).NoSource? then 1 else 0
  {
    hide OutcomeOf, MetadataReader.Valid;
    var o := OutcomeOf(r, w, skipObj, row);
    AddOne(ExtractedRows(r, w, skipObj, row - 1), ExtractedRows(r, w, skipObj, row), row, o.Extracted?);
    AddOne(ObjRows(r, w, skipObj, row - 1), ObjRows(r, w, skipObj, row), row, o.UnderObj?);
    AddOne(SourcelessRows(r, w, skipObj, row - 1), SourcelessRows(r, w, skipObj, row), row, o.NoSource?);
  }

  lemma FilesStep(r: MetadataReader, w: World, skipObj: bool, row: nat, before: Files, files: Files)
    requires r.Valid() && row >= 1 && FilesAfter(r, w, skipObj, row - 1, before, files)
    ensures var o := OutcomeOf(r, w, skipObj, row);
            FilesAfter(r, w, skipObj, row, before, if o.Extracted? then files[o.path := o.text] else files)
  {
    hide OutcomeOf;
    var o := OutcomeOf(r, w, skipObj, row);
    var after := if o.Extracted? then files[o.path := o.text] else files;
    forall path: seq<byte> ensures FileAfter(r, w, skipObj, row, before, after, path) {
      assert FileAfter(r, w, skipObj, row - 1, before, files, path);
    }
  }

  /** The three kinds of document are all there are when none fails. */
  lemma {:induction false} CountsPartition(r: MetadataReader, w: World, skipObj: bool, n: nat)
    requires r.Valid() && NoneFailed(r, w, skipObj, n)
    ensures |ExtractedRows(r, w, skipObj, n)| + |SourcelessRows(r, w, skipObj, n)| + |ObjRows(r, w, skipObj, n)| == n
  {
    hide OutcomeOf;
    if n == 0 {
      assert ExtractedRows(r, w, skipObj, 0) == SourcelessRows(r, w, skipObj, 0) == ObjRows(r, w, skipObj, 0) == {};
    } else {
      CountsPartition(r, w, skipObj, n - 1);
      CountStep(r, w, skipObj, n);
    }
  }

  /** A document is under obj exactly if its name can be read and has a segment "obj", and such are to be skipped. */
  lemma UnderObjExactly(r: MetadataReader, w: World, skipObj: bool, row: nat, segments: seq<seq<byte>>)
    requires r.Valid() && (r.NameOf(row).Ok? ==> SpelledAs(r.NameOf(row).value, segments))
    ensures OutcomeOf(r, w, skipObj, row).UnderObj? <==> skipObj && r.NameOf(row).Ok? && OBJ in segments
  {
    hide MetadataReader.NameOf, MetadataReader.SourceOf, IsUnderObjDirectory, RelPath, Decompress, MetadataReader.Valid,
      SpelledAs;
    if r.NameOf(row).Ok? {
      PathOfSegments(r.NameOf(row).value, segments);
    }
  }

  /** Otherwise it fails with the first of what can go wrong, or its text goes to the path of its segments. */
  lemma ExtractedExactly(r: MetadataReader, w: World, skipObj: bool, row: nat, segments: seq<seq<byte>>)
    requires r.Valid() && (r.NameOf(row).Ok? ==> SpelledAs(r.NameOf(row).value, segments))
    requires !OutcomeOf(r, w, skipObj, row).UnderObj?
    ensures var o, name, source := OutcomeOf(r, w, skipObj, row), r.NameOf(row), r.SourceOf(row);
            if name.Err? then o == Failed(name.error)
            else if source.Err? then o == Failed(source.error)
            else if source.value == None then o.NoSource?
            else if Decompress(w, source.value.value).Err? then o == Failed(Decompress(w, source.value.value).error)
            else if !w.writable(w.destination(Join(segments, [SLASH]))) then o == Failed(WriteFailed)
            else o == Extracted(w.destination(Join(segments, [SLASH])), Decompress(w, source.value.value).value)
  {
    hide MetadataReader.NameOf, MetadataReader.SourceOf, IsUnderObjDirectory, RelPath, Decompress, MetadataReader.Valid,
      SpelledAs, Join;
    if r.NameOf(row).Ok? {
      PathOfSegments(r.NameOf(row).value, segments);
    }
  }

  /** A document counts as sourceless exactly when it is not skipped and no row attaches a source to it. */
  lemma SourcelessMeansNoRow(r: MetadataReader, w: World, skipObj: bool, row: nat)
    requires r.Valid()
    ensures OutcomeOf(r, w, skipObj, row).NoSource? <==>
              && r.NameOf(row).Ok? && !(skipObj && IsUnderObjDirectory(RelPath(r.NameOf(row).value)))
              && AllPassed(r, row, 1, r.customDebugInfo.rowCount + 1)
  {
    hide MetadataReader.NameOf, MetadataReader.SourceOf, IsUnderObjDirectory, RelPath, AllPassed, Decompress,
      MetadataReader.Valid;
    MetadataReaders.NoSource(r, row);
  }
}
