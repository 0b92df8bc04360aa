/**
 What the reader accepts, exactly: every parser of the format against a description of the bytes that it
 takes, so that a malformed file is an error and nothing but a malformed file is.
 */
module PdbAcceptance {
  import opened Bytes
  import opened Options
  import opened Results
  import opened ByteCursors
  import opened RootHeader
  import opened TablesStream
  import opened DebugTables
  import opened Heaps
  import opened Guids
  import opened Text
  import opened MetadataReaders

  // ----- the cursor

  lemma {:induction false} LeInverse(b: seq<byte>)
    ensures LeBytes(LeValue(b), |b|) == b
  {
    if b != [] {
      LeInverse(b[1..]);
      assert b == [b[0]] + b[1..];
      assert LeValue(b) / 256 == LeValue(b[1..]) && LeValue(b) % 256 == b[0];
    }
  }

  lemma BytesExactly(data: seq<byte>, pos: nat, n: nat)
    ensures var r := BytesAt(data, pos, n);
            && (r.Ok? <==> pos + n <= |data|) && (r.Err? ==> r.error == UnexpectedEof)
            && (r.Ok? ==> |r.value.0| == n && At(data, pos, r.value.0) && r.value.1 == pos + n)
  {}

  lemma UintExactly(data: seq<byte>, pos: nat, w: nat, v: nat, next: nat)
    ensures UintAt(data, pos, w) == Ok((v, next)) <==> v < Pow256(w) && At(data, pos, LeBytes(v, w)) && next == pos + w
    ensures UintAt(data, pos, w).Err? <==> pos + w > |data|
    ensures UintAt(data, pos, w).Err? ==> UintAt(data, pos, w).error == UnexpectedEof
  {
    hide LeValue, LeBytes, Pow256;
    if pos + w <= |data| {
      LeInverse(data[pos..pos + w]);
    }
    if v < Pow256(w) {
      LeRoundTrip(v, w);
    }
  }

  lemma Uint32Exactly(data: seq<byte>, pos: nat, v: uint32, next: nat)
    ensures Uint32At(data, pos) == Ok((v, next)) <==> At(data, pos, LeBytes(v, 4)) && next == pos + 4
    ensures Uint32At(data, pos).Err? <==> pos + 4 > |data|
    ensures Uint32At(data, pos).Err? ==> Uint32At(data, pos).error == UnexpectedEof
  {
    hide LeBytes, UintAt, Pow256;
    Pow256Values();
    UintExactly(data, pos, 4, v, next);
  }

  lemma CStringExactly(data: seq<byte>, pos: nat, s: seq<byte>, next: nat)
    ensures CStringAt(data, pos) == Ok((s, next)) <==>
              0 !in s && At(data, pos, s + [0]) && next == pos + |s| + 1
    ensures CStringAt(data, pos).Err? <==> forall i | pos <= i < |data| :: data[i] != 0
    ensures CStringAt(data, pos).Err? ==> CStringAt(data, pos).error == UnexpectedEof
  {
    var k := NulFrom(data, pos);
    if 0 !in s && At(data, pos, s + [0]) && next == pos + |s| + 1 {
      AtAppend(data, pos, s, [0]);
      assert data[pos + |s|] == data[pos + |s|..pos + |s| + 1][0];
      assert forall i | pos <= i < pos + |s| :: data[i] == data[pos..pos + |s|][i - pos];
      assert k == pos + |s|;
    }
    if k < |data| {
      AtAppend(data, pos, data[pos..k], [0]);
      assert data[k..k + 1] == [0];
    }
  }

  /** How many bytes a compressed integer takes, by its first; none if that begins no integer. */
  function LengthByFirst(first: byte): nat {
    if first < 0x80 then 1 else if first < 0xC0 then 2 else if first < 0xE0 then 4 else 0
  }

  function BigEndian(b: seq<byte>): nat {
    if b == [] then 0 else 256 * BigEndian(b[..|b| - 1]) + b[|b| - 1]
  }

  /** The bits that tell the length. */
  function Marker(length: nat): nat {
    if length == 2 then 0x8000 else if length == 4 then 0xC000_0000 else 0
  }

  lemma BigEndianFour(a: byte, b: byte, c: byte, d: byte)
    ensures BigEndian([a]) == a && BigEndian([a, b]) == 256 * a + b
    ensures BigEndian([a, b, c, d]) == 0x100_0000 * a + 0x1_0000 * b + 0x100 * c + d
  {
    assert [a, b][..1] == [a] && [a, b, c][..2] == [a, b] && [a, b, c, d][..3] == [a, b, c];
  }

  /** A compressed integer is read exactly if its first byte begins one and all its bytes are there. */
  lemma CompressedExactly(data: seq<byte>, pos: nat)
    ensures var r := CompressedAt(data, pos);
            && (r.Ok? <==> pos < |data| && LengthByFirst(data[pos]) > 0 && pos + LengthByFirst(data[pos]) <= |data|)
            && (r.Err? ==> r.error == if pos < |data| && LengthByFirst(data[pos]) == 0 then InvalidCompressedInteger
                                      else UnexpectedEof)
  {
    if pos < |data| {
      FirstByte(data[pos]);
    }
  }

  lemma FirstByte(b: int)
    requires 0 <= b < 0x100
    ensures b / 0x80 == 0 <==> b < 0x80
    ensures b >= 0x80 ==> ((b / 0x40) % 2 == 0 <==> b < 0xC0)
    ensures b >= 0xC0 ==> ((b / 0x20) % 2 == 0 <==> b < 0xE0)
    ensures b >= 0x80 && b < 0xC0 ==> b % 0x40 == b - 0x80
    ensures b >= 0xC0 && b < 0xE0 ==> b % 0x20 == b - 0xC0
  {}

  /** Its value is that of its bytes, most significant first, without the marker; canonical or not. */
  lemma CompressedValue(data: seq<byte>, pos: nat)
    requires CompressedAt(data, pos).Ok?
    ensures pos < |data|
    ensures var (v, next) := CompressedAt(data, pos).value;
            next == pos + LengthByFirst(data[pos]) <= |data| && BigEndian(data[pos..next]) == v + Marker(next - pos)
  {
    CompressedExactly(data, pos);
    hide BigEndian;
    FirstByte(data[pos]);
    var n := LengthByFirst(data[pos]);
    if n == 1 {
      assert data[pos..pos + 1] == [data[pos]];
      BigEndianFour(data[pos], 0, 0, 0);
    } else if n == 2 {
      assert data[pos..pos + 2] == [data[pos], data[pos + 1]];
      BigEndianFour(data[pos], data[pos + 1], 0, 0);
    } else {
      assert data[pos..pos + 4] == [data[pos], data[pos + 1], data[pos + 2], data[pos + 3]];
      BigEndianFour(data[pos], data[pos + 1], data[pos + 2], data[pos + 3]);
    }
  }

  // ----- the root

  datatype DirectoryEntry = DirectoryEntry(name: seq<byte>, header: StreamHeader)

  function EntryText(e: DirectoryEntry): seq<byte> {
    LeBytes(e.header.offset, 4) + (LeBytes(e.header.size, 4) + (e.name + [0]))
  }

  lemma EntryExactly(data: seq<byte>, pos: nat, e: DirectoryEntry, next: nat)
    ensures EntryAt(data, pos) == Ok(((e.header, e.name), next)) <==>
              0 !in e.name && At(data, pos, EntryText(e)) && next == AlignUp4(pos + 9 + |e.name|)
  {
    hide LeBytes, Uint32At, CStringAt, AlignUp4, At;
    Uint32Exactly(data, pos, e.header.offset, pos + 4);
    Uint32Exactly(data, pos + 4, e.header.size, pos + 8);
    CStringExactly(data, pos + 8, e.name, pos + 9 + |e.name|);
    AtAppend(data, pos, LeBytes(e.header.offset, 4), LeBytes(e.header.size, 4) + (e.name + [0]));
    AtAppend(data, pos + 4, LeBytes(e.header.size, 4), e.name + [0]);
    if EntryAt(data, pos) == Ok(((e.header, e.name), next)) {
      Uint32Exactly(data, pos, e.header.offset, Uint32At(data, pos).value.1);
      Uint32Exactly(data, pos + 4, e.header.size, Uint32At(data, pos + 4).value.1);
      CStringExactly(data, pos + 8, e.name, CStringAt(data, pos + 8).value.1);
    }
  }

  /** The entries lie one after another, each from a multiple of four on if the first does. */
  ghost predicate EntriesLie(data: seq<byte>, pos: nat, es: seq<DirectoryEntry>)
    decreases |es|
  {
    es == [] ||
    (0 !in es[0].name && At(data, pos, EntryText(es[0])) && EntriesLie(data, AlignUp4(pos + 9 + |es[0].name|), es[1..]))
  }

  function Listed(found: Directory, es: seq<DirectoryEntry>): Directory {
    if es == [] then found else Listed(found, es[..|es| - 1])[es[|es| - 1].name := es[|es| - 1].header]
  }

  /** The last entry of a name counts, and other names have none. */
  lemma {:induction false} ListedIsLast(found: Directory, es: seq<DirectoryEntry>, name: seq<byte>)
    ensures name in Listed(found, es) <==> name in found || exists e <- es :: e.name == name
  {
    if es != [] {
      var init := es[..|es| - 1];
      ListedIsLast(found, init, name);
      assert es == init + [es[|es| - 1]];
    }
  }

  lemma {:induction false} LastListed(found: Directory, es: seq<DirectoryEntry>, k: nat)
    requires k < |es| && forall j | k < j < |es| :: es[j].name != es[k].name
    ensures es[k].name in Listed(found, es) && Listed(found, es)[es[k].name] == es[k].header
  {
    if k < |es| - 1 {
      LastListed(found, es[..|es| - 1], k);
    }
  }

  lemma {:induction false} ListedFirst(found: Directory, es: seq<DirectoryEntry>)
    requires es != []
    ensures Listed(found, es) == Listed(found[es[0].name := es[0].header], es[1..])
  {
    if |es| > 1 {
      ListedFirst(found, es[..|es| - 1]);
      assert es[..|es| - 1][1..] == es[1..][..|es| - 2];
    }
  }

  lemma {:induction false} EntriesParsed(data: seq<byte>, pos: nat, es: seq<DirectoryEntry>, found: Directory)
    requires EntriesLie(data, pos, es)
    ensures EntriesAt(data, pos, |es|, found) == Ok(Listed(found, es))
    decreases |es|
  {
    hide EntryAt, At, EntryText, AlignUp4, Listed;
    if es == [] {
      NothingListed(found);
    } else {
      var next := AlignUp4(pos + 9 + |es[0].name|);
      EntryExactly(data, pos, es[0], next);
      EntriesParsed(data, next, es[1..], found[es[0].name := es[0].header]);
      ListedFirst(found, es);
      EntriesStep(data, pos, |es|, found, es[0].header, es[0].name, next);
    }
  }

  lemma NothingListed(found: Directory)
    ensures Listed(found, []) == found
  {}

  lemma {:induction false} EntriesFound(data: seq<byte>, pos: nat, count: nat, found: Directory)
    returns (es: seq<DirectoryEntry>)
    requires EntriesAt(data, pos, count, found).Ok?
    ensures |es| == count && EntriesLie(data, pos, es)
    decreases count
  {
    hide EntryAt, At, EntryText, AlignUp4;
    es := [];
    if count > 0 {
      var ((header, name), next) := EntryAt(data, pos).value;
      var e := DirectoryEntry(name, header);
      EntryExactly(data, pos, e, next);
      var rest := EntriesFound(data, next, count - 1, found[name := header]);
      es := [e] + rest;
    }
  }

  /** "BSJB", twelve bytes, the version, four bytes of which two count the entries, and the entries. */
  ghost predicate HasDirectory(data: seq<byte>, es: seq<DirectoryEntry>) {
    && |data| >= 16 && data[..4] == [0x42, 0x53, 0x4A, 0x42]
    && var v := LeValue(data[12..16]);
    && 20 + v <= |data| && |es| == LeValue(data[18 + v..20 + v]) && EntriesLie(data, 20 + v, es)
  }

  lemma SignatureIs()
    ensures LeBytes(SIGNATURE, 4) == [0x42, 0x53, 0x4A, 0x42]
  {
    assert LeBytes(0x42, 1) == [0x42] + LeBytes(0, 0);
    assert LeBytes(0x424A, 2) == [0x4A] + LeBytes(0x42, 1);
    assert LeBytes(0x42_4A53, 3) == [0x53] + LeBytes(0x424A, 2);
  }

  lemma PreambleExactly(data: seq<byte>)
    ensures PreambleAt(data).Ok? <==>
              && |data| >= 16 && data[..4] == [0x42, 0x53, 0x4A, 0x42]
              && 20 + LeValue(data[12..16]) <= |data|
    ensures PreambleAt(data).Ok? ==>
              var v := LeValue(data[12..16]);
              PreambleAt(data).value == (LeValue(data[18 + v..20 + v]), 20 + v)
    ensures PreambleAt(data).Err? ==>
              PreambleAt(data).error
              == if |data| >= 4 && data[..4] != [0x42, 0x53, 0x4A, 0x42] then BadSignature else UnexpectedEof
  {
    hide LeValue, LeBytes;
    Pow256Values();
    SignatureIs();
    if |data| >= 4 {
      LeInverse(data[0..4]);
      LeRoundTrip(SIGNATURE, 4);
      assert data[..4] == data[0..4];
    }
  }

  /** A directory is read from exactly the files that have one. */
  lemma DirectoryExactly(data: seq<byte>)
    ensures StreamsOf(data).Ok? <==> exists es: seq<DirectoryEntry> :: HasDirectory(data, es)
    ensures forall es: seq<DirectoryEntry> | HasDirectory(data, es) :: StreamsOf(data) == Ok(Listed(map[], es))
  {
    hide PreambleAt, EntriesAt, EntriesLie, Listed, LeValue;
    PreambleExactly(data);
    forall es: seq<DirectoryEntry> | HasDirectory(data, es) ensures StreamsOf(data) == Ok(Listed(map[], es)) {
      EntriesParsed(data, 20 + LeValue(data[12..16]), es, map[]);
    }
    if StreamsOf(data).Ok? {
      var (count, pos) := PreambleAt(data).value;
      var es := EntriesFound(data, pos, count, map[]);
      assert HasDirectory(data, es);
    }
  }

  lemma SliceExactly(data: seq<byte>, h: StreamHeader)
    ensures var r := SliceStream(data, h);
            && (r.Ok? <==> h.offset + h.size <= |data|) && (r.Err? ==> r.error == StreamOutOfBounds)
            && (r.Ok? ==> |r.value| == h.size && At(data, h.offset, r.value))
  {}

  // ----- the tables

  /** The table is listed and has rows that the reader cannot size. */
  ghost predicate Unsupported(s: Shape, t: Slot) {
    Bit(s.valid, t) && !(0x30 <= t <= 0x37) && s.rowCounts[t] != 0
  }

  /** The table is one of the two wanted, and the data ends before its rows do. */
  ghost predicate Truncated(payload: seq<byte>, s: Shape, t: Slot) {
    Bit(s.valid, t) && (t == 0x30 || t == 0x37) && OffsetOf(s, t) + TableSize(s, t) > |payload|
  }

  ghost predicate Bad(payload: seq<byte>, s: Shape, t: Slot) {
    Unsupported(s, t) || Truncated(payload, s, t)
  }

  /** A layout is accepted exactly if no table is bad; the first bad one is the error. */
  lemma LayoutExactly(payload: seq<byte>, s: Shape)
    ensures LayoutOf(payload, s).Ok? <==> forall t: Slot :: !Bad(payload, s, t)
    ensures forall t: Slot | Bad(payload, s, t) && (forall u: Slot | u < t :: !Bad(payload, s, u)) ::
              LayoutOf(payload, s)
              == Err(if Unsupported(s, t) then UnsupportedTable(t, s.rowCounts[t]) else RowDataOutOfRange)
  {
    hide FaultOf, FirstFault, DocumentsOf, CustomDebugInfoOf;
    forall t: Slot | Bad(payload, s, t) && (forall u: Slot | u < t :: !Bad(payload, s, u))
      ensures LayoutOf(payload, s)
           == Err(if Unsupported(s, t) then UnsupportedTable(t, s.rowCounts[t]) else RowDataOutOfRange)
    {
      FaultFirst(payload, s, 0, t);
      FaultIs(payload, s, t);
    }
    if LayoutOf(payload, s).Ok? {
      forall t: Slot ensures !Bad(payload, s, t) {
        NoFault(s, |payload|, 0, t);
        FaultIs(payload, s, t);
      }
    } else {
      var t := SomeFault(payload, s, 0);
      FaultIs(payload, s, t);
    }
  }

  lemma FaultIs(payload: seq<byte>, s: Shape, t: Slot)
    ensures FaultOf(s, |payload|, t)
         == if !Bad(payload, s, t) then None
            else Some(if Unsupported(s, t) then UnsupportedTable(t, s.rowCounts[t]) else RowDataOutOfRange)
  {
    hide OffsetOf, TableSize, Bit;
  }

  lemma {:induction false} FaultFirst(payload: seq<byte>, s: Shape, from: nat, t: Slot)
    requires from <= t && Bad(payload, s, t) && forall u: Slot | u < t :: !Bad(payload, s, u)
    ensures FirstFault(s, |payload|, from) == FaultOf(s, |payload|, t)
    decreases t - from
  {
    hide FaultOf, Bad;
    FaultIs(payload, s, from);
    if from < t {
      FaultFirst(payload, s, from + 1, t);
    }
  }

  lemma {:induction false} SomeFault(payload: seq<byte>, s: Shape, from: nat) returns (t: Slot)
    requires from <= TABLE_COUNT && FirstFault(s, |payload|, from).Some?
    ensures FaultOf(s, |payload|, t).Some?
    decreases TABLE_COUNT - from
  {
    hide FaultOf;
    t := 0;
    if from < TABLE_COUNT {
      if FaultOf(s, |payload|, from).Some? {
        t := from;
      } else {
        t := SomeFault(payload, s, from + 1);
      }
    }
  }

  // ----- heaps

  lemma RefExactly(data: seq<byte>, offset: int, size: nat)
    requires size == 2 || size == 4
    ensures ReadHeapRef(data, offset, size).Ok? <==> 0 <= offset <= |data| - size
    ensures ReadHeapRef(data, offset, size).Err? ==> ReadHeapRef(data, offset, size).error == HeapReferenceOutOfRange
  {}

  /** A blob is read exactly if its length can be and its bytes are all there. */
  lemma BlobExactly(heap: seq<byte>, offset: nat, b: seq<byte>)
    ensures BlobAt(heap, offset) == Ok(b) <==>
              CompressedAt(heap, offset).Ok? &&
              CompressedAt(heap, offset).value.0 == |b| && At(heap, CompressedAt(heap, offset).value.1, b)
    ensures BlobAt(heap, offset).Err? <==>
              CompressedAt(heap, offset).Err? ||
              CompressedAt(heap, offset).value.1 + CompressedAt(heap, offset).value.0 > |heap|
  {
    hide CompressedAt;
  }

  /** The guids of a heap are its whole groups of sixteen bytes, counted from 1; 0 is no guid. */
  lemma GuidExactly(heap: seq<byte>, index: uint32)
    ensures ReadGuidFromHeap(heap, index).Ok? <==> 16 * index <= |heap|
    ensures ReadGuidFromHeap(heap, index).Err? ==> ReadGuidFromHeap(heap, index).error == GuidIndexOutOfRange(index)
    ensures index == 0 ==> forall k | 0 <= k < 16 :: ReadGuidFromHeap(heap, index).value[k] == 0
    ensures 0 < 16 * index <= |heap| ==>
              ReadGuidFromHeap(heap, index).value == heap[16 * index - 16..16 * index]
  {}

  /** The references end with the data, and each refers to a part. */
  ghost predicate Refer(heap: seq<byte>, refs: seq<byte>, pos: nat, parts: seq<seq<byte>>)
    decreases |parts|
  {
    if parts == [] then pos >= |refs|
    else
      && pos < |refs| && CompressedAt(refs, pos).Ok?
      && BlobAt(heap, CompressedAt(refs, pos).value.0) == Ok(parts[0])
      && Refer(heap, refs, CompressedAt(refs, pos).value.1, parts[1..])
  }

  lemma {:induction false} PartsExactly(heap: seq<byte>, refs: seq<byte>, pos: nat, parts: seq<seq<byte>>)
    ensures PartsAt(heap, refs, pos) == Ok(parts) <==> Refer(heap, refs, pos, parts)
    decreases |parts|
  {
    hide BlobAt, CompressedAt;
    if parts != [] && pos < |refs| && CompressedAt(refs, pos).Ok? {
      CompressedProgress(refs, pos);
      PartsExactly(heap, refs, CompressedAt(refs, pos).value.1, parts[1..]);
      assert parts == [parts[0]] + parts[1..];
      if PartsAt(heap, refs, pos) == Ok(parts) {
        PartsFirst(heap, refs, pos);
      }
    } else if pos < |refs| && CompressedAt(refs, pos).Ok? && PartsAt(heap, refs, pos).Ok? {
      PartsFirst(heap, refs, pos);
    }
  }

  lemma PartsFirst(heap: seq<byte>, refs: seq<byte>, pos: nat)
    requires pos < |refs| && CompressedAt(refs, pos).Ok? && PartsAt(heap, refs, pos).Ok?
    ensures BlobAt(heap, CompressedAt(refs, pos).value.0).Ok?
    ensures PartsAt(heap, refs, CompressedAt(refs, pos).value.1).Ok?
    ensures PartsAt(heap, refs, pos).value
         == [BlobAt(heap, CompressedAt(refs, pos).value.0).value]
            + PartsAt(heap, refs, CompressedAt(refs, pos).value.1).value
  {
    hide BlobAt, CompressedAt;
  }

  lemma AllPartsExactly(heap: seq<byte>, refs: seq<byte>)
    ensures PartsAt(heap, refs, 0).Ok? <==> exists parts: seq<seq<byte>> :: Refer(heap, refs, 0, parts)
    ensures forall parts: seq<seq<byte>> | Refer(heap, refs, 0, parts) :: PartsAt(heap, refs, 0) == Ok(parts)
  {
    hide Refer, PartsAt;
    forall parts: seq<seq<byte>> | Refer(heap, refs, 0, parts) ensures PartsAt(heap, refs, 0) == Ok(parts) {
      PartsExactly(heap, refs, 0, parts);
    }
    if PartsAt(heap, refs, 0).Ok? {
      PartsExactly(heap, refs, 0, PartsAt(heap, refs, 0).value);
    }
  }

  /** A separator of seven bits, and references to parts. */
  ghost predicate IsName(heap: seq<byte>, content: seq<byte>, parts: seq<seq<byte>>) {
    content != [] && content[0] <= 0x7F && Refer(heap, content[1..], 0, parts)
  }

  /** A name is decoded exactly if its blob is empty or such a one. */
  lemma NameExactly(heap: seq<byte>, offset: nat)
    ensures NameAt(heap, offset).Ok? <==>
              && BlobAt(heap, offset).Ok?
              && var content := BlobAt(heap, offset).value;
              content == [] || exists parts: seq<seq<byte>> :: IsName(heap, content, parts)
    ensures BlobAt(heap, offset) == Ok([]) ==> NameAt(heap, offset) == Ok([])
    ensures forall parts: seq<seq<byte>> |
              BlobAt(heap, offset).Ok? && IsName(heap, BlobAt(heap, offset).value, parts) ::
              NameAt(heap, offset) == Ok(Join(parts, Separator(BlobAt(heap, offset).value[0])))
  {
    hide BlobAt, Refer, PartsAt, Join, Separator;
    if BlobAt(heap, offset).Ok? && BlobAt(heap, offset).value != [] {
      var content := BlobAt(heap, offset).value;
      AllPartsExactly(heap, content[1..]);
      if PartsAt(heap, content[1..], 0).Ok? && content[0] <= 0x7F {
        var parts: seq<seq<byte>> :| Refer(heap, content[1..], 0, parts);
        assert IsName(heap, content, parts);
      }
    }
  }

  // ----- the whole file

  predicate IsAscii(b: seq<byte>, s: string) {
    |b| == |s| && forall i | 0 <= i < |s| :: b[i] == s[i] as int
  }

  lemma StreamNamesAre()
    ensures IsAscii(TABLES, "#~") && IsAscii(UNCOMPRESSED_TABLES, "#-") && IsAscii(PDB, "#Pdb")
    ensures IsAscii(BLOB, "#Blob") && IsAscii(GUID, "#GUID")
  {}

  ghost predicate InFile(data: seq<byte>, h: StreamHeader) {
    h.offset + h.size <= |data|
  }

  /** The header of a "#~" stream is there, and no table after it is bad. */
  ghost predicate TablesAccepted(stream: seq<byte>, external: RowCounts) {
    && |stream| >= 24 && |stream| >= PayloadStart(LeValue(stream[8..16]), stream[6])
    && HeaderOf(stream).Ok? && HeaderOf(stream).value.payloadOffset <= |stream|
    && var h := HeaderOf(stream).value;
    forall t: Slot :: !Bad(stream[h.payloadOffset..], ShapeOf(h, external), t)
  }

  lemma TablesExactly(stream: seq<byte>, external: RowCounts)
    ensures TablesOf(stream, external).Ok? <==> TablesAccepted(stream, external)
  {
    hide HeaderOf, LayoutOf, PayloadStart, Bad, ShapeOf;
    HeaderFields(stream);
    if HeaderOf(stream).Ok? {
      var h := HeaderOf(stream).value;
      LayoutExactly(stream[h.payloadOffset..], ShapeOf(h, external));
    }
  }

  /** The external counts of a file: those of its "#Pdb" stream, all 0 if it has none. */
  ghost predicate ExternalAccepted(data: seq<byte>, dir: Directory, external: RowCounts) {
    if PDB in dir then
      && InFile(data, dir[PDB])
      && ExternalCountsOf(data[dir[PDB].offset..dir[PDB].offset + dir[PDB].size]) == Ok(external)
    else forall t: Slot :: external[t] == 0
  }

  lemma ExternalExactly(data: seq<byte>, dir: Directory, external: RowCounts)
    ensures ExternalCountsIn(data, dir) == Ok(external) <==> ExternalAccepted(data, dir, external)
  {
    hide ExternalCountsOf;
    if PDB in dir {
      SliceExactly(data, dir[PDB]);
    } else if forall t: Slot :: external[t] == 0 {
      assert forall t | 0 <= t < TABLE_COUNT :: external[t] == NO_ROWS[t];
      assert external == NO_ROWS;
    }
  }

  /** Where the tables are: "#~", or "#-" if there is none. */
  function TablesName(dir: Directory): seq<byte> {
    if TABLES in dir then TABLES else UNCOMPRESSED_TABLES
  }

  ghost predicate Accepted(data: seq<byte>, dir: Directory, external: RowCounts) {
    && TablesName(dir) in dir && InFile(data, dir[TablesName(dir)])
    && ExternalAccepted(data, dir, external)
    && (var h := dir[TablesName(dir)];
        TablesAccepted(data[h.offset..h.offset + h.size], external))
    && BLOB in dir && InFile(data, dir[BLOB]) && GUID in dir && InFile(data, dir[GUID])
  }

  /**
   A file opens exactly if it has a directory with the streams needed, all inside the file, and its tables are
   accepted; a missing or malformed one is an error. Its heaps are then those streams.
   */
  lemma OpensExactly(data: seq<byte>)
    ensures ReaderOf(data).Ok? <==>
              exists es: seq<DirectoryEntry>, external: RowCounts ::
                HasDirectory(data, es) && Accepted(data, Listed(map[], es), external)
    ensures forall es: seq<DirectoryEntry> | ReaderOf(data).Ok? && HasDirectory(data, es) ::
              var dir, r := Listed(map[], es), ReaderOf(data).value;
              && BLOB in dir && At(data, dir[BLOB].offset, r.blobHeap) && |r.blobHeap| == dir[BLOB].size
              && GUID in dir && At(data, dir[GUID].offset, r.guidHeap) && |r.guidHeap| == dir[GUID].size
  {
    hide HasDirectory, Listed, StreamsOf, Accepted;
    DirectoryExactly(data);
    forall es: seq<DirectoryEntry>, external: RowCounts |
      HasDirectory(data, es) && Accepted(data, Listed(map[], es), external)
      ensures ReaderOf(data).Ok?
    {
      AcceptedOpens(data, Listed(map[], es), external);
    }
    if ReaderOf(data).Ok? {
      var es: seq<DirectoryEntry> :| HasDirectory(data, es);
      var external := OpenedIsAccepted(data, Listed(map[], es));
      assert HasDirectory(data, es) && Accepted(data, Listed(map[], es), external);
      forall es': seq<DirectoryEntry> | HasDirectory(data, es')
        ensures var dir, r := Listed(map[], es'), ReaderOf(data).value;
                && BLOB in dir && At(data, dir[BLOB].offset, r.blobHeap) && |r.blobHeap| == dir[BLOB].size
                && GUID in dir && At(data, dir[GUID].offset, r.guidHeap) && |r.guidHeap| == dir[GUID].size
      {
        var _ := OpenedIsAccepted(data, Listed(map[], es'));
      }
    }
  }

  lemma AcceptedOpens(data: seq<byte>, dir: Directory, external: RowCounts)
    requires StreamsOf(data) == Ok(dir) && Accepted(data, dir, external)
    ensures ReaderOf(data).Ok?
  {
    hide StreamsOf, TablesOf, TablesAccepted, ExternalAccepted, ExternalCountsIn;
    ExternalExactly(data, dir, external);
    var h := dir[TablesName(dir)];
    TablesExactly(data[h.offset..h.offset + h.size], external);
  }

  lemma OpenedIsAccepted(data: seq<byte>, dir: Directory) returns (external: RowCounts)
    requires StreamsOf(data) == Ok(dir) && ReaderOf(data).Ok?
    ensures Accepted(data, dir, external)
    ensures var r := ReaderOf(data).value;
            && BLOB in dir && At(data, dir[BLOB].offset, r.blobHeap) && |r.blobHeap| == dir[BLOB].size
            && GUID in dir && At(data, dir[GUID].offset, r.guidHeap) && |r.guidHeap| == dir[GUID].size
  {
    hide StreamsOf, TablesOf, TablesAccepted, ExternalAccepted, ExternalCountsIn;
    external := ExternalCountsIn(data, dir).value;
    ExternalExactly(data, dir, external);
    var h := dir[TablesName(dir)];
    TablesExactly(data[h.offset..h.offset + h.size], external);
  }

  /** Columns are read from rows 1 to the row count, and from no others. */
  lemma RowsExactly(r: MetadataReader, row: int)
    requires r.Valid()
    ensures r.NameOffset(row).Ok? <==> 1 <= row <= r.documents.rowCount
    ensures r.Parent(row).Ok? <==> 1 <= row <= r.customDebugInfo.rowCount
    ensures r.KindIndex(row).Ok? <==> 1 <= row <= r.customDebugInfo.rowCount
    ensures r.ValueOffset(row).Ok? <==> 1 <= row <= r.customDebugInfo.rowCount
    ensures r.NameOffset(row).Err? ==> r.NameOffset(row).error == RowOutOfRange(row)
  {
    ColumnsReadable(r);
  }

  /** A row of the document whose Kind cannot be read, the first that is not passed over, is the error. */
  lemma ScanFails(r: MetadataReader, document: int, row: nat)
    requires r.Valid() && 1 <= row <= r.customDebugInfo.rowCount
    requires AllPassed(r, document, 1, row) && !Passed(r, document, row) && !IsSource(r, document, row)
    ensures r.KindIndex(row).Ok? && r.SourceOf(document) == Err(GuidIndexOutOfRange(r.KindIndex(row).value))
  {
    hide MetadataReader.Parent, MetadataReader.KindIndex, MetadataReader.ValueOffset, BlobAt, AllPassed;
    ColumnsReadable(r);
    ScanPasses(r, document, 1, row);
  }
}
