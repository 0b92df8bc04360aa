/**
 internal/pdb/root_header.go: the metadata root and its stream directory
 (ECMA-335 II.24.2.1 and II.24.2.2).
 */
module RootHeader {
  import opened Bytes
  import opened Options
  import opened Results
  import opened ByteCursors

  /** "BSJB" */
  const SIGNATURE: uint32 := 0x424A_5342

  datatype StreamHeader = StreamHeader(offset: uint32, size: uint32)

  type Directory = map<seq<byte>, StreamHeader>

  /** One directory entry: offset, size, padded name. */
  function EntryAt(data: seq<byte>, pos: nat): Parsed<(StreamHeader, seq<byte>)> {
    var (offset, p) :- Uint32At(data, pos);
    var (size, q) :- Uint32At(data, p);
    var (name, r) :- CStringAt(data, q);
    Ok(((StreamHeader(offset, size), name), AlignUp4(r)))
  }

  /** The remaining `count` entries, a later one replacing an earlier one of the same name. */
  function EntriesAt(data: seq<byte>, pos: nat, count: nat, found: Directory): Result<Directory>
    decreases count
  {
    if count == 0 then Ok(found)
    else
      var ((header, name), next) :- EntryAt(data, pos);
      EntriesAt(data, next, count - 1, found[name := header])
  }

  /** The position and number of the directory entries. */
  function PreambleAt(data: seq<byte>): Parsed<nat> {
    var (magic, p0) :- Uint32At(data, 0);
    if magic != SIGNATURE then Err(BadSignature)
    else
      var (_, p1) :- UintAt(data, p0, 2);
      var (_, p2) :- UintAt(data, p1, 2);
      var (_, p3) :- Uint32At(data, p2);
      var (versionLength, p4) :- Uint32At(data, p3);
      var (_, p5) :- BytesAt(data, p4, versionLength);
      var (_, p6) :- UintAt(data, p5, 2);
      UintAt(data, p6, 2)
  }

  function StreamsOf(data: seq<byte>): Result<Directory> {
    var (count, pos) :- PreambleAt(data);
    EntriesAt(data, pos, count, map[])
  }

  /** The fixed part of the root, up to and including the number of streams. */
  method ReadPreamble(c: ByteCursor) returns (r: Result<nat>)
    requires c.pos == 0
    modifies c`pos
    ensures r == Value(PreambleAt(c.data))
    ensures r.Ok? ==> c.pos == PreambleAt(c.data).value.1
  {
    var magic :- c.ReadUint32();
    if magic != SIGNATURE {
      return Err(BadSignature);
    }
    var _ :- c.ReadUint16();
    var _ :- c.ReadUint16();
    var _ :- c.ReadUint32();
    var versionLength :- c.ReadUint32();
    var _ :- c.ReadBytes(versionLength);
    var _ :- c.ReadUint16();
    r := c.ReadUint16();
  }

  method ReadEntry(c: ByteCursor) returns (r: Result<(StreamHeader, seq<byte>)>)
    modifies c`pos
    ensures r == Value(EntryAt(c.data, old(c.pos)))
    ensures r.Ok? ==> c.pos == EntryAt(c.data, old(c.pos)).value.1
  {
    var offset :- c.ReadUint32();
    var size :- c.ReadUint32();
    var name :- c.ReadCString();
    c.Align4();
    return Ok((StreamHeader(offset, size), name));
  }

  method ParseStreams(data: seq<byte>) returns (r: Result<Directory>)
    ensures r == StreamsOf(data)
  {
    hide EntryAt;
    var c := new ByteCursor(data);
    var streamCount :- ReadPreamble(c);
    var streams: Directory := map[];
    ghost var expected := EntriesAt(data, c.pos, streamCount, streams);
    assert expected == StreamsOf(data);
    for i := 0 to streamCount
      invariant EntriesAt(data, c.pos, streamCount - i, streams) == expected
    {
      var entry :- ReadEntry(c);
      streams := streams[entry.1 := entry.0];
    }
    return Ok(streams);
  }

  /** Offsets and sizes are 32-bit, so their 64-bit sum neither wraps nor goes negative. */
  function SliceStream(data: seq<byte>, h: StreamHeader): Result<seq<byte>> {
    var start: int := h.offset;
    var end := start + h.size;
    if start < 0 || end > |data| || end < start then Err(StreamOutOfBounds) else Ok(data[start..end])
  }

  // ----- the writer's side

  datatype Stream = Stream(name: seq<byte>, content: seq<byte>)

  /** The fields of the root that the reader skips. */
  datatype RootFields = RootFields(major: nat, minor: nat, reserved: nat, version: seq<byte>, flags: nat)

  predicate ValidFields(f: RootFields) {
    && f.major < 0x1_0000 && f.minor < 0x1_0000 && f.reserved < 0x1_0000_0000 && f.flags < 0x1_0000
    && |f.version| % 4 == 0
  }

  function Entry(offset: nat, s: Stream): (b: seq<byte>)
    ensures |b| == 8 + |PaddedName(s.name)|
  {
    LeBytes(offset, 4) + LeBytes(|s.content|, 4) + PaddedName(s.name)
  }

  /** The directory of streams whose contents are laid out one after another from `offset`. */
  function Entries(streams: seq<Stream>, offset: nat): seq<byte> {
    if streams == [] then []
    else Entry(offset, streams[0]) + Entries(streams[1..], offset + |streams[0].content|)
  }

  function EntriesLength(streams: seq<Stream>): (n: nat)
    ensures n % 4 == 0
  {
    if streams == [] then 0 else 8 + |PaddedName(streams[0].name)| + EntriesLength(streams[1..])
  }

  function Contents(streams: seq<Stream>): seq<byte> {
    if streams == [] then [] else streams[0].content + Contents(streams[1..])
  }

  function Preamble(f: RootFields, count: nat): (b: seq<byte>)
    ensures |b| == 20 + |f.version|
  {
    LeBytes(SIGNATURE, 4) + (LeBytes(f.major, 2) + (LeBytes(f.minor, 2) + (LeBytes(f.reserved, 4) +
    (LeBytes(|f.version|, 4) + (f.version + (LeBytes(f.flags, 2) + LeBytes(count, 2)))))))
  }

  function ContentsStart(f: RootFields, streams: seq<Stream>): nat {
    20 + |f.version| + EntriesLength(streams)
  }

  function SerializeRoot(f: RootFields, streams: seq<Stream>): seq<byte> {
    Preamble(f, |streams|) + (Entries(streams, ContentsStart(f, streams)) + Contents(streams))
  }

  /** What the format can express: NUL-free names, a 16-bit count, 32-bit offsets. */
  predicate Representable(f: RootFields, streams: seq<Stream>) {
    && ValidFields(f)
    && |streams| < 0x1_0000
    && (forall s <- streams :: 0 !in s.name)
    && ContentsStart(f, streams) + |Contents(streams)| < 0x1_0000_0000
  }

  /** The content under a name; the last stream of that name wins. */
  function LastNamed(streams: seq<Stream>, name: seq<byte>): Option<seq<byte>> {
    if streams == [] then None
    else match LastNamed(streams[1..], name)
      case Some(content) => Some(content)
      case None => if streams[0].name == name then Some(streams[0].content) else None
  }

  /**
   Every name of `streams` is mapped to the extent of its last content in `data`, and every other
   name to what `before` had for it.
   */
  ghost predicate Locates(data: seq<byte>, dir: Directory, streams: seq<Stream>, before: Directory) {
    forall name: seq<byte> :: LocatesName(data, dir, streams, before, name)
  }

  ghost predicate LocatesName(
    data: seq<byte>, dir: Directory, streams: seq<Stream>, before: Directory, name: seq<byte>)
  {
    match LastNamed(streams, name)
    case None => (name in dir <==> name in before) && (name in before ==> dir[name] == before[name])
    case Some(content) => name in dir && SliceStream(data, dir[name]) == Ok(content)
  }

  // ----- proofs

  lemma {:induction false} EntriesHaveLength(streams: seq<Stream>, offset: nat)
    ensures |Entries(streams, offset)| == EntriesLength(streams)
  {
    if streams != [] {
      EntriesHaveLength(streams[1..], offset + |streams[0].content|);
    }
  }

  lemma EntryRead(data: seq<byte>, pos: nat, offset: nat, s: Stream)
    requires pos % 4 == 0 && offset < 0x1_0000_0000 && |s.content| < 0x1_0000_0000 && 0 !in s.name
    requires At(data, pos, Entry(offset, s))
    ensures EntryAt(data, pos)
         == Ok(((StreamHeader(offset, |s.content|), s.name), pos + 8 + |PaddedName(s.name)|))
  {
    Pow256Values();
    AtAppend(data, pos, LeBytes(offset, 4) + LeBytes(|s.content|, 4), PaddedName(s.name));
    AtAppend(data, pos, LeBytes(offset, 4), LeBytes(|s.content|, 4));
    UintRead(data, pos, offset, 4);
    UintRead(data, pos + 4, |s.content|, 4);
    CStringRead(data, pos + 8, s.name);
  }

  lemma EntriesSplit(data: seq<byte>, pos: nat, streams: seq<Stream>, offset: nat)
    requires streams != []
    requires At(data, pos, Entries(streams, offset)) && At(data, offset, Contents(streams))
    ensures var s, rest := streams[0], streams[1..];
            && At(data, pos, Entry(offset, s)) && At(data, offset, s.content)
            && At(data, pos + 8 + |PaddedName(s.name)|, Entries(rest, offset + |s.content|))
            && At(data, offset + |s.content|, Contents(rest))
  {
    hide Entry;
    var s, rest := streams[0], streams[1..];
    AtAppend(data, pos, Entry(offset, s), Entries(rest, offset + |s.content|));
    AtAppend(data, offset, s.content, Contents(rest));
  }

  lemma EntriesStep(
    data: seq<byte>, pos: nat, count: nat, found: Directory, header: StreamHeader, name: seq<byte>, next: nat)
    requires count > 0 && EntryAt(data, pos) == Ok(((header, name), next))
    ensures EntriesAt(data, pos, count, found) == EntriesAt(data, next, count - 1, found[name := header])
  {}

  lemma LocatesExtend(
    data: seq<byte>, dir: Directory, streams: seq<Stream>, header: StreamHeader, before: Directory)
    requires streams != [] && SliceStream(data, header) == Ok(streams[0].content)
    requires Locates(data, dir, streams[1..], before[streams[0].name := header])
    ensures Locates(data, dir, streams, before)
  {
    forall name: seq<byte> ensures LocatesName(data, dir, streams, before, name) {
      assert LocatesName(data, dir, streams[1..], before[streams[0].name := header], name);
    }
  }

  /** What a reader that already holds `found` ends with. */
  lemma {:induction false} EntriesRead(data: seq<byte>, pos: nat, streams: seq<Stream>, offset: nat, found: Directory)
    requires pos % 4 == 0 && forall s <- streams :: 0 !in s.name
    requires offset + |Contents(streams)| < 0x1_0000_0000
    requires At(data, pos, Entries(streams, offset)) && At(data, offset, Contents(streams))
    ensures EntriesAt(data, pos, |streams|, found).Ok?
    ensures Locates(data, EntriesAt(data, pos, |streams|, found).value, streams, found)
    decreases streams
  {
    hide EntryAt, Entry, PaddedName;
    if streams != [] {
      var s, rest := streams[0], streams[1..];
      var next := pos + 8 + |PaddedName(s.name)|;
      EntriesSplit(data, pos, streams, offset);
      EntryRead(data, pos, offset, s);
      var header := StreamHeader(offset, |s.content|);
      assert SliceStream(data, header) == Ok(s.content);
      EntriesRead(data, next, rest, offset + |s.content|, found[s.name := header]);
      EntriesStep(data, pos, |streams|, found, header, s.name, next);
      LocatesExtend(data, EntriesAt(data, pos, |streams|, found).value, streams, header, found);
    }
  }

  lemma PreambleRead(data: seq<byte>, f: RootFields, count: nat)
    requires ValidFields(f) && count < 0x1_0000 && |f.version| < 0x1_0000_0000
    requires At(data, 0, Preamble(f, count))
    ensures PreambleAt(data) == Ok((count, 20 + |f.version|))
  {
    Pow256Values();
    var v := |f.version|;
    var t6 := LeBytes(f.flags, 2) + LeBytes(count, 2);
    var t5 := f.version + t6;
    var t4 := LeBytes(v, 4) + t5;
    var t3 := LeBytes(f.reserved, 4) + t4;
    var t2 := LeBytes(f.minor, 2) + t3;
    var t1 := LeBytes(f.major, 2) + t2;
    AtAppend(data, 0, LeBytes(SIGNATURE, 4), t1);
    UintRead(data, 0, SIGNATURE, 4);
    AtAppend(data, 4, LeBytes(f.major, 2), t2);
    UintRead(data, 4, f.major, 2);
    AtAppend(data, 6, LeBytes(f.minor, 2), t3);
    UintRead(data, 6, f.minor, 2);
    AtAppend(data, 8, LeBytes(f.reserved, 4), t4);
    UintRead(data, 8, f.reserved, 4);
    AtAppend(data, 12, LeBytes(v, 4), t5);
    UintRead(data, 12, v, 4);
    AtAppend(data, 16, f.version, t6);
    AtAppend(data, 16 + v, LeBytes(f.flags, 2), LeBytes(count, 2));
    UintRead(data, 16 + v, f.flags, 2);
    UintRead(data, 18 + v, count, 2);
  }

  /** Where the three parts of a serialised root lie. */
  lemma RootParts(f: RootFields, streams: seq<Stream>)
    ensures var data, start := SerializeRoot(f, streams), ContentsStart(f, streams);
            && At(data, 0, Preamble(f, |streams|))
            && At(data, 20 + |f.version|, Entries(streams, start))
            && At(data, start, Contents(streams))
  {
    var start := ContentsStart(f, streams);
    var entries := Entries(streams, start);
    EntriesHaveLength(streams, start);
    ThreeParts(Preamble(f, |streams|), entries, Contents(streams),
               SerializeRoot(f, streams), 20 + |f.version|, start);
  }

  /**
   Reading a serialised root succeeds, and for every name, of any length, it locates exactly the
   content of the last stream of that name, or nothing if there is none.
   */
  lemma RootRoundTrip(f: RootFields, streams: seq<Stream>)
    requires Representable(f, streams)
    ensures StreamsOf(SerializeRoot(f, streams)).Ok?
    ensures Locates(SerializeRoot(f, streams), StreamsOf(SerializeRoot(f, streams)).value, streams, map[])
  {
    hide SerializeRoot, Preamble, Entries, Contents, Locates, PreambleAt, EntriesAt, At;
    var data := SerializeRoot(f, streams);
    RootParts(f, streams);
    PreambleRead(data, f, |streams|);
    EntriesRead(data, 20 + |f.version|, streams, ContentsStart(f, streams), map[]);
  }
}
