/**
 internal/pdb/heap_ref.go, internal/pdb/guid.go (readGuidFromHeap) and internal/pdb/document_name.go:
 references into the #Blob and #GUID heaps and what they point at (ECMA-335 II.24.2.4 and II.24.2.5,
 Portable PDB v1.0 "Document name blob").
 */
module Heaps {
  import opened Bytes
  import opened Results
  import opened ByteCursors
  import opened Text

  /** A column of two or four bytes. */
  function ReadHeapRef(data: seq<byte>, offset: int, size: nat): Result<uint32>
    requires size == 2 || size == 4
  {
    if offset < 0 || offset + size > |data| then Err(HeapReferenceOutOfRange)
    else
      Pow256Values();
      Ok(LeValue(data[offset..offset + size]))
  }

  lemma HeapRefRead(data: seq<byte>, offset: nat, size: nat, v: nat)
    requires size == 2 || size == 4
    requires v < Pow256(size) && At(data, offset, LeBytes(v, size))
    ensures ReadHeapRef(data, offset, size) == Ok(v)
  {
    LeRoundTrip(v, size);
  }

  // ----- blobs

  function BlobAt(heap: seq<byte>, offset: nat): Result<seq<byte>> {
    var (length, p) :- CompressedAt(heap, offset);
    var (b, _) :- BytesAt(heap, p, length);
    Ok(b)
  }

  method ReadBlob(heap: seq<byte>, offset: uint32) returns (r: Result<seq<byte>>)
    ensures r == BlobAt(heap, offset)
  {
    var c := new ByteCursor(heap);
    c.pos := offset;
    var length :- c.ReadCompressedUint();
    r := c.ReadBytes(length);
  }

  predicate BlobSized(x: seq<byte>) {
    |x| < 0x2000_0000
  }

  /** A length-prefixed blob. */
  function Blob(x: seq<byte>): seq<byte>
    requires BlobSized(x)
  {
    Compress(|x|) + x
  }

  lemma BlobRead(heap: seq<byte>, offset: nat, x: seq<byte>)
    requires BlobSized(x) && At(heap, offset, Blob(x))
    ensures BlobAt(heap, offset) == Ok(x)
  {
    AtAppend(heap, offset, Compress(|x|), x);
    CompressedRoundTrip(heap, offset, |x|);
    BytesRead(heap, offset + |Compress(|x|)|, x);
  }

  // ----- guids

  type Guid = g: seq<byte> | |g| == 16 witness seq(16, _ => 0)

  const NIL_GUID: Guid := [0, 0, 0, 0, 0, 0, 0, 0, 0, 0, 0, 0, 0, 0, 0, 0]

  /** Index 0 is the nil guid, index k the k-th entry. */
  function ReadGuidFromHeap(heap: seq<byte>, index: uint32): Result<Guid> {
    if index == 0 then Ok(NIL_GUID)
    else
      var offset := (index - 1) * 16;
      if offset < 0 || offset + 16 > |heap| then Err(GuidIndexOutOfRange(index))
      else Ok(heap[offset..offset + 16])
  }

  // ----- document names

  /** The blobs that the compressed offsets from pos on refer to. */
  function PartsAt(heap: seq<byte>, refs: seq<byte>, pos: nat): Result<seq<seq<byte>>>
    decreases |refs| - pos
  {
    if pos >= |refs| then Ok([])
    else
      CompressedProgress(refs, pos);
      var (offset, next) :- CompressedAt(refs, pos);
      var part :- BlobAt(heap, offset);
      var rest :- PartsAt(heap, refs, next);
      Ok([part] + rest)
  }

  function Separator(b: byte): seq<byte> {
    if b == 0 then [] else [b]
  }

  function NameAt(heap: seq<byte>, nameOffset: nat): Result<seq<byte>> {
    var content :- BlobAt(heap, nameOffset);
    if content == [] then Ok([])
    else if content[0] > 0x7F then Err(InvalidSeparator(content[0]))
    else
      var parts :- PartsAt(heap, content[1..], 0);
      Ok(Join(parts, Separator(content[0])))
  }

  function Prepend<T>(done: seq<T>, r: Result<seq<T>>): Result<seq<T>> {
    match r
    case Ok(rest) => Ok(done + rest)
    case Err(e) => Err(e)
  }

  method DecodeDocumentName(heap: seq<byte>, nameOffset: uint32) returns (r: Result<seq<byte>>)
    ensures r == NameAt(heap, nameOffset)
  {
    hide CompressedAt, BlobAt, Join;
    var content :- ReadBlob(heap, nameOffset);
    if |content| == 0 {
      return Ok([]);
    }
    var separator := content[0];
    if separator > 0x7F {
      return Err(InvalidSeparator(separator));
    }
    var c := new ByteCursor(content[1..]);
    var sb: seq<byte> := [];
    var first := true;
    ghost var parts: seq<seq<byte>> := [];
    NoPartsYet(separator);
    while c.Remaining() > 0
      invariant first == (parts == [])
      invariant sb == Join(parts, Separator(separator))
      invariant Prepend(parts, PartsAt(heap, c.data, c.pos)) == PartsAt(heap, c.data, 0)
      decreases |c.data| - c.pos
    {
      ghost var pos := c.pos;
      CompressedProgress(c.data, pos);
      if separator != 0 && !first {
        sb := sb + [separator];
      }
      first := false;
      var partOffset :- c.ReadCompressedUint();
      var part :- ReadBlob(heap, partOffset);
      PartsStep(heap, c.data, pos, parts, part);
      JoinAppend(parts, part, Separator(separator));
      sb := sb + part;
      parts := parts + [part];
    }
    assert parts + [] == parts;
    return Ok(sb);
  }

  lemma NoPartsYet(separator: byte)
    ensures Join([], Separator(separator)) == []
    ensures forall r: Result<seq<seq<byte>>> :: Prepend([], r) == r
  {
    forall r: Result<seq<seq<byte>>> ensures Prepend([], r) == r {
      assert r.Ok? ==> [] + r.value == r.value;
    }
  }

  lemma PartsStep(heap: seq<byte>, refs: seq<byte>, pos: nat, done: seq<seq<byte>>, part: seq<byte>)
    requires pos < |refs| && CompressedAt(refs, pos).Ok?
    requires BlobAt(heap, CompressedAt(refs, pos).value.0) == Ok(part)
    ensures Prepend(done, PartsAt(heap, refs, pos))
         == Prepend(done + [part], PartsAt(heap, refs, CompressedAt(refs, pos).value.1))
  {
    hide CompressedAt, BlobAt;
    var rest := PartsAt(heap, refs, CompressedAt(refs, pos).value.1);
    if rest.Ok? {
      assert done + ([part] + rest.value) == done + [part] + rest.value;
    }
  }

  // ----- the writer's side of names

  function References(offsets: seq<uint29>): seq<byte> {
    if offsets == [] then [] else Compress(offsets[0]) + References(offsets[1..])
  }

  /** Each offset has the blob of the corresponding part. */
  ghost predicate PartsStored(heap: seq<byte>, offsets: seq<uint29>, parts: seq<seq<byte>>) {
    |offsets| == |parts| &&
    forall k | 0 <= k < |parts| ::
      BlobSized(parts[k]) && At(heap, offsets[k], Blob(parts[k]))
  }

  lemma {:induction false} PartsRead(
    heap: seq<byte>, refs: seq<byte>, pos: nat, offsets: seq<uint29>, parts: seq<seq<byte>>)
    requires PartsStored(heap, offsets, parts)
    requires At(refs, pos, References(offsets)) && |refs| == pos + |References(offsets)|
    ensures PartsAt(heap, refs, pos) == Ok(parts)
    decreases offsets
  {
    hide Compress, CompressedAt, BlobAt, Blob;
    if offsets != [] {
      AtAppend(refs, pos, Compress(offsets[0]), References(offsets[1..]));
      CompressedRoundTrip(refs, pos, offsets[0]);
      BlobRead(heap, offsets[0], parts[0]);
      PartsRead(heap, refs, pos + |Compress(offsets[0])|, offsets[1..], parts[1..]);
      assert [parts[0]] + parts[1..] == parts;
    } else {
      assert parts == [];
    }
  }

  /** A name decodes to its parts joined with the separator, or run together when it is 0. */
  lemma NameRoundTrip(heap: seq<byte>, nameOffset: nat, separator: byte, offsets: seq<uint29>, parts: seq<seq<byte>>)
    requires PartsStored(heap, offsets, parts)
    requires BlobSized([separator] + References(offsets))
    requires At(heap, nameOffset, Blob([separator] + References(offsets)))
    ensures NameAt(heap, nameOffset)
         == if separator <= 0x7F then Ok(Join(parts, Separator(separator))) else Err(InvalidSeparator(separator))
  {
    hide BlobAt, Blob;
    var content := [separator] + References(offsets);
    BlobRead(heap, nameOffset, content);
    assert content[1..] == References(offsets);
    PartsRead(heap, content[1..], 0, offsets, parts);
  }

  /** With another separator, one that is in none of the parts, these can be told from the name. */
  lemma JoinWithSeparator(separator: byte, parts: seq<seq<byte>>)
    requires separator != 0 && parts != [] && forall p <- parts :: separator !in p
    ensures Split(Join(parts, Separator(separator)), separator) == parts
  {
    hide Split, Join;
    SplitJoin(parts, separator);
  }

  lemma {:induction false} JoinWithNothing(parts: seq<seq<byte>>)
    ensures Join(parts, Separator(0)) == Concat(parts)
  {
    if |parts| > 1 {
      JoinWithNothing(parts[1..]);
    } else if |parts| == 1 {
      assert parts[0] + Concat(parts[1..]) == parts[0];
    }
  }
}
