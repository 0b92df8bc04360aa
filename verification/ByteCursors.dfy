/**
 internal/pdb/byte_cursor.go: a forward-only reader over a byte slice.

 Each read has a specification function from the data and the position before it to the value
 and the position after it; the parsers built on the cursor are specified by composing them.
 */
module ByteCursors {
  import opened Bytes
  import opened Results

  /** A value together with the position after it. */
  type Parsed<+T> = Result<(T, nat)>

  function Value<T>(p: Parsed<T>): Result<T> {
    match p
    case Ok((v, _)) => Ok(v)
    case Err(e) => Err(e)
  }

  function NextPos<T>(p: Parsed<T>, failed: nat): nat {
    match p
    case Ok((_, next)) => next
    case Err(_) => failed
  }

  /** The next n bytes. The position may already be past the end, and then even n == 0 fails. */
  function BytesAt(data: seq<byte>, pos: nat, n: int): Parsed<seq<byte>> {
    if n < 0 || |data| - pos < n then Err(UnexpectedEof) else Ok((data[pos..pos + n], pos + n))
  }

  function ByteAt(data: seq<byte>, pos: nat): Parsed<byte> {
    if |data| - pos < 1 then Err(UnexpectedEof) else Ok((data[pos], pos + 1))
  }

  /** A little-endian unsigned integer of `w` bytes. */
  function UintAt(data: seq<byte>, pos: nat, w: nat): (r: Parsed<nat>)
    ensures r.Ok? ==> r.value.0 < Pow256(w)
  {
    var (b, next) :- BytesAt(data, pos, w);
    Ok((LeValue(b), next))
  }

  function Uint32At(data: seq<byte>, pos: nat): Parsed<uint32> {
    Pow256Values();
    UintAt(data, pos, 4)
  }

  /** The first NUL at or after pos, or the end of the data if there is none. */
  function NulFrom(data: seq<byte>, pos: nat): (k: nat)
    ensures pos <= k
    ensures forall i | pos <= i < k && i < |data| :: data[i] != 0
    ensures k < |data| ==> data[k] == 0
    ensures pos <= |data| ==> k <= |data|
    decreases |data| - pos
  {
    if pos >= |data| || data[pos] == 0 then pos else NulFrom(data, pos + 1)
  }

  function CStringAt(data: seq<byte>, pos: nat): Parsed<seq<byte>> {
    var k := NulFrom(data, pos);
    if k < |data| then Ok((data[pos..k], k + 1)) else Err(UnexpectedEof)
  }

  function AlignUp4(pos: nat): (p: nat)
    ensures p % 4 == 0 && pos <= p < pos + 4
  {
    if pos % 4 == 0 then pos else pos + (4 - pos % 4)
  }

  function BeValue3(b0: int, b1: int, b2: int): int {
    b0 * 0x1_0000 + b1 * 0x100 + b2
  }

  /** ECMA-335 II.23.2: one, two or four bytes, the length in the top bits of the first. */
  function CompressedAt(data: seq<byte>, pos: nat): Parsed<uint32> {
    var (first, p) :- ByteAt(data, pos);
    var b0: int := first;
    if b0 / 0x80 == 0 then
      Ok((b0, p))
    else if (b0 / 0x40) % 2 == 0 then
      var (b1, q) :- ByteAt(data, p);
      Ok(((b0 % 0x40) * 0x100 + b1, q))
    else if (b0 / 0x20) % 2 == 0 then
      var (rest, q) :- BytesAt(data, p, 3);
      Ok(((b0 % 0x20) * 0x100_0000 + BeValue3(rest[0], rest[1], rest[2]), q))
    else
      Err(InvalidCompressedInteger)
  }

  class ByteCursor {
    const data: seq<byte>
    var pos: nat

    constructor (data: seq<byte>)
      ensures this.data == data && pos == 0
    {
      this.data := data;
      pos := 0;
    }

    function Remaining(): int
      reads this`pos
    {
      |data| - pos
    }

    method ReadByte() returns (r: Result<byte>)
      modifies this`pos
      ensures r == Value(ByteAt(data, old(pos)))
      ensures pos == NextPos(ByteAt(data, old(pos)), old(pos))
    {
      if Remaining() < 1 {
        return Err(UnexpectedEof);
      }
      r := Ok(data[pos]);
      pos := pos + 1;
    }

    method ReadUint16() returns (r: Result<nat>)
      modifies this`pos
      ensures r == Value(UintAt(data, old(pos), 2))
      ensures pos == NextPos(UintAt(data, old(pos), 2), old(pos))
    {
      if Remaining() < 2 {
        return Err(UnexpectedEof);
      }
      r := Ok(LeValue(data[pos..pos + 2]));
      pos := pos + 2;
    }

    method ReadUint32() returns (r: Result<uint32>)
      modifies this`pos
      ensures r == Value(Uint32At(data, old(pos)))
      ensures pos == NextPos(Uint32At(data, old(pos)), old(pos))
    {
      if Remaining() < 4 {
        return Err(UnexpectedEof);
      }
      Pow256Values();
      r := Ok(LeValue(data[pos..pos + 4]));
      pos := pos + 4;
    }

    method ReadUint64() returns (r: Result<nat>)
      modifies this`pos
      ensures r == Value(UintAt(data, old(pos), 8))
      ensures pos == NextPos(UintAt(data, old(pos), 8), old(pos))
    {
      if Remaining() < 8 {
        return Err(UnexpectedEof);
      }
      r := Ok(LeValue(data[pos..pos + 8]));
      pos := pos + 8;
    }

    method ReadBytes(n: int) returns (r: Result<seq<byte>>)
      modifies this`pos
      ensures r == Value(BytesAt(data, old(pos), n))
      ensures pos == NextPos(BytesAt(data, old(pos), n), old(pos))
    {
      if n < 0 || Remaining() < n {
        return Err(UnexpectedEof);
      }
      r := Ok(data[pos..pos + n]);
      pos := pos + n;
    }

    /** A failed read leaves the cursor at the end of the data, or where it was if already past it. */
    method ReadCString() returns (r: Result<seq<byte>>)
      modifies this`pos
      ensures r == Value(CStringAt(data, old(pos)))
      ensures pos == NextPos(CStringAt(data, old(pos)), if old(pos) < |data| then |data| else old(pos))
    {
      var start := pos;
      while pos < |data|
        invariant start <= pos && (pos <= |data| || pos == start)
        invariant NulFrom(data, pos) == NulFrom(data, start)
      {
        if data[pos] == 0 {
          r := Ok(data[start..pos]);
          pos := pos + 1;
          return;
        }
        pos := pos + 1;
      }
      r := Err(UnexpectedEof);
    }

    method Align4()
      modifies this`pos
      ensures pos == AlignUp4(old(pos))
    {
      var r := pos % 4;
      if r != 0 {
        pos := pos + (4 - r);
      }
    }

    /** A failed read has still consumed the first byte, if there was one. */
    method ReadCompressedUint() returns (r: Result<uint32>)
      modifies this`pos
      ensures r == Value(CompressedAt(data, old(pos)))
      ensures pos == NextPos(CompressedAt(data, old(pos)), if old(pos) < |data| then old(pos) + 1 else old(pos))
    {
      var b0: int :- ReadByte();
      if b0 / 0x80 == 0 {
        return Ok(b0);
      }
      if (b0 / 0x40) % 2 == 0 {
        var b1 :- ReadByte();
        return Ok((b0 % 0x40) * 0x100 + b1);
      }
      if (b0 / 0x20) % 2 == 0 {
        var rest :- ReadBytes(3);
        return Ok((b0 % 0x20) * 0x100_0000 + BeValue3(rest[0], rest[1], rest[2]));
      }
      return Err(InvalidCompressedInteger);
    }
  }

  // ----- reading undoes writing

  lemma BytesRead(data: seq<byte>, pos: nat, x: seq<byte>)
    requires At(data, pos, x)
    ensures BytesAt(data, pos, |x|) == Ok((x, pos + |x|))
  {}

  lemma ByteRead(data: seq<byte>, pos: nat, x: byte)
    requires At(data, pos, [x])
    ensures ByteAt(data, pos) == Ok((x, pos + 1))
  {
    assert data[pos] == data[pos..pos + 1][0];
  }

  lemma UintRead(data: seq<byte>, pos: nat, n: nat, w: nat)
    requires n < Pow256(w) && At(data, pos, LeBytes(n, w))
    ensures UintAt(data, pos, w) == Ok((n, pos + w))
  {
    LeRoundTrip(n, w);
  }

  /** The padded name of a stream header: a NUL, then zeros up to a multiple of four. */
  function PaddedName(name: seq<byte>): (b: seq<byte>)
    ensures |b| % 4 == 0
  {
    name + [0] + seq((3 - |name|) % 4, _ => 0)
  }

  lemma CStringRead(data: seq<byte>, pos: nat, name: seq<byte>)
    requires 0 !in name && pos % 4 == 0 && At(data, pos, PaddedName(name))
    ensures CStringAt(data, pos) == Ok((name, pos + |name| + 1))
    ensures AlignUp4(pos + |name| + 1) == pos + |PaddedName(name)|
  {
    AtAppend(data, pos, name + [0], seq((3 - |name|) % 4, _ => 0));
    AtAppend(data, pos, name, [0]);
    var k := NulFrom(data, pos);
    assert data[pos + |name|] == data[pos + |name|..pos + |name| + 1][0] == 0;
    assert forall i | pos <= i < pos + |name| :: data[i] == data[pos..pos + |name|][i - pos];
    assert k == pos + |name|;
  }

  /** The range of the compressed integers. */
  type uint29 = n: int | 0 <= n < 0x2000_0000

  /** ECMA-335 II.23.2, the writer's side. */
  function Compress(v: uint29): (b: seq<byte>)
    ensures 1 <= |b| <= 4
  {
    if v < 0x80 then [v]
    else if v < 0x4000 then [0x80 + v / 0x100, v % 0x100]
    else [0xC0 + v / 0x100 / 0x100 / 0x100, v / 0x100 / 0x100 % 0x100, v / 0x100 % 0x100, v % 0x100]
  }

  /** The tag bits and payload of the four-byte form. */
  lemma CompressedFour(v: uint29)
    requires 0x4000 <= v
    ensures var b := Compress(v);
            var b0: int := b[0];
            && b0 / 0x80 == 1 && (b0 / 0x40) % 2 == 1 && (b0 / 0x20) % 2 == 0
            && (b0 % 0x20) * 0x100_0000 + BeValue3(b[1], b[2], b[3]) == v
  {
    var v1 := v / 0x100;
    var v2 := v1 / 0x100;
    var top := v2 / 0x100;
    assert top < 0x20;
    assert v == 0x100 * (0x100 * (0x100 * top + v2 % 0x100) + v1 % 0x100) + v % 0x100;
  }

  /** Reading inverts compression, whatever follows, and consumes exactly the encoding. */
  lemma CompressedRoundTrip(data: seq<byte>, pos: nat, v: uint29)
    requires At(data, pos, Compress(v))
    ensures CompressedAt(data, pos) == Ok((v, pos + |Compress(v)|))
  {
    var b := Compress(v);
    AtAppend(data, pos, b[..1], b[1..]);
    assert b == b[..1] + b[1..];
    ByteRead(data, pos, b[0]);
    if v >= 0x4000 {
      CompressedFour(v);
      assert BytesAt(data, pos + 1, 3) == Ok((b[1..], pos + 4));
    } else if v >= 0x80 {
      ByteRead(data, pos + 1, b[1]);
    }
  }

  /** A value decodes to no more than 29 bits and the cursor always advances. */
  lemma CompressedProgress(data: seq<byte>, pos: nat)
    ensures CompressedAt(data, pos).Ok? ==>
              CompressedAt(data, pos).value.0 < 0x2000_0000 &&
              pos < CompressedAt(data, pos).value.1 <= |data|
  {}

  /** A cursor past the end fails every read. */
  lemma PastTheEnd(data: seq<byte>, pos: nat, n: nat)
    requires pos > |data|
    ensures BytesAt(data, pos, n) == Err(UnexpectedEof)
    ensures UintAt(data, pos, n) == Err(UnexpectedEof)
    ensures CStringAt(data, pos) == Err(UnexpectedEof)
    ensures CompressedAt(data, pos) == Err(UnexpectedEof)
  {}
}
