/**
 internal/pdb/pdb_stream.go and internal/pdb/tables_stream_header.go: the two bit vectors with
 their row counts, and the header of the "#~" stream (ECMA-335 II.24.2.6).
 */
module TablesStream {
  import opened Bytes
  import opened Results
  import opened ByteCursors

  const TABLE_COUNT := 64

  /** One row count for each of the 64 table slots. */
  type RowCounts = c: seq<uint32> | |c| == 64 witness seq(64, _ => 0)

  type Slot = t: nat | t < TABLE_COUNT

  // ----- row counts

  /** The row counts from slot |acc| on: four bytes for each set bit, 0 for an unset one. */
  function CountsAt(data: seq<byte>, pos: nat, mask: nat, acc: seq<uint32>): (r: Parsed<RowCounts>)
    requires |acc| <= TABLE_COUNT
    decreases TABLE_COUNT - |acc|
  {
    if |acc| == TABLE_COUNT then Ok((acc, pos))
    else if !Bit(mask, |acc|) then CountsAt(data, pos, mask, acc + [0])
    else
      var (v, next) :- Uint32At(data, pos);
      CountsAt(data, next, mask, acc + [v])
  }

  method ReadRowCounts(c: ByteCursor, mask: nat) returns (r: Result<RowCounts>)
    modifies c`pos
    ensures r == Value(CountsAt(c.data, old(c.pos), mask, []))
    ensures r.Ok? ==> c.pos == CountsAt(c.data, old(c.pos), mask, []).value.1
  {
    hide Bit, Uint32At;
    var rowCounts := new uint32[TABLE_COUNT](_ => 0);
    for i := 0 to TABLE_COUNT
      invariant forall k | i <= k < TABLE_COUNT :: rowCounts[k] == 0
      invariant CountsAt(c.data, c.pos, mask, rowCounts[..i]) == CountsAt(c.data, old(c.pos), mask, [])
    {
      if Bit(mask, i) {
        var v :- c.ReadUint32();
        rowCounts[i] := v;
      }
      assert rowCounts[..i + 1] == rowCounts[..i] + [rowCounts[i]];
    }
    assert rowCounts[..TABLE_COUNT] == rowCounts[..];
    return Ok(rowCounts[..]);
  }

  /** Slot i holds the Rank(i)-th integer if its bit is set and 0 otherwise. */
  ghost predicate SlotsFrom(data: seq<byte>, pos: nat, mask: nat, counts: seq<uint32>) {
    forall i | 0 <= i < |counts| :: SlotAt(data, pos, mask, counts, i)
  }

  ghost predicate SlotAt(data: seq<byte>, pos: nat, mask: nat, counts: seq<uint32>, i: nat)
    requires i < |counts|
  {
    if Bit(mask, i) then
      var q := pos + 4 * Rank(mask, i);
      q + 4 <= |data| && counts[i] == LeValue(data[q..q + 4])
    else counts[i] == 0
  }

  lemma {:induction false} CountsFrom(data: seq<byte>, pos: nat, mask: nat, acc: seq<uint32>)
    requires |acc| <= TABLE_COUNT
    requires SlotsFrom(data, pos, mask, acc) && pos + 4 * Rank(mask, |acc|) <= |data|
    ensures var r := CountsAt(data, pos + 4 * Rank(mask, |acc|), mask, acc);
            && (r.Ok? <==> pos + 4 * Rank(mask, TABLE_COUNT) <= |data|)
            && (r.Ok? ==> SlotsFrom(data, pos, mask, r.value.0) && r.value.1 == pos + 4 * Rank(mask, TABLE_COUNT))
            && (r.Err? ==> r.error == UnexpectedEof)
    decreases TABLE_COUNT - |acc|
  {
    hide Bit;
    var i := |acc|;
    var q := pos + 4 * Rank(mask, i);
    if i < TABLE_COUNT {
      RankMonotone(mask, i + 1, TABLE_COUNT);
      if !Bit(mask, i) {
        SlotsExtend(data, pos, mask, acc, 0);
        CountsFrom(data, pos, mask, acc + [0]);
      } else if q + 4 <= |data| {
        var v: uint32 := Uint32At(data, q).value.0;
        SlotsExtend(data, pos, mask, acc, v);
        CountsFrom(data, pos, mask, acc + [v]);
      }
    }
  }

  lemma SlotsExtend(data: seq<byte>, pos: nat, mask: nat, acc: seq<uint32>, v: uint32)
    requires SlotsFrom(data, pos, mask, acc)
    requires SlotAt(data, pos, mask, acc + [v], |acc|)
    ensures SlotsFrom(data, pos, mask, acc + [v])
  {
    forall i | 0 <= i < |acc| + 1 ensures SlotAt(data, pos, mask, acc + [v], i) {
      assert i < |acc| ==> SlotAt(data, pos, mask, acc, i);
    }
  }

  /** Reading succeeds exactly when one integer per set bit is there, and gives them rank by rank. */
  lemma CountsByRank(data: seq<byte>, pos: nat, mask: nat)
    requires pos <= |data|
    ensures var r := CountsAt(data, pos, mask, []);
            && (r.Ok? <==> pos + 4 * Rank(mask, TABLE_COUNT) <= |data|)
            && (r.Ok? ==> SlotsFrom(data, pos, mask, r.value.0) && r.value.1 == pos + 4 * Rank(mask, TABLE_COUNT))
            && (r.Err? ==> r.error == UnexpectedEof)
  {
    CountsFrom(data, pos, mask, []);
  }

  /** The writer's side: the counts of the present tables from slot i on. */
  function CountBytes(bits: seq<bool>, counts: RowCounts, i: nat): seq<byte>
    requires |bits| == TABLE_COUNT && i <= TABLE_COUNT
    decreases TABLE_COUNT - i
  {
    if i == TABLE_COUNT then []
    else (if bits[i] then LeBytes(counts[i], 4) else []) + CountBytes(bits, counts, i + 1)
  }

  lemma {:induction false} CountsRead(data: seq<byte>, pos: nat, bits: seq<bool>, counts: RowCounts, i: nat)
    requires |bits| == TABLE_COUNT && i <= TABLE_COUNT
    requires forall k | 0 <= k < TABLE_COUNT && !bits[k] :: counts[k] == 0
    requires At(data, pos, CountBytes(bits, counts, i))
    ensures CountsAt(data, pos, MaskOf(bits), counts[..i]) == Ok((counts, pos + |CountBytes(bits, counts, i)|))
    decreases TABLE_COUNT - i
  {
    hide Bit, MaskOf, Uint32At, LeBytes;
    if i == TABLE_COUNT {
      assert counts[..i] == counts;
    } else {
      MaskBit(bits, i);
      assert counts[..i + 1] == counts[..i] + [counts[i]];
      if bits[i] {
        AtAppend(data, pos, LeBytes(counts[i], 4), CountBytes(bits, counts, i + 1));
        CountRead(data, pos, counts[i]);
        CountsRead(data, pos + 4, bits, counts, i + 1);
      } else {
        assert [] + CountBytes(bits, counts, i + 1) == CountBytes(bits, counts, i + 1);
        CountsRead(data, pos, bits, counts, i + 1);
      }
    }
  }

  lemma CountRead(data: seq<byte>, pos: nat, v: uint32)
    requires At(data, pos, LeBytes(v, 4))
    ensures Uint32At(data, pos) == Ok((v, pos + 4))
  {
    Pow256Values();
    UintRead(data, pos, v, 4);
  }

  // ----- the "#Pdb" stream

  /** A 20-byte id, the entry point token, the mask of referenced tables and their row counts. */
  function ExternalCountsOf(data: seq<byte>): Result<RowCounts> {
    var (_, p) :- BytesAt(data, 0, 20);
    var (_, q) :- Uint32At(data, p);
    var (mask, r) :- UintAt(data, q, 8);
    var (counts, _) :- CountsAt(data, r, mask, []);
    Ok(counts)
  }

  method ParsePdbStream(data: seq<byte>) returns (r: Result<RowCounts>)
    ensures r == ExternalCountsOf(data)
  {
    hide CountsAt;
    var c := new ByteCursor(data);
    var _ :- c.ReadBytes(20);
    var _ :- c.ReadUint32();
    var mask :- c.ReadUint64();
    r := ReadRowCounts(c, mask);
  }

  /** Success takes 32 bytes and one integer per set bit; the counts are then those integers by rank. */
  lemma ExternalCountsByRank(data: seq<byte>)
    ensures var r := ExternalCountsOf(data);
            && (r.Ok? <==> |data| >= 32 && |data| >= 32 + 4 * Rank(LeValue(data[24..32]), TABLE_COUNT))
            && (r.Ok? ==> SlotsFrom(data, 32, LeValue(data[24..32]), r.value))
            && (r.Err? ==> r.error == UnexpectedEof)
  {
    hide CountsAt, SlotsFrom, LeValue, Rank;
    if |data| >= 32 {
      CountsByRank(data, 32, LeValue(data[24..32]));
    }
  }

  function SerializePdbStream(id: seq<byte>, entryPoint: nat, bits: seq<bool>, counts: RowCounts): seq<byte>
    requires |bits| == TABLE_COUNT
  {
    id + (LeBytes(entryPoint, 4) + (LeBytes(MaskOf(bits), 8) + CountBytes(bits, counts, 0)))
  }

  lemma PdbStreamRoundTrip(id: seq<byte>, entryPoint: nat, bits: seq<bool>, counts: RowCounts)
    requires |id| == 20 && entryPoint < 0x1_0000_0000 && |bits| == TABLE_COUNT
    requires forall k | 0 <= k < TABLE_COUNT && !bits[k] :: counts[k] == 0
    ensures ExternalCountsOf(SerializePdbStream(id, entryPoint, bits, counts)) == Ok(counts)
  {
    hide CountsAt, LeValue, LeBytes, MaskOf, CountBytes;
    var data := SerializePdbStream(id, entryPoint, bits, counts);
    var tail := LeBytes(MaskOf(bits), 8) + CountBytes(bits, counts, 0);
    assert At(data, 0, data);
    AtAppend(data, 0, id, LeBytes(entryPoint, 4) + tail);
    AtAppend(data, 20, LeBytes(entryPoint, 4), tail);
    AtAppend(data, 24, LeBytes(MaskOf(bits), 8), CountBytes(bits, counts, 0));
    CountRead(data, 20, entryPoint);
    MaskBound(bits, 8);
    UintRead(data, 24, MaskOf(bits), 8);
    CountsRead(data, 32, bits, counts, 0);
    assert counts[..0] == [];
  }

  // ----- the header of the "#~" stream

  datatype TablesHeader = TablesHeader(
    heapSizes: byte, valid: nat, sorted: nat, rowCounts: RowCounts, payloadOffset: nat)

  predicate LargeStrings(heapSizes: byte) {
    heapSizes % 2 == 1
  }

  predicate LargeGuids(heapSizes: byte) {
    heapSizes / 0x02 % 2 == 1
  }

  predicate LargeBlobs(heapSizes: byte) {
    heapSizes / 0x04 % 2 == 1
  }

  /** Set by obfuscators: four more bytes before the rows. */
  predicate HasExtraData(heapSizes: byte) {
    heapSizes / 0x40 % 2 == 1
  }

  function HeaderOf(data: seq<byte>): Result<TablesHeader> {
    var (_, p0) :- Uint32At(data, 0);
    var (_, p1) :- ByteAt(data, p0);
    var (_, p2) :- ByteAt(data, p1);
    var (heapSizes, p3) :- ByteAt(data, p2);
    var (_, p4) :- ByteAt(data, p3);
    var (valid, p5) :- UintAt(data, p4, 8);
    var (sorted, p6) :- UintAt(data, p5, 8);
    var (rowCounts, p7) :- CountsAt(data, p6, valid, []);
    if HasExtraData(heapSizes) then
      var (_, p8) :- Uint32At(data, p7);
      Ok(TablesHeader(heapSizes, valid, sorted, rowCounts, p8))
    else
      Ok(TablesHeader(heapSizes, valid, sorted, rowCounts, p7))
  }

  method ParseTablesStreamHeader(data: seq<byte>) returns (r: Result<TablesHeader>)
    ensures r == HeaderOf(data)
  {
    hide CountsAt, LeValue, HasExtraData;
    var c := new ByteCursor(data);
    var _ :- c.ReadUint32();
    var _ :- c.ReadByte();
    var _ :- c.ReadByte();
    var heapSizes :- c.ReadByte();
    var _ :- c.ReadByte();
    var valid :- c.ReadUint64();
    var sorted :- c.ReadUint64();
    var rowCounts :- ReadRowCounts(c, valid);
    if HasExtraData(heapSizes) {
      var _ :- c.ReadUint32();
    }
    return Ok(TablesHeader(heapSizes, valid, sorted, rowCounts, c.pos));
  }

  /** Where the rows start. */
  function PayloadStart(valid: nat, heapSizes: byte): nat {
    24 + 4 * Rank(valid, TABLE_COUNT) + if HasExtraData(heapSizes) then 4 else 0
  }

  /**
   Parsing succeeds exactly when the data reaches to the start of the rows, which is then inside
   the data; the fields are the ones the format puts at offsets 6, 8 and 24.
   */
  lemma HeaderFields(data: seq<byte>)
    ensures var r := HeaderOf(data);
            && (r.Ok? <==> |data| >= 24 && |data| >= PayloadStart(LeValue(data[8..16]), data[6]))
            && (r.Ok? ==>
                  && r.value.heapSizes == data[6]
                  && r.value.valid == LeValue(data[8..16])
                  && r.value.payloadOffset == PayloadStart(r.value.valid, r.value.heapSizes) <= |data|
                  && SlotsFrom(data, 24, r.value.valid, r.value.rowCounts))
            && (r.Err? ==> r.error == UnexpectedEof)
  {
    hide CountsAt, SlotsFrom, LeValue, HasExtraData, Rank;
    if |data| >= 24 {
      CountsByRank(data, 24, LeValue(data[8..16]));
    }
  }

  /** The fields of the header that the reader skips. */
  datatype HeaderFiller = HeaderFiller(reserved: nat, major: byte, minor: byte, one: byte, sorted: nat, extra: nat)

  predicate ValidFiller(f: HeaderFiller) {
    f.reserved < 0x1_0000_0000 && f.sorted < 0x1_0000_0000_0000_0000 && f.extra < 0x1_0000_0000
  }

  function SerializeHeader(f: HeaderFiller, heapSizes: byte, bits: seq<bool>, counts: RowCounts): seq<byte>
    requires |bits| == TABLE_COUNT
  {
    LeBytes(f.reserved, 4) + ([f.major] + ([f.minor] + ([heapSizes] + ([f.one] +
    (LeBytes(MaskOf(bits), 8) + (LeBytes(f.sorted, 8) + (CountBytes(bits, counts, 0) +
    if HasExtraData(heapSizes) then LeBytes(f.extra, 4) else [])))))))
  }

  lemma HeaderRoundTrip(data: seq<byte>, f: HeaderFiller, heapSizes: byte, bits: seq<bool>, counts: RowCounts)
    requires ValidFiller(f) && |bits| == TABLE_COUNT
    requires forall k | 0 <= k < TABLE_COUNT && !bits[k] :: counts[k] == 0
    requires At(data, 0, SerializeHeader(f, heapSizes, bits, counts))
    ensures HeaderOf(data) == Ok(TablesHeader(heapSizes, MaskOf(bits), f.sorted, counts,
                                              |SerializeHeader(f, heapSizes, bits, counts)|))
  {
    hide CountsAt, LeValue, LeBytes, MaskOf, CountBytes, HasExtraData, Pow256, At;
    HeaderLayout(data, f, heapSizes, bits, counts);
    MaskBound(bits, 8);
    Pow256Values();
    CountRead(data, 0, f.reserved);
    ByteRead(data, 4, f.major);
    ByteRead(data, 5, f.minor);
    ByteRead(data, 6, heapSizes);
    ByteRead(data, 7, f.one);
    UintRead(data, 8, MaskOf(bits), 8);
    UintRead(data, 16, f.sorted, 8);
    CountsRead(data, 24, bits, counts, 0);
    assert counts[..0] == [];
    if HasExtraData(heapSizes) {
      CountRead(data, 24 + |CountBytes(bits, counts, 0)|, f.extra);
    }
  }

  /** Where the fields of a serialised header lie. */
  lemma HeaderLayout(data: seq<byte>, f: HeaderFiller, heapSizes: byte, bits: seq<bool>, counts: RowCounts)
    requires |bits| == TABLE_COUNT && At(data, 0, SerializeHeader(f, heapSizes, bits, counts))
    ensures At(data, 0, LeBytes(f.reserved, 4)) && At(data, 4, [f.major]) && At(data, 5, [f.minor])
    ensures At(data, 6, [heapSizes]) && At(data, 7, [f.one])
    ensures At(data, 8, LeBytes(MaskOf(bits), 8)) && At(data, 16, LeBytes(f.sorted, 8))
    ensures At(data, 24, CountBytes(bits, counts, 0))
    ensures HasExtraData(heapSizes) ==> At(data, 24 + |CountBytes(bits, counts, 0)|, LeBytes(f.extra, 4))
  {
    hide LeBytes, MaskOf, CountBytes, HasExtraData;
    var extra := if HasExtraData(heapSizes) then LeBytes(f.extra, 4) else [];
    var rows := CountBytes(bits, counts, 0);
    var t7 := rows + extra;
    var t6 := LeBytes(f.sorted, 8) + t7;
    var t5 := LeBytes(MaskOf(bits), 8) + t6;
    var t4 := [f.one] + t5;
    var t3 := [heapSizes] + t4;
    var t2 := [f.minor] + t3;
    var t1 := [f.major] + t2;
    AtAppend(data, 0, LeBytes(f.reserved, 4), t1);
    AtAppend(data, 4, [f.major], t2);
    AtAppend(data, 5, [f.minor], t3);
    AtAppend(data, 6, [heapSizes], t4);
    AtAppend(data, 7, [f.one], t5);
    AtAppend(data, 8, LeBytes(MaskOf(bits), 8), t6);
    AtAppend(data, 16, LeBytes(f.sorted, 8), t7);
    AtAppend(data, 24, rows, extra);
  }
}
