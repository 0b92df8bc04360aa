/** internal/pdb/guid.go: the text of a guid and its mixed-endian layout in the #GUID heap. */
module Guids {
  import opened Bytes
  import opened Options
  import opened Results
  import opened Text
  import opened Heaps

  function HexValue(c: char): Option<nat> {
    if '0' <= c <= '9' then Some(c as int - '0' as int)
    else if 'a' <= c <= 'f' then Some(c as int - 'a' as int + 10)
    else if 'A' <= c <= 'F' then Some(c as int - 'A' as int + 10)
    else None
  }

  /** hex.DecodeString: digits of either case, an even number of them. */
  function HexDecode(s: string): (r: Option<seq<byte>>)
    ensures r.Some? ==> |s| == 2 * |r.value|
  {
    if s == [] then Some([])
    else if |s| == 1 then None
    else match (HexValue(s[0]), HexValue(s[1]), HexDecode(s[2..]))
      case (Some(h), Some(l), Some(rest)) => Some([16 * h + l] + rest)
      case _ => None
  }

  /** Where byte i of the stored guid comes from in the text: three little-endian groups, then bytes as they are. */
  const MIXED: seq<nat> := [3, 2, 1, 0, 5, 4, 7, 6, 8, 9, 10, 11, 12, 13, 14, 15]

  function Mix(raw: Guid): (g: Guid) {
    seq(16, i requires 0 <= i < 16 => raw[MIXED[i]])
  }

  method StoreMixed(raw: Guid) returns (r: Guid)
    ensures r == Mix(raw)
  {
    var g := new byte[16](_ => 0);
    g[0], g[1], g[2], g[3] := raw[3], raw[2], raw[1], raw[0];
    g[4], g[5] := raw[5], raw[4];
    g[6], g[7] := raw[7], raw[6];
    for i := 8 to 16
      invariant forall k | 0 <= k < i :: g[k] == raw[MIXED[k]]
    {
      g[i] := raw[i];
    }
    return g[..];
  }

  method ParseGuidString(s: string) returns (r: Result<Guid>)
    ensures r == GuidOf(s)
  {
    hide Split, Join, HexDecode;
    var parts := Split(s, '-');
    if |parts| != 5 {
      return Err(InvalidGuid);
    }
    var decoded := HexDecode(Join(parts, []));
    if decoded == None || |decoded.value| != 16 {
      return Err(InvalidGuid);
    }
    var g := StoreMixed(decoded.value);
    return Ok(g);
  }

  function GuidOf(s: string): Result<Guid> {
    var parts := Split(s, '-');
    if |parts| != 5 then Err(InvalidGuid)
    else match HexDecode(Join(parts, []))
      case None => Err(InvalidGuid)
      case Some(raw) => if |raw| == 16 then Ok(Mix(raw)) else Err(InvalidGuid)
  }

  // ----- the usual text of a guid

  function HexDigit(v: nat): char
    requires v < 16
  {
    "0123456789ABCDEF"[v]
  }

  function HexEncode(b: seq<byte>): (s: string)
    ensures |s| == 2 * |b| && '-' !in s
  {
    if b == [] then [] else [HexDigit(b[0] / 16), HexDigit(b[0] % 16)] + HexEncode(b[1..])
  }

  function Format(g: Guid): string {
    var raw := Mix(g);
    Join([HexEncode(raw[..4]), HexEncode(raw[4..6]), HexEncode(raw[6..8]), HexEncode(raw[8..10]),
          HexEncode(raw[10..])], "-")
  }

  lemma HexDigitValue(v: nat)
    requires v < 16
    ensures HexValue(HexDigit(v)) == Some(v)
  {}

  lemma {:induction false} HexRoundTrip(b: seq<byte>)
    ensures HexDecode(HexEncode(b)) == Some(b)
  {
    hide HexValue, HexDigit;
    if b != [] {
      HexRoundTrip(b[1..]);
      HexDigitValue(b[0] / 16);
      HexDigitValue(b[0] % 16);
      assert HexEncode(b)[2..] == HexEncode(b[1..]);
      assert [b[0]] + b[1..] == b;
    }
  }

  lemma HexTwo(a: byte, b: byte)
    ensures HexEncode([a, b]) == [HexDigit(a / 16), HexDigit(a % 16), HexDigit(b / 16), HexDigit(b % 16)]
  {
    hide HexDigit;
    assert [a, b][1..] == [b];
    assert [b][1..] == [];
  }

  lemma {:induction false} HexAppend(a: seq<byte>, b: seq<byte>)
    ensures HexEncode(a) + HexEncode(b) == HexEncode(a + b)
  {
    hide HexDigit;
    if a == [] {
      assert a + b == b;
    } else {
      HexAppend(a[1..], b);
      assert (a + b)[1..] == a[1..] + b;
      var head := [HexDigit(a[0] / 16), HexDigit(a[0] % 16)];
      assert head + HexEncode(a[1..]) + HexEncode(b) == head + (HexEncode(a[1..]) + HexEncode(b));
    }
  }

  lemma JoinFive(a: string, b: string, c: string, d: string, e: string, sep: string)
    ensures Join([a, b, c, d, e], sep) == a + sep + (b + sep + (c + sep + (d + sep + e)))
  {
    assert [a, b, c, d, e][1..] == [b, c, d, e];
    assert [b, c, d, e][1..] == [c, d, e];
    assert [c, d, e][1..] == [d, e];
    assert [d, e][1..] == [e];
    assert Join([d, e], sep) == d + sep + e;
    assert Join([c, d, e], sep) == c + sep + (d + sep + e);
    assert Join([b, c, d, e], sep) == b + sep + (c + sep + (d + sep + e));
  }

  // ----- which texts are accepted

  function Upper(c: char): char {
    if 'a' <= c <= 'f' then (c as int - 0x20) as char else c
  }

  function UpperCase(s: string): (u: string)
    ensures |u| == |s| && forall i | 0 <= i < |s| :: u[i] == Upper(s[i])
  {
    seq(|s|, i requires 0 <= i < |s| => Upper(s[i]))
  }

  lemma HexDigitExactly(c: char, v: nat)
    requires v < 16
    ensures HexValue(c) == Some(v) <==> Upper(c) == HexDigit(v)
    ensures HexValue(c).Some? ==> HexValue(c).value < 16
  {}

  /** Digits of either case, and nothing but pairs of them. */
  lemma {:induction false} HexExactly(s: string, b: seq<byte>)
    ensures HexDecode(s) == Some(b) <==> UpperCase(s) == HexEncode(b)
    decreases |s|
  {
    hide HexValue, HexDigit, Upper;
    if |s| >= 2 && b != [] {
      HexExactly(s[2..], b[1..]);
      HexDigitExactly(s[0], b[0] / 16);
      HexDigitExactly(s[1], b[0] % 16);
      assert UpperCase(s) == [Upper(s[0]), Upper(s[1])] + UpperCase(s[2..]);
      assert b == [b[0]] + b[1..];
      if HexDecode(s) == Some(b) {
        HexHead(s, b);
      }
    }
  }

  lemma HexHead(s: string, b: seq<byte>)
    requires |s| >= 2 && b != [] && HexDecode(s) == Some(b)
    ensures HexValue(s[0]) == Some(b[0] / 16) && HexValue(s[1]) == Some(b[0] % 16) && HexDecode(s[2..]) == Some(b[1..])
  {
    hide HexValue, HexDigit, Upper;
    HexDigitExactly(s[0], 0);
    HexDigitExactly(s[1], 0);
    Nibbles(HexValue(s[0]).value, HexValue(s[1]).value);
    assert b[1..] == HexDecode(s[2..]).value;
  }

  lemma Nibbles(h: nat, l: nat)
    requires l < 16
    ensures (16 * h + l) / 16 == h && (16 * h + l) % 16 == l
  {}

  /** Five groups, and thirty-two digits in them. */
  ghost predicate IsGuidText(s: string, groups: seq<string>, raw: seq<byte>) {
    && |groups| == 5 && (forall g <- groups :: '-' !in g) && s == Join(groups, "-")
    && |raw| == 16 && UpperCase(Join(groups, [])) == HexEncode(raw)
  }

  /** A text is a guid exactly if it is such groups; the reader takes them of any length. */
  lemma GuidTextExactly(s: string)
    ensures GuidOf(s).Ok? <==> exists groups: seq<string>, raw: seq<byte> :: IsGuidText(s, groups, raw)
    ensures forall groups: seq<string>, raw: seq<byte> | IsGuidText(s, groups, raw) :: GuidOf(s) == Ok(Mix(raw))
  {
    hide HexDecode, HexEncode, Join, Split, Mix;
    JoinSplit(s, '-');
    forall groups: seq<string>, raw: seq<byte> | IsGuidText(s, groups, raw) ensures GuidOf(s) == Ok(Mix(raw)) {
      SplitJoin(groups, '-');
      HexExactly(Join(groups, []), raw);
    }
    if GuidOf(s).Ok? {
      var groups := Split(s, '-');
      var raw := HexDecode(Join(groups, [])).value;
      HexExactly(Join(groups, []), raw);
      assert IsGuidText(s, groups, raw);
    }
  }

  /** Parsing undoes formatting. */
  lemma GuidRoundTrip(g: Guid)
    ensures GuidOf(Format(g)) == Ok(g)
  {
    hide HexEncode, HexDecode, Split, Join;
    var raw := Mix(g);
    var groups := [HexEncode(raw[..4]), HexEncode(raw[4..6]), HexEncode(raw[6..8]), HexEncode(raw[8..10]),
                   HexEncode(raw[10..])];
    SplitJoin(groups, '-');
    JoinFive(groups[0], groups[1], groups[2], groups[3], groups[4], []);
    assert groups[0] + [] == groups[0] && groups[1] + [] == groups[1];
    assert groups[2] + [] == groups[2] && groups[3] + [] == groups[3];
    HexAppend(raw[8..10], raw[10..]);
    HexAppend(raw[6..8], raw[8..10] + raw[10..]);
    HexAppend(raw[4..6], raw[6..8] + (raw[8..10] + raw[10..]));
    HexAppend(raw[..4], raw[4..6] + (raw[6..8] + (raw[8..10] + raw[10..])));
    assert raw == raw[..4] + (raw[4..6] + (raw[6..8] + (raw[8..10] + raw[10..])));
    HexRoundTrip(raw);
    assert Mix(raw) == g;
  }

  /** The Kind of an embedded source, as stored. */
  const EMBEDDED_SOURCE: Guid := [
    0x1B, 0x57, 0x8A, 0x0E, 0x26, 0x69, 0x6E, 0x46, 0xB4, 0xAD, 0x8A, 0xB0, 0x46, 0x11, 0xF5, 0xFE]

  /** These are the bytes that the text in the source parses to. */
  lemma EmbeddedSourceGuid()
    ensures GuidOf("0E8A571B" + "-" + ("6926" + "-" + ("466E" + "-" + ("B4AD" + "-" + "8AB04611F5FE"))))
         == Ok(EMBEDDED_SOURCE)
  {
    hide HexEncode, Split, HexDecode, Join;
    EmbeddedSourceGroups();
    HexAppend([0x0E, 0x8A], [0x57, 0x1B]);
    HexAppend([0x46, 0x11], [0xF5, 0xFE]);
    HexAppend([0x8A, 0xB0], [0x46, 0x11] + [0xF5, 0xFE]);
    HexPairs();
    JoinFive("0E8A571B", "6926", "466E", "B4AD", "8AB04611F5FE", "-");
    assert "0E8A" + "571B" == "0E8A571B";
    assert "8AB0" + ("4611" + "F5FE") == "8AB04611F5FE";
    GuidRoundTrip(EMBEDDED_SOURCE);
  }

  lemma EmbeddedSourceGroups()
    ensures Format(EMBEDDED_SOURCE)
         == Join([HexEncode([0x0E, 0x8A] + [0x57, 0x1B]), HexEncode([0x69, 0x26]), HexEncode([0x46, 0x6E]),
                  HexEncode([0xB4, 0xAD]), HexEncode([0x8A, 0xB0] + ([0x46, 0x11] + [0xF5, 0xFE]))], "-")
  {
    hide HexEncode, Join;
    var raw := Mix(EMBEDDED_SOURCE);
    assert raw[..4] == [0x0E, 0x8A] + [0x57, 0x1B];
    assert raw[4..6] == [0x69, 0x26] && raw[6..8] == [0x46, 0x6E] && raw[8..10] == [0xB4, 0xAD];
    assert raw[10..] == [0x8A, 0xB0] + ([0x46, 0x11] + [0xF5, 0xFE]);
  }

  lemma HexPairs()
    ensures HexEncode([0x0E, 0x8A]) == "0E8A" && HexEncode([0x57, 0x1B]) == "571B"
    ensures HexEncode([0x69, 0x26]) == "6926" && HexEncode([0x46, 0x6E]) == "466E" && HexEncode([0xB4, 0xAD]) == "B4AD"
    ensures HexEncode([0x8A, 0xB0]) == "8AB0" && HexEncode([0x46, 0x11]) == "4611" && HexEncode([0xF5, 0xFE]) == "F5FE"
  {
    hide HexEncode;
    HexTwo(0x0E, 0x8A);
    HexTwo(0x57, 0x1B);
    HexTwo(0x69, 0x26);
    HexTwo(0x46, 0x6E);
    HexTwo(0xB4, 0xAD);
    HexTwo(0x8A, 0xB0);
    HexTwo(0x46, 0x11);
    HexTwo(0xF5, 0xFE);
  }
}
