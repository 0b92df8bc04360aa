/**
 Byte strings, little-endian integers and 64-bit masks, as the metadata reader sees them.
 Go's fixed-width unsigned integers are ranges of `int`; every mask or shift of the source
 is written as the division or remainder it stands for.
 */
module Bytes {

  type byte = b: int | 0 <= b < 0x100
  type uint32 = n: int | 0 <= n < 0x1_0000_0000
  type uint64 = n: int | 0 <= n < 0x1_0000_0000_0000_0000

  /** `x` lies in `data` at position `p`. */
  ghost predicate At(data: seq<byte>, p: nat, x: seq<byte>) {
    p + |x| <= |data| && data[p..p + |x|] == x
  }

  lemma AtAppend(data: seq<byte>, p: nat, x: seq<byte>, y: seq<byte>)
    ensures At(data, p, x + y) <==> At(data, p, x) && At(data, p + |x|, y)
  {
    if At(data, p, x + y) {
      assert data[p..p + |x|] == data[p..p + |x + y|][..|x|] == x;
      assert data[p + |x|..p + |x| + |y|] == data[p..p + |x + y|][|x|..] == y;
    }
    if At(data, p, x) && At(data, p + |x|, y) {
      assert data[p..p + |x + y|] == data[p..p + |x|] + data[p + |x|..p + |x| + |y|];
    }
  }

  lemma AtMiddle(pre: seq<byte>, x: seq<byte>, post: seq<byte>)
    ensures At(pre + x + post, |pre|, x)
  {}

  lemma ThreeParts(x: seq<byte>, y: seq<byte>, z: seq<byte>, data: seq<byte>, p: nat, q: nat)
    requires data == x + (y + z) && p == |x| && q == |x| + |y|
    ensures At(data, 0, x) && At(data, p, y) && At(data, q, z)
  {
    AtMiddle([], x, y + z);
    AtMiddle(x, y, z);
    AtMiddle(x + y, z, []);
    assert x + (y + z) == [] + x + (y + z) == x + y + z == x + y + z + [];
  }

  // ----- little-endian integers

  function Pow256(w: nat): (p: nat)
    ensures p >= 1
  {
    if w == 0 then 1 else 256 * Pow256(w - 1)
  }

  lemma Pow256Values()
    ensures Pow256(1) == 0x100 && Pow256(2) == 0x1_0000 && Pow256(4) == 0x1_0000_0000
    ensures Pow256(8) == 0x1_0000_0000_0000_0000
  {
    assert Pow256(3) == 0x100_0000;
    assert Pow256(5) == 0x100_0000_0000;
    assert Pow256(6) == 0x1_0000_0000_0000;
    assert Pow256(7) == 0x100_0000_0000_0000;
  }

  /** binary.LittleEndian: the first byte is the least significant one. */
  function LeValue(b: seq<byte>): (n: nat)
    ensures n < Pow256(|b|)
  {
    if b == [] then 0 else b[0] + 256 * LeValue(b[1..])
  }

  function LeBytes(n: nat, w: nat): (b: seq<byte>)
    ensures |b| == w
  {
    if w == 0 then [] else [n % 256] + LeBytes(n / 256, w - 1)
  }

  lemma {:induction false} LeRoundTrip(n: nat, w: nat)
    requires n < Pow256(w)
    ensures LeValue(LeBytes(n, w)) == n
  {
    if w > 0 {
      LeRoundTrip(n / 256, w - 1);
      assert LeBytes(n, w)[1..] == LeBytes(n / 256, w - 1);
    }
  }

  lemma LeFour(b: seq<byte>)
    requires |b| == 4
    ensures var b0: int, b1: int, b2: int, b3: int := b[0], b[1], b[2], b[3];
            LeValue(b) == b0 + 256 * (b1 + 256 * (b2 + 256 * b3))
  {
    assert LeValue(b) == b[0] + 256 * LeValue(b[1..]);
    assert LeValue(b[1..]) == b[1] + 256 * LeValue(b[2..]) by { assert b[1..][1..] == b[2..]; }
    assert LeValue(b[2..]) == b[2] + 256 * LeValue(b[3..]) by { assert b[2..][1..] == b[3..]; }
    assert LeValue(b[3..]) == b[3] + 256 * LeValue([]) by { assert b[3..][1..] == []; }
  }

  // ----- bit masks

  /** mask & (1 << i) != 0 */
  predicate Bit(mask: nat, i: nat) {
    if i == 0 then mask % 2 == 1 else Bit(mask / 2, i - 1)
  }

  /** The mask whose bit i is set exactly when bits[i] is. */
  function MaskOf(bits: seq<bool>): nat {
    if bits == [] then 0 else (if bits[0] then 1 else 0) + 2 * MaskOf(bits[1..])
  }

  lemma {:induction false} MaskBit(bits: seq<bool>, i: nat)
    requires i < |bits|
    ensures Bit(MaskOf(bits), i) == bits[i]
  {
    assert MaskOf(bits) / 2 == MaskOf(bits[1..]) && (MaskOf(bits) % 2 == 1 <==> bits[0]);
    hide MaskOf;
    if i > 0 {
      MaskBit(bits[1..], i - 1);
    }
  }

  function Pow2(n: nat): nat {
    if n == 0 then 1 else 2 * Pow2(n - 1)
  }

  lemma {:induction false} MaskBelowPow2(bits: seq<bool>)
    ensures MaskOf(bits) < Pow2(|bits|)
  {
    if bits != [] {
      MaskBelowPow2(bits[1..]);
    }
  }

  lemma {:induction false} Pow2OfBytes(w: nat)
    ensures Pow2(8 * w) == Pow256(w)
  {
    if w > 0 {
      var n := 8 * (w - 1);
      Pow2OfBytes(w - 1);
      assert Pow2(n + 2) == 4 * Pow2(n) && Pow2(n + 4) == 4 * Pow2(n + 2);
      assert Pow2(n + 6) == 4 * Pow2(n + 4) && Pow2(n + 8) == 4 * Pow2(n + 6);
    }
  }

  lemma MaskBound(bits: seq<bool>, w: nat)
    requires |bits| == 8 * w
    ensures MaskOf(bits) < Pow256(w)
  {
    MaskBelowPow2(bits);
    Pow2OfBytes(w);
  }

  /** The number of set bits below i. */
  function Rank(mask: nat, i: nat): nat {
    if i == 0 then 0 else Rank(mask, i - 1) + if Bit(mask, i - 1) then 1 else 0
  }

  lemma {:induction false} RankMonotone(mask: nat, i: nat, j: nat)
    requires i <= j
    ensures Rank(mask, i) <= Rank(mask, j)
    decreases j
  {
    if i < j {
      RankMonotone(mask, i, j - 1);
    }
  }

  // ----- concatenation

  function Concat(parts: seq<seq<byte>>): seq<byte> {
    if parts == [] then [] else parts[0] + Concat(parts[1..])
  }

  lemma {:induction false} ConcatAppend(xs: seq<seq<byte>>, ys: seq<seq<byte>>)
    ensures Concat(xs + ys) == Concat(xs) + Concat(ys)
  {
    if xs == [] {
      assert xs + ys == ys;
    } else {
      ConcatAppend(xs[1..], ys);
      assert (xs + ys)[1..] == xs[1..] + ys;
      assert xs[0] + (Concat(xs[1..]) + Concat(ys)) == Concat(xs) + Concat(ys);
    }
  }

  /** The k-th part lies after the k parts before it. */
  lemma ConcatAt(parts: seq<seq<byte>>, k: nat)
    requires k < |parts|
    ensures At(Concat(parts), |Concat(parts[..k])|, parts[k])
  {
    assert parts == parts[..k] + ([parts[k]] + parts[k + 1..]);
    ConcatAppend(parts[..k], [parts[k]] + parts[k + 1..]);
    assert ([parts[k]] + parts[k + 1..])[1..] == parts[k + 1..];
    assert Concat(parts) == Concat(parts[..k]) + parts[k] + Concat(parts[k + 1..]);
    AtMiddle(Concat(parts[..k]), parts[k], Concat(parts[k + 1..]));
  }

  /** Rows of one width: row k starts at k * width. */
  lemma {:induction false} ConcatWidth(rows: seq<seq<byte>>, width: nat)
    requires forall i | 0 <= i < |rows| :: |rows[i]| == width
    ensures |Concat(rows)| == |rows| * width
  {
    if rows != [] {
      ConcatWidth(rows[1..], width);
      MulStep(|rows|, width);
    }
  }

  lemma MulStep(n: nat, width: nat)
    requires n > 0
    ensures n * width == width + (n - 1) * width
  {}
}
