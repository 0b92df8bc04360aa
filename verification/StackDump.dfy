/**
 internal/debugadmin/http_server.go, parseStackBlocks: a debugger's "bt all" output as thread blocks,
 thread-pool workers first.
 */
module StackDump {
  import opened Options
  import opened Text

  datatype Block = Block(header: string, frames: seq<string>, extra: seq<string>)

  const THREAD := "Thread "
  const FRAME := "#"
  const WORKER := "name=\".NET ThreadPool Worker\""

  // ----- lines

  /** Unicode white space. */
  predicate IsSpace(c: char) {
    c in "\t\n\r " || c == '\U{0B}' || c == '\U{0C}' || c == '\U{85}' || c == '\U{A0}' || c == '\U{1680}'
    || '\U{2000}' <= c <= '\U{200A}' || c == '\U{2028}' || c == '\U{2029}' || c == '\U{202F}'
    || c == '\U{205F}' || c == '\U{3000}'
  }

  function TrimLeft(s: string): string {
    if s != "" && IsSpace(s[0]) then TrimLeft(s[1..]) else s
  }

  function TrimRight(s: string): string {
    if s != "" && IsSpace(s[|s| - 1]) then TrimRight(s[..|s| - 1]) else s
  }

  function TrimSpace(s: string): string {
    TrimRight(TrimLeft(s))
  }

  function ReplaceCrLf(s: string): string {
    if |s| < 2 then s
    else if s[0] == '\r' && s[1] == '\n' then "\n" + ReplaceCrLf(s[2..])
    else [s[0]] + ReplaceCrLf(s[1..])
  }

  function LinesOf(raw: string): seq<string> {
    Split(ReplaceAll(ReplaceCrLf(raw), '\r', '\n'), '\n')
  }

  /** The trimmed lines that are not blank. */
  function Trimmed(lines: seq<string>): seq<string> {
    if lines == [] then []
    else
      var last := TrimSpace(lines[|lines| - 1]);
      Trimmed(lines[..|lines| - 1]) + if last == "" then [] else [last]
  }

  // ----- segments

  predicate IsHeader(line: string) {
    THREAD <= line
  }

  predicate IsFrame(line: string) {
    FRAME <= line
  }

  /** A header and the lines after it. */
  type Segment = s: seq<string> | s != [] witness [""]

  predicate IsOtherLine(line: string) {
    !IsFrame(line)
  }

  /** The lines before the first header, and one segment for each header. */
  function Segments(lines: seq<string>): (r: (seq<string>, seq<Segment>)) {
    if lines == [] then ([], [])
    else
      var (misc, segments) := Segments(lines[..|lines| - 1]);
      var line := lines[|lines| - 1];
      if IsHeader(line) then (misc, segments + [[line]])
      else if segments == [] then (misc + [line], [])
      else (misc, segments[..|segments| - 1] + [segments[|segments| - 1] + [line]])
  }

  function Filter<T>(xs: seq<T>, p: T -> bool): (r: seq<T>) {
    if xs == [] then []
    else Filter(xs[..|xs| - 1], p) + if p(xs[|xs| - 1]) then [xs[|xs| - 1]] else []
  }

  /** A segment's header, its frames and its other lines, each in order. */
  function BlockOf(segment: Segment): Block {
    Block(segment[0], Filter(segment[1..], IsFrame), Filter(segment[1..], IsOtherLine))
  }

  function BlocksOf(segments: seq<Segment>): (bs: seq<Block>)
    ensures |bs| == |segments| && forall k | 0 <= k < |bs| :: bs[k] == BlockOf(segments[k])
  {
    if segments == [] then []
    else BlocksOf(segments[..|segments| - 1]) + [BlockOf(segments[|segments| - 1])]
  }

  function Flatten(segments: seq<Segment>): seq<string> {
    if segments == [] then [] else Flatten(segments[..|segments| - 1]) + segments[|segments| - 1]
  }

  /** No line is lost, none is doubled and none moves: the pieces make up the lines, and only
      they start with a header. */
  lemma {:induction false} SegmentsMakeUp(lines: seq<string>)
    ensures var (misc, segments) := Segments(lines);
            && misc + Flatten(segments) == lines
            && (forall l <- misc :: !IsHeader(l))
            && forall k | 0 <= k < |segments| :: StartsWithItsHeader(segments[k])
  {
    hide IsHeader, StartsWithItsHeader, Flatten;
    if lines == [] {
      assert [] + Flatten([]) == [] by { NothingFlat(); }
    } else {
      var init, line := lines[..|lines| - 1], lines[|lines| - 1];
      SegmentsMakeUp(init);
      assert lines == init + [line];
      var (misc, segments) := Segments(init);
      if IsHeader(line) {
        FlattenLast(segments, [line]);
        OwnHeader([line]);
        assert misc + (Flatten(segments) + [line]) == lines;
      } else if segments == [] {
        NothingFlat();
        assert misc + [line] + [] == lines;
      } else {
        var k := |segments| - 1;
        assert segments == segments[..k] + [segments[k]];
        FlattenLast(segments[..k], segments[k]);
        FlattenLast(segments[..k], segments[k] + [line]);
        LongerSegment(segments[k], line);
        assert misc + (Flatten(segments[..k]) + (segments[k] + [line]))
               == misc + (Flatten(segments[..k]) + segments[k]) + [line];
      }
    }
  }

  lemma NothingFlat()
    ensures Flatten([]) == []
  {}

  lemma FlattenLast(segments: seq<Segment>, last: Segment)
    ensures Flatten(segments + [last]) == Flatten(segments) + last
  {
    assert (segments + [last])[..|segments|] == segments;
  }

  lemma OwnHeader(segment: Segment)
    requires |segment| == 1 && IsHeader(segment[0])
    ensures StartsWithItsHeader(segment)
  {}

  lemma LongerSegment(segment: Segment, line: string)
    requires StartsWithItsHeader(segment) && !IsHeader(line)
    ensures StartsWithItsHeader(segment + [line])
  {
    assert (segment + [line])[1..] == segment[1..] + [line];
  }

  predicate StartsWithItsHeader(segment: Segment) {
    IsHeader(segment[0]) && forall l <- segment[1..] :: !IsHeader(l)
  }

  // ----- conservation

  function BlockLines(b: Block): multiset<string> {
    multiset{b.header} + multiset(b.frames) + multiset(b.extra)
  }

  function AllLines(bs: seq<Block>): multiset<string> {
    if bs == [] then multiset{} else AllLines(bs[..|bs| - 1]) + BlockLines(bs[|bs| - 1])
  }

  lemma Shuffle(a: multiset<string>, b: multiset<string>, x: multiset<string>)
    ensures (a + x) + b == (a + b) + x && a + (b + x) == (a + b) + x
  {}

  lemma LastOf(xs: seq<string>)
    requires xs != []
    ensures multiset(xs) == multiset(xs[..|xs| - 1]) + multiset{xs[|xs| - 1]}
  {
    assert xs == xs[..|xs| - 1] + [xs[|xs| - 1]];
  }

  lemma {:induction false} FilterSplits(xs: seq<string>)
    ensures multiset(Filter(xs, IsFrame)) + multiset(Filter(xs, IsOtherLine)) == multiset(xs)
  {
    hide IsFrame;
    if xs != [] {
      var init, last := xs[..|xs| - 1], xs[|xs| - 1];
      FilterSplits(init);
      LastOf(xs);
      Shuffle(multiset(Filter(init, IsFrame)), multiset(Filter(init, IsOtherLine)), multiset{last});
    }
  }

  lemma BlockHasAll(s: Segment)
    ensures BlockLines(BlockOf(s)) == multiset(s)
  {
    hide Filter;
    FilterSplits(s[1..]);
    assert s == [s[0]] + s[1..];
    var h, f, e := multiset{s[0]}, multiset(BlockOf(s).frames), multiset(BlockOf(s).extra);
    assert h + f + e == h + (f + e);
  }

  lemma {:induction false} BlocksHaveAll(segments: seq<Segment>)
    ensures AllLines(BlocksOf(segments)) == multiset(Flatten(segments))
  {
    hide BlockLines, BlockOf;
    if segments != [] {
      var init, last := segments[..|segments| - 1], segments[|segments| - 1];
      BlocksHaveAll(init);
      BlockHasAll(last);
      AllLinesLast(BlocksOf(init), BlockOf(last));
    }
  }

  lemma AllLinesLast(bs: seq<Block>, b: Block)
    ensures AllLines(bs + [b]) == AllLines(bs) + BlockLines(b)
  {
    hide BlockLines;
    assert (bs + [b])[..|bs|] == bs;
  }

  // ----- the final order

  predicate IsWorker(b: Block) {
    Contains(b.header, WORKER)
  }

  predicate IsOther(b: Block) {
    !IsWorker(b)
  }

  function Arranged(bs: seq<Block>): seq<Block> {
    Filter(bs, IsWorker) + Filter(bs, IsOther)
  }

  /** sort.SliceStable with the order "workers before others", by stable insertion. */
  method SortStable(bs: seq<Block>) returns (r: seq<Block>)
    ensures r == Arranged(bs)
  {
    hide IsWorker;
    r := [];
    for i := 0 to |bs|
      invariant r == Arranged(bs[..i])
    {
      var x := bs[i];
      assert bs[..i + 1][..i] == bs[..i];
      ghost var workers, others := Filter(bs[..i], IsWorker), Filter(bs[..i], IsOther);
      FilterHolds(bs[..i], IsWorker);
      FilterHolds(bs[..i], IsOther);
      var k := |r|;
      while k > 0 && IsWorker(x) && !IsWorker(r[k - 1])
        invariant 0 <= k <= |r|
        invariant IsWorker(x) ==> k >= |workers|
        invariant !IsWorker(x) ==> k == |r|
      {
        k := k - 1;
      }
      assert IsWorker(x) ==> k == |workers|;
      r := r[..k] + [x] + r[k..];
    }
    assert bs[..|bs|] == bs;
  }

  lemma {:induction false} FilterHolds<T>(xs: seq<T>, p: T -> bool)
    ensures forall i | 0 <= i < |Filter(xs, p)| :: p(Filter(xs, p)[i])
  {
    if xs != [] {
      FilterHolds(xs[..|xs| - 1], p);
    }
  }

  lemma {:induction false} ArrangedHasAll(bs: seq<Block>)
    ensures AllLines(Filter(bs, IsWorker)) + AllLines(Filter(bs, IsOther)) == AllLines(bs)
  {
    hide IsWorker, BlockLines, AllLines;
    if bs == [] {
      NoLines();
    } else {
      var init, last := bs[..|bs| - 1], bs[|bs| - 1];
      var workers, others := Filter(init, IsWorker), Filter(init, IsOther);
      ArrangedHasAll(init);
      assert bs == init + [last];
      AllLinesLast(init, last);
      AllLinesLast(workers, last);
      AllLinesLast(others, last);
      Shuffle(AllLines(workers), AllLines(others), BlockLines(last));
      assert workers + [] == workers && others + [] == others;
    }
  }

  lemma NoLines()
    ensures AllLines([]) == multiset{}
  {}

  lemma {:induction false} AllLinesAppend(a: seq<Block>, b: seq<Block>)
    ensures AllLines(a + b) == AllLines(a) + AllLines(b)
  {
    hide BlockLines, AllLines;
    NoLines();
    if b == [] {
      assert a + b == a;
    } else {
      var init, last := b[..|b| - 1], b[|b| - 1];
      AllLinesAppend(a, init);
      assert b == init + [last];
      assert a + b == a + init + [last];
      AllLinesLast(a + init, last);
      AllLinesLast(init, last);
      Shuffle(AllLines(a), AllLines(init), BlockLines(last));
    }
  }

  // ----- the parser

  function BlocksAndMisc(lines: seq<string>): (seq<Block>, seq<string>) {
    var (misc, segments) := Segments(lines);
    (Arranged(BlocksOf(segments)), misc)
  }

  method ParseStackBlocks(raw: string) returns (threads: seq<Block>, misc: seq<string>)
    ensures (threads, misc) == BlocksAndMisc(Trimmed(LinesOf(raw)))
  {
    hide IsHeader, IsFrame, TrimSpace, IsProgress, Segments;
    var lines := LinesOf(raw);
    threads, misc := [], [];
    var current: Option<Block> := None;
    NothingParsed();
    for i := 0 to |lines|
      invariant IsProgress(Trimmed(lines[..i]), threads, current, misc)
    {
      assert lines[..i + 1][..i] == lines[..i];
      var trimmed := TrimSpace(lines[i]);
      ghost var before := Trimmed(lines[..i]);
      assert Trimmed(lines[..i + 1]) == before + if trimmed == "" then [] else [trimmed];
      if IsHeader(trimmed) {
        HeaderNotBlank(trimmed);
        OpenSegment(before, threads, current, misc, trimmed);
        assert threads + [] == threads;
        if current.Some? {
          threads := threads + [current.value];
        }
        current := Some(Block(trimmed, [], []));
        continue;
      }
      if trimmed == "" {
        assert before + [] == before;
        continue;
      }
      if current == None {
        BeforeSegments(before, threads, misc, trimmed);
        misc := misc + [trimmed];
        continue;
      }
      ExtendSegment(before, threads, current.value, misc, trimmed);
      if IsFrame(trimmed) {
        current := Some(current.value.(frames := current.value.frames + [trimmed]));
      } else {
        current := Some(current.value.(extra := current.value.extra + [trimmed]));
      }
    }
    assert lines[..|lines|] == lines;
    Finish(Trimmed(lines), threads, current, misc);
    assert threads + [] == threads;
    if current.Some? {
      threads := threads + [current.value];
    }
    threads := SortStable(threads);
  }

  /** The lines before headers, the blocks finished so far and the one being filled are those of the segments. */
  ghost predicate IsProgress(lines: seq<string>, threads: seq<Block>, current: Option<Block>, misc: seq<string>) {
    var (before, segments) := Segments(lines);
    && misc == before
    && (segments == [] <==> current == None)
    && BlocksOf(segments) == threads + if current.Some? then [current.value] else []
  }

  lemma NothingParsed()
    ensures IsProgress([], [], None, [])
  {}

  lemma Finish(lines: seq<string>, threads: seq<Block>, current: Option<Block>, misc: seq<string>)
    requires IsProgress(lines, threads, current, misc)
    ensures BlocksAndMisc(lines) == (Arranged(threads + if current.Some? then [current.value] else []), misc)
  {
    hide Segments, BlocksOf, Arranged;
  }

  lemma HeaderNotBlank(line: string)
    requires IsHeader(line)
    ensures line != ""
  {}

  lemma OpenSegment(lines: seq<string>, threads: seq<Block>, current: Option<Block>, misc: seq<string>, line: string)
    requires IsProgress(lines, threads, current, misc) && IsHeader(line)
    ensures IsProgress(lines + [line], threads + if current.Some? then [current.value] else [],
                       Some(Block(line, [], [])), misc)
  {
    hide IsHeader;
    var (_, segments) := Segments(lines);
    assert (lines + [line])[..|lines|] == lines;
    assert [line][1..] == [];
    assert (segments + [[line]])[..|segments|] == segments;
  }

  lemma BeforeSegments(lines: seq<string>, threads: seq<Block>, misc: seq<string>, line: string)
    requires IsProgress(lines, threads, None, misc) && !IsHeader(line)
    ensures IsProgress(lines + [line], threads, None, misc + [line])
  {
    hide IsHeader;
    assert (lines + [line])[..|lines|] == lines;
  }

  lemma ExtendSegment(lines: seq<string>, threads: seq<Block>, current: Block, misc: seq<string>, line: string)
    requires IsProgress(lines, threads, Some(current), misc) && !IsHeader(line)
    ensures IsProgress(lines + [line], threads,
                       Some(if IsFrame(line) then current.(frames := current.frames + [line])
                            else current.(extra := current.extra + [line])), misc)
  {
    hide IsFrame, IsHeader, BlockOf;
    var (_, segments) := Segments(lines);
    assert (lines + [line])[..|lines|] == lines;
    var k := |segments| - 1;
    var longer: Segment := segments[k] + [line];
    assert (segments[..k] + [longer])[..k] == segments[..k];
    assert BlocksOf(segments) == BlocksOf(segments[..k]) + [BlockOf(segments[k])];
    assert threads == BlocksOf(segments[..k]) && current == BlockOf(segments[k]);
    LongerBlock(segments[k], line);
  }

  lemma LongerBlock(segment: Segment, line: string)
    ensures BlockOf(segment + [line])
         == if IsFrame(line) then BlockOf(segment).(frames := BlockOf(segment).frames + [line])
            else BlockOf(segment).(extra := BlockOf(segment).extra + [line])
  {
    hide IsFrame;
    var longer := segment + [line];
    assert longer[1..] == segment[1..] + [line];
    assert longer[1..][..|longer| - 2] == segment[1..];
  }

  /**
   Parsing loses and doubles nothing: the trimmed non-blank lines of the input are the lines of the
   blocks, in whatever order these end up, and the lines before the first header.
   */
  lemma ParsingConserves(lines: seq<string>)
    ensures var (threads, misc) := BlocksAndMisc(lines);
            AllLines(threads) + multiset(misc) == multiset(lines)
  {
    hide IsWorker, Filter;
    SegmentsMakeUp(lines);
    var (misc, segments) := Segments(lines);
    var blocks := BlocksOf(segments);
    BlocksHaveAll(segments);
    ArrangedHasAll(blocks);
    AllLinesAppend(Filter(blocks, IsWorker), Filter(blocks, IsOther));
  }
}
