/**
 Dumps as text: what is printed around and between the lines of a dump does not matter, and a dump that is
 printed in any such way parses to just its threads and the lines before them.
 */
module StackDumpText {
  import opened Options
  import opened Text
  import opened StackDump

  // ----- white space

  predicate AllSpaces(s: string) {
    forall c <- s :: IsSpace(c)
  }

  /** Unicode White_Space, by number. */
  lemma SpacesAre(c: char)
    ensures IsSpace(c) <==>
              var n := c as int;
              n in {0x09, 0x0A, 0x0B, 0x0C, 0x0D, 0x20, 0x85, 0xA0, 0x1680, 0x2028, 0x2029, 0x202F, 0x205F, 0x3000}
              || 0x2000 <= n <= 0x200A
  {}

  /** What is left between white space begins and ends with none. */
  predicate IsTrimmed(s: string) {
    s == "" || (!IsSpace(s[0]) && !IsSpace(s[|s| - 1]))
  }

  lemma {:induction false} TrimLeftIs(before: string, s: string)
    requires AllSpaces(before) && (s == "" || !IsSpace(s[0]))
    ensures StackDump.TrimLeft(before + s) == s
  {
    if before == "" {
      assert before + s == s;
    } else {
      assert before[0] in before;
      TrimLeftIs(before[1..], s);
      assert (before + s)[1..] == before[1..] + s;
    }
  }

  lemma {:induction false} TrimRightIs(s: string, after: string)
    requires AllSpaces(after) && (s == "" || !IsSpace(s[|s| - 1]))
    ensures TrimRight(s + after) == s
  {
    if after == "" {
      assert s + after == s;
    } else {
      assert after[|after| - 1] in after;
      TrimRightIs(s, after[..|after| - 1]);
      assert (s + after)[..|s + after| - 1] == s + after[..|after| - 1];
    }
  }

  /** Trimming takes off all the white space at both ends, and nothing else. */
  lemma TrimSpaceIs(before: string, s: string, after: string)
    requires AllSpaces(before) && AllSpaces(after) && IsTrimmed(s)
    ensures TrimSpace(before + s + after) == s
  {
    hide IsSpace, TrimRight;
    if s == "" {
      TrimLeftIs(before + after, "");
      assert before + s + after == before + after + "";
      TrimRightIs("", "");
      assert "" + "" == "";
    } else {
      assert before + s + after == before + (s + after);
      TrimLeftIs(before, s + after);
      TrimRightIs(s, after);
    }
  }

  // ----- lines

  predicate IsBreak(c: char) {
    c == '\n' || c == '\r'
  }

  predicate AllBreaks(s: string) {
    forall c <- s :: IsBreak(c)
  }

  predicate NoBreaks(s: string) {
    forall c <- s :: !IsBreak(c)
  }

  /** A line as printed: its content, white space around it, and what ends it; "" is the content of a blank line. */
  datatype Piece = Piece(before: string, content: string, after: string, end: string)

  function LineOf(p: Piece): string {
    p.before + p.content + p.after
  }

  predicate ProperPiece(p: Piece) {
    AllSpaces(p.before) && AllSpaces(p.after) && IsTrimmed(p.content) && NoBreaks(LineOf(p)) && AllBreaks(p.end)
  }

  /** Lines are ended by any run of "\n" and "\r", the last one perhaps by none; all but the first have something
      in them, since further line ends are part of the run. */
  predicate ProperPieces(pieces: seq<Piece>) {
    && (forall p <- pieces :: ProperPiece(p))
    && (forall k | 0 <= k < |pieces| - 1 :: pieces[k].end != "")
    && forall k | 0 < k < |pieces| :: LineOf(pieces[k]) != ""
  }

  function TextOf(pieces: seq<Piece>): string {
    if pieces == [] then "" else LineOf(pieces[0]) + (pieces[0].end + TextOf(pieces[1..]))
  }

  function ContentsOf(pieces: seq<Piece>): seq<string> {
    if pieces == [] then []
    else (if pieces[0].content == "" then [] else [pieces[0].content]) + ContentsOf(pieces[1..])
  }

  lemma {:induction false} CrLfAppend(a: string, b: string)
    requires a == "" || b == "" || !(a[|a| - 1] == '\r' && b[0] == '\n')
    ensures ReplaceCrLf(a + b) == ReplaceCrLf(a) + ReplaceCrLf(b)
    decreases |a|
  {
    hide ReplaceCrLf;
    if a == "" {
      assert a + b == b;
      CrLfNone("");
      assert "" + ReplaceCrLf(b) == ReplaceCrLf(b);
    } else if |a| >= 2 && a[0] == '\r' && a[1] == '\n' {
      CrLfAppend(a[2..], b);
      assert (a + b)[2..] == a[2..] + b;
      PairOff(a);
      PairOff(a + b);
    } else {
      CrLfAppend(a[1..], b);
      assert (a + b)[1..] == a[1..] + b;
      OneMore(a);
      OneMore(a + b);
    }
  }

  lemma PairOff(a: string)
    requires |a| >= 2 && a[0] == '\r' && a[1] == '\n'
    ensures ReplaceCrLf(a) == "\n" + ReplaceCrLf(a[2..])
  {}

  lemma OneMore(a: string)
    requires a != "" && !(|a| >= 2 && a[0] == '\r' && a[1] == '\n')
    ensures ReplaceCrLf(a) == [a[0]] + ReplaceCrLf(a[1..])
  {}

  lemma {:induction false} CrLfNone(a: string)
    requires NoBreaks(a)
    ensures ReplaceCrLf(a) == a
  {
    if a != "" {
      assert a[0] in a;
      OneMore(a);
      CrLfNone(a[1..]);
    }
  }

  lemma {:induction false} CrLfBreaks(b: string)
    requires AllBreaks(b)
    ensures AllBreaks(ReplaceCrLf(b)) && (b != "" ==> ReplaceCrLf(b) != "")
    decreases |b|
  {
    if |b| >= 2 && b[0] == '\r' && b[1] == '\n' {
      CrLfBreaks(b[2..]);
    } else if b != "" {
      assert b[0] in b;
      OneMore(b);
      CrLfBreaks(b[1..]);
    }
  }

  function Normal(raw: string): string {
    ReplaceAll(ReplaceCrLf(raw), '\r', '\n')
  }

  function NewLines(n: nat): (s: string)
    ensures |s| == n && forall i | 0 <= i < n :: s[i] == '\n'
  {
    seq(n, _ => '\n')
  }

  lemma NormalEnd(end: string) returns (n: nat)
    requires AllBreaks(end)
    ensures Normal(end) == NewLines(n) && (end != "" ==> n > 0)
  {
    hide ReplaceCrLf;
    CrLfBreaks(end);
    var b := ReplaceCrLf(end);
    n := |b|;
    assert forall i | 0 <= i < n :: b[i] in b;
    assert Normal(end) == NewLines(n);
  }

  lemma NormalLine(line: string)
    requires NoBreaks(line)
    ensures Normal(line) == line && '\n' !in line
  {
    hide ReplaceCrLf;
    CrLfNone(line);
    assert forall i | 0 <= i < |line| :: line[i] in line;
  }

  /** A line, its end and the rest are made normal one by one. */
  lemma NormalSplits(line: string, end: string, rest: string)
    requires NoBreaks(line) && AllBreaks(end) && (end == "" ==> rest == "")
    requires rest != "" ==> !IsBreak(rest[0])
    ensures Normal(line + (end + rest)) == line + (Normal(end) + Normal(rest))
  {
    hide ReplaceCrLf, ReplaceAll;
    if line != "" {
      assert line[|line| - 1] in line;
    }
    CrLfAppend(line, end + rest);
    CrLfAppend(end, rest);
    CrLfNone(line);
    NormalLine(line);
    ReplaceAppend(ReplaceCrLf(line), ReplaceCrLf(end) + ReplaceCrLf(rest), '\r', '\n');
    ReplaceAppend(ReplaceCrLf(end), ReplaceCrLf(rest), '\r', '\n');
  }

  function Blanks(n: nat): seq<string> {
    seq(n, _ => "")
  }

  lemma {:induction false} SplitRun(line: string, n: nat, rest: string)
    requires '\n' !in line && n > 0
    ensures Split(line + (NewLines(n) + rest), '\n') == [line] + (Blanks(n - 1) + Split(rest, '\n'))
    decreases n
  {
    hide Split;
    if n == 1 {
      assert line + (NewLines(n) + rest) == line + ['\n'] + rest;
      SplitFirst(line, rest, '\n');
      assert Blanks(0) + Split(rest, '\n') == Split(rest, '\n');
    } else {
      var more := NewLines(n - 1) + rest;
      assert line + (NewLines(n) + rest) == line + ['\n'] + more;
      SplitFirst(line, more, '\n');
      SplitRun("", n - 1, rest);
      assert "" + more == more;
      assert [""] + (Blanks(n - 2) + Split(rest, '\n')) == Blanks(n - 1) + Split(rest, '\n');
    }
  }

  lemma {:induction false} TrimmedAppend(a: seq<string>, b: seq<string>)
    ensures Trimmed(a + b) == Trimmed(a) + Trimmed(b)
  {
    hide TrimSpace;
    if b == [] {
      assert a + b == a;
    } else {
      TrimmedAppend(a, b[..|b| - 1]);
      assert (a + b)[..|a + b| - 1] == a + b[..|b| - 1];
    }
  }

  lemma {:induction false} NoBlanks(n: nat)
    ensures Trimmed(Blanks(n)) == []
  {
    if n > 0 {
      NoBlanks(n - 1);
      assert Blanks(n)[..n - 1] == Blanks(n - 1);
    }
  }

  lemma OneTrimmed(p: Piece)
    requires ProperPiece(p)
    ensures Trimmed([LineOf(p)]) == if p.content == "" then [] else [p.content]
  {
    hide TrimSpace;
    TrimSpaceIs(p.before, p.content, p.after);
    assert [LineOf(p)][..0] == [];
  }

  lemma RestProper(pieces: seq<Piece>)
    requires pieces != [] && ProperPieces(pieces)
    ensures ProperPieces(pieces[1..]) && ProperPiece(pieces[0])
    ensures pieces[0].end == "" ==> pieces[1..] == []
    ensures pieces[1..] != [] ==> LineOf(pieces[1]) != "" && ProperPiece(pieces[1])
  {
    hide ProperPiece, LineOf;
    assert forall p <- pieces[1..] :: p in pieces;
  }

  lemma TextStarts(pieces: seq<Piece>)
    requires pieces != [] ==> ProperPiece(pieces[0]) && LineOf(pieces[0]) != ""
    ensures pieces == [] ==> TextOf(pieces) == ""
    ensures TextOf(pieces) != "" ==> !IsBreak(TextOf(pieces)[0])
  {
    hide LineOf;
    if pieces != [] {
      assert LineOf(pieces[0])[0] in LineOf(pieces[0]);
    }
  }

  /** The trimmed lines of a text, blank ones left out, are the contents, whatever lies around and between. */
  lemma {:induction false} TextReads(pieces: seq<Piece>)
    requires ProperPieces(pieces)
    ensures Trimmed(LinesOf(TextOf(pieces))) == ContentsOf(pieces)
  {
    hide ProperPiece, ProperPieces, LineOf, Trimmed, Split, ReplaceCrLf, ReplaceAll;
    if pieces == [] {
      EmptyText();
    } else {
      var p, rest := pieces[0], TextOf(pieces[1..]);
      RestProper(pieces);
      TextStarts(pieces[1..]);
      TextReads(pieces[1..]);
      ProperIs(p);
      NormalSplits(LineOf(p), p.end, rest);
      NormalLine(LineOf(p));
      var n := NormalEnd(p.end);
      OneTrimmed(p);
      if n > 0 {
        SplitRun(LineOf(p), n, Normal(rest));
        TrimmedAppend([LineOf(p)], Blanks(n - 1) + LinesOf(rest));
        TrimmedAppend(Blanks(n - 1), LinesOf(rest));
        NoBlanks(n - 1);
        assert [] + Trimmed(LinesOf(rest)) == Trimmed(LinesOf(rest));
      } else {
        assert p.end == "" && rest == "";
        EmptyText();
        assert LineOf(p) + ("" + "") == LineOf(p);
        SplitFirst(LineOf(p), "", '\n');
        NothingMore(pieces);
      }
    }
  }

  lemma NothingMore(pieces: seq<Piece>)
    requires pieces != [] && pieces[1..] == []
    ensures ContentsOf(pieces) == if pieces[0].content == "" then [] else [pieces[0].content]
  {}

  lemma ProperIs(p: Piece)
    requires ProperPiece(p)
    ensures NoBreaks(LineOf(p)) && AllBreaks(p.end)
  {}

  lemma EmptyText()
    ensures TextOf([]) == "" && LinesOf("") == [""] && Trimmed([""]) == [] && ContentsOf([]) == []
    ensures Normal("") == ""
  {}

  // ----- dumps

  /** No line in front is a header, and each thread is one header and lines that are none. */
  ghost predicate IsDump(misc: seq<string>, threads: seq<Segment>) {
    && (forall l <- misc :: !("Thread " <= l))
    && forall t <- threads :: "Thread " <= t[0] && forall l <- t[1..] :: !("Thread " <= l)
  }

  lemma {:induction false} SegmentsFound(misc: seq<string>, threads: seq<Segment>)
    requires IsDump(misc, threads)
    ensures Segments(misc + Flatten(threads)) == (misc, threads)
    decreases |threads|
  {
    hide IsDump, Segments, IsHeader;
    if threads == [] {
      assert misc + Flatten(threads) == misc;
      NoHeaders(misc, threads);
      OnlyMisc(misc);
    } else {
      var init, last := threads[..|threads| - 1], threads[|threads| - 1];
      DumpInit(misc, threads);
      SegmentsFound(misc, init);
      AddThread(misc + Flatten(init), misc, init, last, |last|);
      assert last[..|last|] == last;
      assert misc + Flatten(threads) == misc + Flatten(init) + last;
      assert threads == init + [last];
    }
  }

  lemma DumpInit(misc: seq<string>, threads: seq<Segment>)
    requires threads != [] && IsDump(misc, threads)
    ensures IsDump(misc, threads[..|threads| - 1])
    ensures IsHeader(threads[|threads| - 1][0]) && forall l <- threads[|threads| - 1][1..] :: !IsHeader(l)
  {
    assert threads[|threads| - 1] in threads;
  }

  lemma {:induction false} OnlyMisc(misc: seq<string>)
    requires forall k | 0 <= k < |misc| :: !IsHeader(misc[k])
    ensures Segments(misc) == (misc, [])
  {
    hide IsHeader;
    if misc != [] {
      OnlyMisc(misc[..|misc| - 1]);
      assert misc == misc[..|misc| - 1] + [misc[|misc| - 1]];
    }
  }

  lemma NoHeaders(misc: seq<string>, threads: seq<Segment>)
    requires IsDump(misc, threads)
    ensures forall k | 0 <= k < |misc| :: !IsHeader(misc[k])
  {
    forall k | 0 <= k < |misc| ensures !IsHeader(misc[k]) {
      assert misc[k] in misc;
    }
  }

  lemma AnotherLine(lines: seq<string>, line: string)
    ensures var (misc, segments) := Segments(lines);
            && (IsHeader(line) ==> Segments(lines + [line]) == (misc, segments + [[line]]))
            && (!IsHeader(line) && segments != [] ==>
                  Segments(lines + [line])
                  == (misc, segments[..|segments| - 1] + [segments[|segments| - 1] + [line]]))
  {
    hide IsHeader;
    assert (lines + [line])[..|lines|] == lines;
  }

  lemma {:induction false} AddThread(
    lines: seq<string>, misc: seq<string>, threads: seq<Segment>, last: Segment, n: nat)
    requires Segments(lines) == (misc, threads) && 1 <= n <= |last|
    requires IsHeader(last[0]) && forall l <- last[1..] :: !IsHeader(l)
    ensures Segments(lines + last[..n]) == (misc, threads + [last[..n]])
  {
    hide IsHeader, Segments;
    if n == 1 {
      assert last[..1] == [last[0]];
      AnotherLine(lines, last[0]);
    } else {
      AddThread(lines, misc, threads, last, n - 1);
      assert last[n - 1] == last[1..][n - 2];
      assert last[n - 1] in last[1..];
      assert last[..n] == last[..n - 1] + [last[n - 1]];
      assert lines + last[..n] == lines + last[..n - 1] + [last[n - 1]];
      AnotherLine(lines + last[..n - 1], last[n - 1]);
      assert (threads + [last[..n - 1]])[..|threads|] == threads;
    }
  }

  /** A thread as parsed: its header, the lines that begin with "#", and the others. */
  ghost predicate IsBlockOf(b: Block, t: Segment) {
    && b.header == t[0]
    && b.frames == Filter(t[1..], l => "#" <= l)
    && b.extra == Filter(t[1..], l => !("#" <= l))
  }

  /** A pool worker's header has this in it. */
  ghost predicate OfPoolWorker(b: Block) {
    exists a: string, c: string :: b.header == a + "name=\".NET ThreadPool Worker\"" + c
  }

  /**
   A dump printed in any way parses to its lines in front and its threads: pool workers first, then the
   others, each group in the order of the dump, and each thread with its header, frames and other lines.
   */
  lemma DumpRoundTrip(pieces: seq<Piece>, misc: seq<string>, threads: seq<Segment>)
    requires ProperPieces(pieces) && ContentsOf(pieces) == misc + Flatten(threads) && IsDump(misc, threads)
    ensures var (blocks, m) := BlocksAndMisc(Trimmed(LinesOf(TextOf(pieces))));
            m == misc && exists all: seq<Block> ::
              && |all| == |threads| && (forall k | 0 <= k < |all| :: IsBlockOf(all[k], threads[k]))
              && blocks == Filter(all, IsWorker) + Filter(all, IsOther)
    ensures forall b: Block :: IsWorker(b) <==> OfPoolWorker(b)
    ensures forall b: Block :: IsOther(b) <==> !OfPoolWorker(b)
  {
    hide IsDump, Segments, TextOf, LinesOf, Trimmed, ContentsOf, ProperPieces, IsWorker, OfPoolWorker;
    TextReads(pieces);
    SegmentsFound(misc, threads);
    var all := BlocksOf(threads);
    forall k | 0 <= k < |all| ensures IsBlockOf(all[k], threads[k]) {
      BlockIs(threads[k]);
    }
    forall b: Block ensures IsWorker(b) <==> OfPoolWorker(b) {
      WorkerIs(b);
    }
  }

  lemma WorkerIs(b: Block)
    ensures IsWorker(b) <==> OfPoolWorker(b)
  {
    ContainsExactly(b.header, WORKER);
  }

  lemma BlockIs(t: Segment)
    ensures IsBlockOf(BlockOf(t), t)
  {
    hide Filter;
    FilterSame(t[1..], IsFrame, l => "#" <= l);
    FilterSame(t[1..], IsOtherLine, l => !("#" <= l));
  }

  lemma {:induction false} FilterSame<T>(xs: seq<T>, p: T -> bool, q: T -> bool)
    requires forall x :: p(x) == q(x)
    ensures Filter(xs, p) == Filter(xs, q)
  {
    if xs != [] {
      FilterSame(xs[..|xs| - 1], p, q);
    }
  }

  /** A filter keeps, in their order, just the elements that it is to keep. */
  lemma {:induction false} FilterExactly<T>(xs: seq<T>, p: T -> bool) returns (idx: seq<nat>)
    ensures forall a, b | 0 <= a < b < |idx| :: idx[a] < idx[b]
    ensures forall i: nat :: i in idx <==> i < |xs| && p(xs[i])
    ensures |Filter(xs, p)| == |idx| && forall q | 0 <= q < |idx| :: idx[q] < |xs| && Filter(xs, p)[q] == xs[idx[q]]
  {
    idx := [];
    if xs != [] {
      idx := FilterExactly(xs[..|xs| - 1], p);
      if p(xs[|xs| - 1]) {
        assert forall q | 0 <= q < |idx| :: idx[q] in idx;
        idx := idx + [|xs| - 1];
      }
    }
  }

  /** Parsing loses and doubles nothing of the contents of the text. */
  lemma TextConserved(pieces: seq<Piece>)
    requires ProperPieces(pieces)
    ensures var (threads, misc) := BlocksAndMisc(Trimmed(LinesOf(TextOf(pieces))));
            AllLines(threads) + multiset(misc) == multiset(ContentsOf(pieces))
  {
    hide BlocksAndMisc, TextOf, LinesOf, Trimmed, ContentsOf, ProperPieces, AllLines;
    TextReads(pieces);
    ParsingConserves(ContentsOf(pieces));
  }
  // ----- every text is printed in such a way

  lemma {:induction false} SplitSpaces(line: string) returns (before: string, content: string, after: string)
    requires NoBreaks(line)
    ensures line == before + content + after && AllSpaces(before) && AllSpaces(after) && IsTrimmed(content)
    decreases |line|
  {
    if line != "" && IsSpace(line[0]) {
      assert forall c <- line[1..] :: c in line;
      before, content, after := SplitSpaces(line[1..]);
      before := [line[0]] + before;
    } else if line != "" && IsSpace(line[|line| - 1]) {
      assert forall c <- line[..|line| - 1] :: c in line;
      before, content, after := SplitSpaces(line[..|line| - 1]);
      after := after + [line[|line| - 1]];
    } else {
      before, content, after := "", line, "";
    }
  }

  /** A text begins with a line without line ends, and a run of line ends that stops where the text goes on. */
  lemma {:induction false} FirstLine(raw: string) returns (line: string, end: string, rest: string)
    ensures raw == line + (end + rest) && NoBreaks(line) && AllBreaks(end)
    ensures rest != "" ==> end != "" && !IsBreak(rest[0])
    ensures raw != "" && !IsBreak(raw[0]) ==> line != ""
    decreases |raw|
  {
    if raw == "" {
      line, end, rest := "", "", "";
    } else {
      line, end, rest := FirstLine(raw[1..]);
      if !IsBreak(raw[0]) {
        line := [raw[0]] + line;
      } else if line == "" {
        end := [raw[0]] + end;
      } else {
        assert raw[1] == line[0];
        rest := line + (end + rest);
        assert line[0] in line;
        line, end := "", [raw[0]];
      }
    }
  }

  lemma {:induction false} EveryText(raw: string) returns (pieces: seq<Piece>)
    ensures ProperPieces(pieces) && TextOf(pieces) == raw
    ensures raw != "" ==> pieces != []
    ensures raw != "" && !IsBreak(raw[0]) ==> LineOf(pieces[0]) != ""
    decreases |raw|
  {
    hide IsSpace, IsBreak;
    if raw == "" {
      pieces := [];
    } else {
      var line, end, rest := FirstLine(raw);
      var before, content, after := SplitSpaces(line);
      var p := Piece(before, content, after, end);
      if rest == "" {
        pieces := [p];
        assert TextOf([p]) == line + (end + "") by { assert [p][1..] == []; }
      } else {
        FirstTakes(raw, line, end, rest);
        var more := EveryText(rest);
        pieces := [p] + more;
        assert pieces[1..] == more;
      }
    }
  }

  lemma FirstTakes(raw: string, line: string, end: string, rest: string)
    requires raw == line + (end + rest) && end != ""
    ensures |rest| < |raw|
  {}
}
