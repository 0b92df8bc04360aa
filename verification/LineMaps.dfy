/**
 internal/debugadmin/cobertura_merge.go: the lines of a class as a map from line number to hits, and
 the merging of a generated class's lines into its parent's.
 */
module LineMaps {
  import opened Options
  import opened Decimal
  import opened Sets

  datatype Line = Line(number: string, hits: string, branch: string)

  /** A missing <lines> element is None. */
  type Lines = Option<seq<Line>>

  type LineMap = map<int, int>

  // ----- reading lines

  /** A line whose number and hits both read; others are skipped. */
  predicate Readable(l: Line) {
    Atoi(l.number).Some? && Atoi(l.hits).Some?
  }

  function Number(l: Line): int
    requires Readable(l)
  {
    Atoi(l.number).value
  }

  function Hits(l: Line): int
    requires Readable(l)
  {
    Atoi(l.hits).value
  }

  function AddLine(m: LineMap, l: Line): LineMap {
    if Readable(l) && (Number(l) !in m || Hits(l) > m[Number(l)]) then m[Number(l) := Hits(l)] else m
  }

  function MapOfSeq(lines: seq<Line>): LineMap {
    if lines == [] then map[] else AddLine(MapOfSeq(lines[..|lines| - 1]), lines[|lines| - 1])
  }

  function MapOf(lines: Lines): LineMap {
    match lines
    case None => map[]
    case Some(ls) => MapOfSeq(ls)
  }

  method LinesToMap(lines: Lines) returns (m: LineMap)
    ensures m == MapOf(lines)
  {
    m := map[];
    if lines == None {
      return;
    }
    for i := 0 to |lines.value|
      invariant m == MapOfSeq(lines.value[..i])
    {
      assert lines.value[..i + 1][..i] == lines.value[..i];
      var ln := lines.value[i];
      if Readable(ln) && (Number(ln) !in m || Hits(ln) > m[Number(ln)]) {
        m := m[Number(ln) := Hits(ln)];
      }
    }
    assert lines.value[..|lines.value|] == lines.value;
  }

  /** The map has the numbers of the readable lines, each with the largest hits of its lines. */
  lemma {:induction false} MapOfIsMax(lines: seq<Line>)
    ensures forall l <- lines :: Readable(l) ==> Number(l) in MapOfSeq(lines) && Hits(l) <= MapOfSeq(lines)[Number(l)]
    ensures forall n <- MapOfSeq(lines) ::
              exists i | 0 <= i < |lines| ::
                Readable(lines[i]) && Number(lines[i]) == n && Hits(lines[i]) == MapOfSeq(lines)[n]
  {
    if lines != [] {
      var init, last := lines[..|lines| - 1], lines[|lines| - 1];
      MapOfIsMax(init);
      assert lines == init + [last];
      var before, m := MapOfSeq(init), MapOfSeq(lines);
      forall n <- m
        ensures exists i | 0 <= i < |lines| :: Readable(lines[i]) && Number(lines[i]) == n && Hits(lines[i]) == m[n]
      {
        if n in before && before[n] == m[n] {
          var i :| 0 <= i < |init| && Readable(init[i]) && Number(init[i]) == n && Hits(init[i]) == before[n];
          assert lines[i] == init[i];
        } else {
          assert lines[|lines| - 1] == last;
        }
      }
    }
  }

  /** Everything read fits a 64-bit integer. */
  predicate InRange(m: LineMap) {
    forall n <- m :: MIN_INT <= n <= MAX_INT && MIN_INT <= m[n] <= MAX_INT
  }

  lemma {:induction false} MapOfInRange(lines: seq<Line>)
    ensures InRange(MapOfSeq(lines))
  {
    if lines != [] {
      MapOfInRange(lines[..|lines| - 1]);
    }
  }

  // ----- writing lines

  lemma {:induction false} LeastExists(s: set<int>) returns (x: int)
    requires s != {}
    ensures x in s && forall y <- s :: x <= y
    decreases s
  {
    var e := Element(s);
    x := e;
    if exists y <- s :: y < e {
      var y :| y in s && y < e;
      assert y in s - {e};
      x := LeastExists(s - {e});
      assert forall z <- s :: z == e || z in s - {e};
    }
  }

  lemma HasLeast(s: set<int>)
    requires s != {}
    ensures exists x :: x in s && forall y <- s :: x <= y
  {
    var x := LeastExists(s);
  }

  ghost function Least(s: set<int>): (x: int)
    requires s != {}
    ensures x in s && forall y <- s :: x <= y
  {
    HasLeast(s);
    var x :| x in s && forall y <- s :: x <= y;
    x
  }

  /** The numbers of a set in ascending order. */
  ghost function Ascending(s: set<int>): (r: seq<int>)
    ensures |r| == |s| && (forall x :: x in r <==> x in s)
    ensures forall i, j | 0 <= i < j < |r| :: r[i] < r[j]
  {
    if s == {} then [] else
      var x := Least(s);
      [x] + Ascending(s - {x})
  }

  predicate StrictlyAscending(r: seq<int>) {
    forall i, j | 0 <= i < j < |r| :: r[i] < r[j]
  }

  /** The list has the elements of the set. */
  ghost predicate Lists(r: seq<int>, s: set<int>) {
    forall x :: x in r <==> x in s
  }

  lemma TailWithout(r: seq<int>, s: set<int>)
    requires r != [] && StrictlyAscending(r) && Lists(r, s)
    ensures StrictlyAscending(r[1..]) && Lists(r[1..], s - {r[0]})
  {
    assert r == [r[0]] + r[1..];
  }

  lemma NothingIn(r: seq<int>, s: set<int>)
    requires r == [] && Lists(r, s)
    ensures s == {} && Ascending(s) == []
  {
    assert forall x :: x in s ==> x in r;
  }

  lemma FirstIsLeast(r: seq<int>, s: set<int>)
    requires r != [] && StrictlyAscending(r) && Lists(r, s)
    ensures s != {} && Least(s) == r[0] && r[0] in s
    ensures Ascending(s) == [r[0]] + Ascending(s - {r[0]})
  {
    assert r[0] in r;
    assert Least(s) in r;
    var i :| 0 <= i < |r| && r[i] == Least(s);
  }

  /** There is one ascending list of a set. */
  lemma {:induction false} AscendingUnique(r: seq<int>, s: set<int>)
    requires StrictlyAscending(r) && Lists(r, s)
    ensures r == Ascending(s)
    decreases s
  {
    hide Least, Lists, StrictlyAscending, Ascending;
    if r == [] {
      NothingIn(r, s);
    } else {
      FirstIsLeast(r, s);
      TailWithout(r, s);
      AscendingUnique(r[1..], s - {r[0]});
      assert r == [r[0]] + r[1..];
    }
  }

  function LineFor(n: int, h: int): Line {
    Line(Itoa(n), Itoa(h), "False")
  }

  function LinesAt(nums: seq<int>, m: LineMap): (ls: seq<Line>)
    requires forall n <- nums :: n in m
    ensures |ls| == |nums| && forall i | 0 <= i < |nums| :: ls[i] == LineFor(nums[i], m[nums[i]])
  {
    seq(|nums|, i requires 0 <= i < |nums| => LineFor(nums[i], m[nums[i]]))
  }

  ghost function LinesFor(m: LineMap): Lines {
    Some(LinesAt(Ascending(m.Keys), m))
  }

  lemma InsertAscending(r: seq<int>, k: nat, x: int)
    requires StrictlyAscending(r) && k <= |r|
    requires forall j | 0 <= j < k :: r[j] < x
    requires k < |r| ==> x < r[k]
    ensures StrictlyAscending(r[..k] + [x] + r[k..])
    ensures forall y :: y in r[..k] + [x] + r[k..] <==> y in r || y == x
  {
    assert r == r[..k] + r[k..];
  }

  /** sort.Ints. */
  method SortInts(nums: seq<int>) returns (r: seq<int>)
    requires forall i, j | 0 <= i < j < |nums| :: nums[i] != nums[j]
    ensures StrictlyAscending(r) && forall x :: x in r <==> x in nums
  {
    hide StrictlyAscending;
    r := [];
    NoneAscending();
    for i := 0 to |nums|
      invariant StrictlyAscending(r) && forall x :: x in r <==> x in nums[..i]
    {
      var k := 0;
      while k < |r| && r[k] < nums[i]
        invariant 0 <= k <= |r|
        invariant forall j | 0 <= j < k :: r[j] < nums[i]
      {
        k := k + 1;
      }
      assert k < |r| ==> r[k] in nums[..i];
      assert nums[..i + 1] == nums[..i] + [nums[i]];
      InsertAscending(r, k, nums[i]);
      r := r[..k] + [nums[i]] + r[k..];
    }
    assert nums[..|nums|] == nums;
  }

  lemma NoneAscending()
    ensures StrictlyAscending([])
  {}

  /** The keys of a map, in the order in which a range loop happens to meet them. */
  method KeysInAnyOrder(m: LineMap) returns (nums: seq<int>)
    ensures forall n :: n in nums <==> n in m.Keys
    ensures forall i, j | 0 <= i < j < |nums| :: nums[i] != nums[j]
  {
    nums := [];
    var todo := m.Keys;
    while todo != {}
      invariant todo <= m.Keys
      invariant forall n :: n in nums <==> n in m.Keys - todo
      invariant forall i, j | 0 <= i < j < |nums| :: nums[i] != nums[j]
      decreases todo
    {
      ghost var _ := Element(todo);
      var n :| n in todo;
      assert n !in nums;
      nums := nums + [n];
      todo := todo - {n};
    }
  }

  /** Sorting makes the result independent of the order. */
  method MapToLines(m: LineMap) returns (lines: Lines)
    ensures lines == LinesFor(m)
  {
    hide LineFor, Ascending;
    var nums := KeysInAnyOrder(m);
    nums := SortInts(nums);
    AscendingUnique(nums, m.Keys);
    var ls: seq<Line> := [];
    for i := 0 to |nums|
      invariant |ls| == i && forall k | 0 <= k < i :: ls[k] == LineFor(nums[k], m[nums[k]])
    {
      assert nums[i] in nums;
      ls := ls + [LineFor(nums[i], m[nums[i]])];
    }
    assert ls == LinesAt(nums, m);
    lines := Some(ls);
  }

  /** Reading back written lines gives the map. */
  lemma LinesRoundTrip(m: LineMap)
    requires InRange(m)
    ensures MapOf(LinesFor(m)) == m
  {
    hide MapOfSeq;
    ReadLinesAt(Ascending(m.Keys), m);
  }

  lemma ReadLineFor(m: LineMap, n: int, h: int)
    requires MIN_INT <= n <= MAX_INT && MIN_INT <= h <= MAX_INT && n !in m
    ensures AddLine(m, LineFor(n, h)) == m[n := h]
  {
    hide Atoi, Itoa;
    AtoiItoa(n);
    AtoiItoa(h);
  }

  function Restrict(m: LineMap, nums: seq<int>): LineMap
    requires forall n <- nums :: n in m
  {
    map n | n in nums :: m[n]
  }

  lemma RestrictLast(m: LineMap, init: seq<int>, last: int)
    requires forall n <- init + [last] :: n in m
    ensures forall n <- init :: n in init + [last]
    ensures Restrict(m, init + [last]) == Restrict(m, init)[last := m[last]]
  {
    assert last in init + [last];
    forall n <- init ensures n in init + [last] {}
  }

  lemma {:induction false} ReadLinesAt(nums: seq<int>, m: LineMap)
    requires InRange(m) && StrictlyAscending(nums) && forall n <- nums :: n in m
    ensures MapOfSeq(LinesAt(nums, m)) == Restrict(m, nums)
  {
    hide AddLine, LineFor, Restrict;
    if nums == [] {
      assert Restrict(m, []) == map[] by { RestrictNone(m); }
    } else {
      var init, last := nums[..|nums| - 1], nums[|nums| - 1];
      assert nums == init + [last];
      assert last in nums;
      ReadLinesAt(init, m);
      var ls := LinesAt(nums, m);
      assert ls[..|ls| - 1] == LinesAt(init, m);
      NotRestricted(m, init, last);
      ReadLineFor(Restrict(m, init), last, m[last]);
      RestrictLast(m, init, last);
    }
  }

  lemma RestrictNone(m: LineMap)
    ensures Restrict(m, []) == map[]
  {}

  lemma NotRestricted(m: LineMap, init: seq<int>, last: int)
    requires (forall n <- init :: n in m) && StrictlyAscending(init + [last])
    ensures last !in Restrict(m, init)
  {
    forall i | 0 <= i < |init| ensures init[i] != last {
      assert (init + [last])[i] < (init + [last])[|init|];
    }
  }

  /** Numbers in their usual text, and branch "False". */
  predicate IsWrittenLine(l: Line) {
    Readable(l) && l == Line(Itoa(Number(l)), Itoa(Hits(l)), "False")
  }

  /** The lines as the merge writes them: ascending, none twice. */
  ghost predicate AreWritten(lines: Lines) {
    && lines.Some?
    && (forall i | 0 <= i < |lines.value| :: IsWrittenLine(lines.value[i]))
    && forall i, j | 0 <= i < j < |lines.value| :: Number(lines.value[i]) < Number(lines.value[j])
  }

  lemma LineForReads(n: int, h: int)
    requires MIN_INT <= n <= MAX_INT && MIN_INT <= h <= MAX_INT
    ensures IsWrittenLine(LineFor(n, h)) && Number(LineFor(n, h)) == n
  {
    hide Atoi, Itoa;
    AtoiItoa(n);
    AtoiItoa(h);
  }

  lemma WrittenLines(m: LineMap)
    requires InRange(m)
    ensures AreWritten(LinesFor(m))
  {
    hide Atoi, Itoa, IsWrittenLine, LineFor, Readable, Number, Hits, Ascending;
    var nums := Ascending(m.Keys);
    var ls := LinesFor(m).value;
    forall i | 0 <= i < |ls| ensures IsWrittenLine(ls[i]) && Readable(ls[i]) && Number(ls[i]) == nums[i] {
      assert nums[i] in nums;
      LineForReads(nums[i], m[nums[i]]);
      WrittenIsReadable(ls[i]);
    }
    forall i, j | 0 <= i < j < |ls| ensures Readable(ls[i]) && Readable(ls[j]) && Number(ls[i]) < Number(ls[j]) {
      assert nums[i] < nums[j];
    }
  }

  lemma WrittenIsReadable(l: Line)
    requires IsWrittenLine(l)
    ensures Readable(l)
  {}

  // ----- merging

  function HitsOr0(m: LineMap, n: int): int {
    if n in m then m[n] else 0
  }

  /** Merging as the source does it: larger hits win, and a missing line counts as one with 0 hits. */
  function Merge(p: LineMap, g: LineMap): LineMap {
    map n | n in p.Keys + g.Keys && (n in p || g[n] > 0) ::
      if n in g && g[n] > HitsOr0(p, n) then g[n] else p[n]
  }

  /** The lines of g are met in any order. */
  method MergeInto(p: LineMap, g: LineMap) returns (merged: LineMap)
    ensures merged == Merge(p, g)
  {
    merged := p;
    var todo := g.Keys;
    ghost var done: LineMap := map[];
    while todo != {}
      invariant todo <= g.Keys
      invariant done == map n | n in g && n !in todo :: g[n]
      invariant merged == Merge(p, done)
      decreases todo
    {
      ghost var _ := Element(todo);
      var n :| n in todo;
      var h := g[n];
      todo := todo - {n};
      if h > HitsOr0(merged, n) {
        merged := merged[n := h];
      }
      done := done[n := h];
    }
    assert done == g;
  }

  /** The exact lines after a merge: the parent's, and the generated ones that were hit. */
  lemma MergedDomain(p: LineMap, g: LineMap, n: int)
    ensures n in Merge(p, g) <==> n in p || (n in g && g[n] > 0)
    ensures n in p && n in g ==> Merge(p, g)[n] == if g[n] > p[n] then g[n] else p[n]
    ensures n in p && n !in g ==> Merge(p, g)[n] == p[n]
    ensures n !in p && n in g && g[n] > 0 ==> Merge(p, g)[n] == g[n]
  {}

  /** A merge keeps every line of the generated class exactly when each is the parent's too or was hit. */
  lemma LinesKeptExactly(p: LineMap, g: LineMap)
    ensures (forall n <- g :: n in Merge(p, g)) <==> (forall n <- g :: n in p || g[n] > 0)
  {
    assert forall n <- g :: n in Merge(p, g) <==> n in p || g[n] > 0;
  }

  /** Line 7, never hit and known to the generated class only, is lost. */
  lemma UnhitLineLost()
    ensures 7 in map[7 := 0] && 7 !in Merge(map[], map[7 := 0])
  {}

  lemma MergeInRange(p: LineMap, g: LineMap)
    requires InRange(p) && InRange(g)
    ensures InRange(Merge(p, g))
  {}

  // ----- rates

  /** FormatFloat of a quotient is kept as the pair. */
  datatype Rate = Text(text: string) | Ratio(covered: nat, total: nat)

  function CoveredLines(m: LineMap): set<int> {
    set n | n in m && m[n] > 0
  }

  function RateOf(m: LineMap): Rate {
    Ratio(|CoveredLines(m)|, |m|)
  }

  method CountCovered(m: LineMap) returns (covered: nat)
    ensures covered == |CoveredLines(m)|
  {
    covered := 0;
    var todo := m.Keys;
    ghost var done: set<int> := {};
    while todo != {}
      invariant todo <= m.Keys
      invariant done == set n | n in m && n !in todo && m[n] > 0
      invariant covered == |done|
      decreases todo
    {
      ghost var _ := Element(todo);
      var n :| n in todo;
      if m[n] > 0 {
        covered := covered + 1;
        done := done + {n};
      }
      todo := todo - {n};
    }
    assert done == CoveredLines(m);
  }
}
