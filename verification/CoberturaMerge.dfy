/**
 internal/debugadmin/cobertura_merge.go, mergeCompilerGeneratedClassesIntoParents: what the merge makes
 of the classes of a report, taken in document order as a sequence of values. Packages only divide that
 sequence. Excluded packages are gone and source recovery is off.
 */
module CoberturaMerge {
  import opened Options
  import opened Decimal
  import opened LineMaps
  import opened GeneratedNames

  datatype Method = Method(
    name: string, signature: string, lineRate: Rate, branchRate: string, complexity: string, lines: Lines)

  datatype Class = Class(name: string, filename: string, lineRate: Rate, methods: Option<seq<Method>>, lines: Lines)

  function NameOf(c: Class): GeneratedName {
    ParseGeneratedClassName(c.name)
  }

  predicate IsMain(c: Class) {
    NameOf(c).NotGenerated?
  }

  // ----- one generated class and its parent

  /** The hit lines of some methods, the largest hits winning. */
  function HitLines(methods: seq<Method>): LineMap {
    if methods == [] then map[]
    else Merge(HitLines(methods[..|methods| - 1]), MapOf(methods[|methods| - 1].lines))
  }

  function MethodsOf(c: Class): seq<Method> {
    match c.methods
    case None => []
    case Some(ms) => ms
  }

  /** A method named after the state machine's, with its hit lines; none if no line was hit. */
  ghost function AddMethod(parent: Class, methodName: string, generated: Class): Class {
    var m := HitLines(MethodsOf(generated));
    if |m| == 0 then parent
    else parent.(methods := Some(MethodsOf(parent) + [Method(methodName, "()", RateOf(m), "1", "1", LinesFor(m))]))
  }

  ghost function MergeLines(parent: Class, generated: Class): Class {
    parent.(lines := LinesFor(Merge(MapOf(parent.lines), MapOf(generated.lines))))
  }

  ghost function Absorb(parent: Class, generated: Class, methodName: string): Class {
    var merged := MergeLines(parent, generated);
    if methodName == "" then merged else AddMethod(merged, methodName, generated)
  }

  /** Only hit lines get into a state machine's method, so its rate is 1 whatever the state machine missed. */
  lemma {:induction false} HitLinesAreHit(methods: seq<Method>)
    ensures forall n <- HitLines(methods) :: HitLines(methods)[n] > 0
    ensures RateOf(HitLines(methods)) == Ratio(|HitLines(methods)|, |HitLines(methods)|)
  {
    if methods != [] {
      HitLinesAreHit(methods[..|methods| - 1]);
    }
    assert CoveredLines(HitLines(methods)) == HitLines(methods).Keys;
  }

  /** Some method has the line, with these hits. */
  ghost predicate SomeMethodHas(methods: seq<Method>, n: int, h: int) {
    exists k | 0 <= k < |methods| :: n in MapOf(methods[k].lines) && MapOf(methods[k].lines)[n] == h
  }

  /** A line of the synthesised method is one that some method of the state machine hit, with the most hits of any. */
  lemma {:induction false} HitLinesAreLargest(methods: seq<Method>, n: int)
    ensures n in HitLines(methods) <==> exists h :: h > 0 && SomeMethodHas(methods, n, h)
    ensures n in HitLines(methods) ==> SomeMethodHas(methods, n, HitLines(methods)[n])
    ensures n in HitLines(methods) ==> forall h | SomeMethodHas(methods, n, h) :: h <= HitLines(methods)[n]
  {
    hide MapOf, Merge, SomeMethodHas;
    if methods == [] {
      NoMethodHas(n);
    } else {
      var init, last := methods[..|methods| - 1], MapOf(methods[|methods| - 1].lines);
      HitLinesAreLargest(init, n);
      HitLinesAreHit(init);
      MergedDomain(HitLines(init), last, n);
      forall h | SomeMethodHas(init, n, h) ensures SomeMethodHas(methods, n, h) {
        LastMethodHas(methods, n, h);
      }
      forall h | SomeMethodHas(methods, n, h) ensures SomeMethodHas(init, n, h) || (n in last && last[n] == h) {
        LastMethodHas(methods, n, h);
      }
      if n in last {
        LastMethodHas(methods, n, last[n]);
      }
    }
  }

  lemma NoMethodHas(n: int)
    ensures forall h :: !SomeMethodHas([], n, h)
  {}

  lemma LastMethodHas(methods: seq<Method>, n: int, h: int)
    requires methods != []
    ensures var init, last := methods[..|methods| - 1], MapOf(methods[|methods| - 1].lines);
            SomeMethodHas(methods, n, h) <==> SomeMethodHas(init, n, h) || (n in last && last[n] == h)
  {
    hide MapOf;
    var init := methods[..|methods| - 1];
    if SomeMethodHas(init, n, h) {
      var k :| 0 <= k < |init| && n in MapOf(init[k].lines) && MapOf(init[k].lines)[n] == h;
      assert methods[k] == init[k];
    }
  }

  // ----- the whole report

  /** The last main class with a file name and name among the first n: a later one replaces an earlier one. */
  function LastMain(cs: seq<Class>, n: nat, filename: string, name: string): Option<nat>
    requires n <= |cs|
  {
    if n == 0 then None
    else if IsMain(cs[n - 1]) && cs[n - 1].filename == filename && cs[n - 1].name == name then Some(n - 1)
    else LastMain(cs, n - 1, filename, name)
  }

  /** Where class i goes. */
  function ParentOf(cs: seq<Class>, i: nat): (p: Option<nat>)
    requires i < |cs|
  {
    match NameOf(cs[i])
    case NotGenerated => None
    case Generated(parent, _) => LastMain(cs, |cs|, cs[i].filename, parent)
  }

  /** The classes after the first n have been gone through. */
  ghost function After(cs: seq<Class>, n: nat): (r: seq<Class>)
    requires n <= |cs|
    ensures |r| == |cs|
  {
    if n == 0 then cs
    else
      var before := After(cs, n - 1);
      match ParentOf(cs, n - 1)
      case None => before
      case Some(j) =>
        LastMainIs(cs, |cs|, cs[n - 1].filename, NameOf(cs[n - 1]).parent);
        before[j := Absorb(before[j], before[n - 1], NameOf(cs[n - 1]).methodName)]
  }

  ghost predicate Receives(cs: seq<Class>, n: nat, j: nat)
    requires n <= |cs|
  {
    exists i | 0 <= i < n :: ParentOf(cs, i) == Some(j)
  }

  /** recomputeClassLineRate. */
  function WithRate(c: Class): Class {
    var m := MapOf(c.lines);
    if |m| == 0 then c else c.(lineRate := RateOf(m))
  }

  /** The classes with everything merged and the rates of the receiving ones recomputed. */
  ghost function Merged(cs: seq<Class>): (r: seq<Class>)
    ensures |r| == |cs|
    ensures forall j | 0 <= j < |cs| :: r[j] == MergedAt(cs, j)
  {
    seq(|cs|, j requires 0 <= j < |cs| => MergedAt(cs, j))
  }

  ghost function MergedAt(cs: seq<Class>, j: nat): Class
    requires j < |cs|
  {
    var c := After(cs, |cs|)[j];
    if Receives(cs, |cs|, j) then WithRate(c) else c
  }

  /** What is left of a sequence parallel to the classes from a to b once the absorbed ones are taken out. */
  function Keep<T>(cs: seq<Class>, xs: seq<T>, a: nat, b: nat): seq<T>
    requires a <= b <= |cs| == |xs|
  {
    if a == b then []
    else Keep(cs, xs, a, b - 1) + if ParentOf(cs, b - 1) == None then [xs[b - 1]] else []
  }

  ghost function Output(cs: seq<Class>): seq<Class> {
    Keep(cs, Merged(cs), 0, |cs|)
  }

  // ----- parents

  lemma {:induction false} LastMainIs(cs: seq<Class>, n: nat, filename: string, name: string)
    requires n <= |cs|
    ensures match LastMain(cs, n, filename, name)
            case Some(j) =>
              && j < n && IsMain(cs[j]) && cs[j].filename == filename && cs[j].name == name
              && forall k | j < k < n :: !(IsMain(cs[k]) && cs[k].filename == filename && cs[k].name == name)
            case None => forall k | 0 <= k < n :: !(IsMain(cs[k]) && cs[k].filename == filename && cs[k].name == name)
  {
    hide ParseGeneratedClassName;
    if n > 0 {
      LastMainIs(cs, n - 1, filename, name);
    }
  }

  lemma ParentIsMain(cs: seq<Class>, i: nat)
    requires i < |cs| && ParentOf(cs, i).Some?
    ensures var j := ParentOf(cs, i).value;
            j < |cs| && IsMain(cs[j]) && cs[j].filename == cs[i].filename && !IsMain(cs[i])
    ensures ParentOf(cs, ParentOf(cs, i).value) == None
  {
    hide LastMain, ParseGeneratedClassName;
    LastMainIs(cs, |cs|, cs[i].filename, NameOf(cs[i]).parent);
  }

  /** No class that received lines is removed. */
  lemma ReceiversAreKept(cs: seq<Class>, j: nat)
    requires j < |cs| && Receives(cs, |cs|, j)
    ensures ParentOf(cs, j) == None
  {
    hide ParentOf;
    var i :| 0 <= i < |cs| && ParentOf(cs, i) == Some(j);
    ParentIsMain(cs, i);
  }

  /** Going through the classes changes only lines and methods, and only of main classes. */
  lemma {:induction false} AfterKeeps(cs: seq<Class>, n: nat, k: nat)
    requires n <= |cs| && k < |cs|
    ensures After(cs, n)[k].name == cs[k].name && After(cs, n)[k].filename == cs[k].filename
    ensures After(cs, n)[k].lineRate == cs[k].lineRate
    ensures !Receives(cs, n, k) ==> After(cs, n)[k] == cs[k]
    ensures !IsMain(cs[k]) ==> !Receives(cs, n, k)
  {
    hide ParentOf, LinesFor, Merge, ParseGeneratedClassName, RateOf;
    if n > 0 {
      AfterKeeps(cs, n - 1, k);
      if ParentOf(cs, n - 1).Some? {
        ParentIsMain(cs, n - 1);
      }
      assert ParentOf(cs, n - 1) == Some(k) ==> Receives(cs, n, k);
    }
  }

  // ----- the lines that a class ends with

  /** The lines of j merged, in order, with those of the first n classes that go to it. */
  ghost function MergeAll(cs: seq<Class>, n: nat, j: nat): LineMap
    requires n <= |cs| && j < |cs|
  {
    if n == 0 then MapOf(cs[j].lines)
    else if ParentOf(cs, n - 1) == Some(j) then Merge(MergeAll(cs, n - 1, j), MapOf(cs[n - 1].lines))
    else MergeAll(cs, n - 1, j)
  }

  lemma MapOfLinesInRange(lines: Lines)
    ensures InRange(MapOf(lines))
  {
    hide InRange, MapOfSeq;
    if lines.Some? {
      MapOfInRange(lines.value);
    } else {
      NothingInRange();
    }
  }

  lemma NothingInRange()
    ensures InRange(map[])
  {}

  lemma {:induction false} AfterLines(cs: seq<Class>, n: nat, j: nat)
    requires n <= |cs| && j < |cs|
    ensures MapOf(After(cs, n)[j].lines) == MergeAll(cs, n, j)
  {
    hide ParentOf, LinesFor, Merge, MapOf, ParseGeneratedClassName, RateOf, InRange;
    if n > 0 {
      AfterLines(cs, n - 1, j);
      if ParentOf(cs, n - 1).Some? {
        ParentIsMain(cs, n - 1);
        AfterKeeps(cs, n - 1, n - 1);
        var before := After(cs, n - 1);
        var k := ParentOf(cs, n - 1).value;
        AbsorbLines(before[k], before[n - 1], NameOf(cs[n - 1]).methodName);
      }
    }
  }

  lemma AbsorbLines(parent: Class, generated: Class, methodName: string)
    ensures MapOf(Absorb(parent, generated, methodName).lines) == Merge(MapOf(parent.lines), MapOf(generated.lines))
  {
    hide LinesFor, Merge, MapOf, InRange, HitLines;
    MapOfLinesInRange(parent.lines);
    MapOfLinesInRange(generated.lines);
    MergeInRange(MapOf(parent.lines), MapOf(generated.lines));
    LinesRoundTrip(Merge(MapOf(parent.lines), MapOf(generated.lines)));
  }

  /** Class i, among the first n, goes to j and has line x. */
  ghost predicate Sends(cs: seq<Class>, n: nat, j: nat, i: nat, x: int)
    requires n <= |cs| && j < |cs|
  {
    i < n && ParentOf(cs, i) == Some(j) && x in MapOf(cs[i].lines)
  }

  function HitsOf(c: Class, x: int): int
    requires x in MapOf(c.lines)
  {
    MapOf(c.lines)[x]
  }

  /**
   What the lines of j are, without regard to order: line x is there if it was j's own or some class
   sent to j hit it, and then it has the largest hits of all that have it.
   */
  ghost predicate IsFinalAt(cs: seq<Class>, n: nat, j: nat, m: LineMap, x: int)
    requires n <= |cs| && j < |cs|
  {
    var own := MapOf(cs[j].lines);
    && (x in m <==> x in own || exists i: nat :: Sends(cs, n, j, i, x) && HitsOf(cs[i], x) > 0)
    && (x in m && x in own ==> own[x] <= m[x])
    && (x in m ==> forall i: nat :: Sends(cs, n, j, i, x) ==> HitsOf(cs[i], x) <= m[x])
    && (x in m ==> (x in own && m[x] == own[x]) || exists i: nat :: Sends(cs, n, j, i, x) && m[x] == HitsOf(cs[i], x))
  }

  lemma {:induction false} FinalLines(cs: seq<Class>, n: nat, j: nat, x: int)
    requires n <= |cs| && j < |cs|
    ensures IsFinalAt(cs, n, j, MergeAll(cs, n, j), x)
  {
    hide ParentOf, MapOf, Merge;
    if n > 0 {
      FinalLines(cs, n - 1, j, x);
      var m0, m := MergeAll(cs, n - 1, j), MergeAll(cs, n, j);
      if ParentOf(cs, n - 1) == Some(j) {
        MergedDomain(m0, MapOf(cs[n - 1].lines), x);
        FinalStep(cs, n, j, m0, m, x);
      } else {
        assert forall i: nat :: Sends(cs, n, j, i, x) <==> Sends(cs, n - 1, j, i, x);
      }
    }
  }

  lemma FinalStep(cs: seq<Class>, n: nat, j: nat, m0: LineMap, m: LineMap, x: int)
    requires 0 < n <= |cs| && j < |cs| && IsFinalAt(cs, n - 1, j, m0, x)
    requires ParentOf(cs, n - 1) == Some(j)
    requires var g := MapOf(cs[n - 1].lines);
             && (x in m <==> x in m0 || (x in g && g[x] > 0))
             && (x in m0 && x in g ==> m[x] == if g[x] > m0[x] then g[x] else m0[x])
             && (x in m0 && x !in g ==> m[x] == m0[x])
             && (x !in m0 && x in g && g[x] > 0 ==> m[x] == g[x])
    ensures IsFinalAt(cs, n, j, m, x)
  {
    hide ParentOf, MapOf;
    var own, g := MapOf(cs[j].lines), MapOf(cs[n - 1].lines);
    assert forall i: nat :: Sends(cs, n, j, i, x) <==> Sends(cs, n - 1, j, i, x) || (i == n - 1 && x in g);
    if x in m0 && x !in own {
      var i: nat :| Sends(cs, n - 1, j, i, x) && HitsOf(cs[i], x) > 0;
      assert Sends(cs, n, j, i, x);
    }
    if x in g {
      assert Sends(cs, n, j, n - 1, x);
    }
    if x in m0 && !(x in own && m0[x] == own[x]) {
      var i: nat :| Sends(cs, n - 1, j, i, x) && m0[x] == HitsOf(cs[i], x);
      assert Sends(cs, n, j, i, x);
    }
  }

  /** The final lines of class j. */
  lemma MergedLines(cs: seq<Class>, j: nat, x: int)
    requires j < |cs|
    ensures MapOf(Merged(cs)[j].lines) == MergeAll(cs, |cs|, j)
    ensures IsFinalAt(cs, |cs|, j, MapOf(Merged(cs)[j].lines), x)
  {
    hide ParentOf, MapOf, Merge, RateOf, After;
    AfterLines(cs, |cs|, j);
    FinalLines(cs, |cs|, j, x);
  }

  /** A class that received lines ends with the rate of its final lines, if it has any. */
  lemma FinalRate(cs: seq<Class>, j: nat)
    requires j < |cs| && Receives(cs, |cs|, j)
    ensures var m := MapOf(Merged(cs)[j].lines);
            Merged(cs)[j].lineRate == if |m| == 0 then cs[j].lineRate else RateOf(m)
  {
    hide ParentOf, MapOf, RateOf, After;
    AfterKeeps(cs, |cs|, j);
  }

  // ----- conservation

  /** Positive hits of a line, or 0. */
  function HitAt(c: Class, x: int): nat {
    var m := MapOf(c.lines);
    if x in m && m[x] > 0 then m[x] else 0
  }

  /** The largest positive hits of a line of a file, over the classes of that file. */
  function MaxHits(cs: seq<Class>, filename: string, x: int): nat {
    if cs == [] then 0
    else
      var last := cs[|cs| - 1];
      var h := MaxHits(cs[..|cs| - 1], filename, x);
      if last.filename == filename && HitAt(last, x) > h then HitAt(last, x) else h
  }

  lemma {:induction false} MaxHitsIsMax(cs: seq<Class>, filename: string, x: int)
    ensures forall i | 0 <= i < |cs| && cs[i].filename == filename :: HitAt(cs[i], x) <= MaxHits(cs, filename, x)
    ensures var h := MaxHits(cs, filename, x);
            h == 0 || exists i | 0 <= i < |cs| :: cs[i].filename == filename && HitAt(cs[i], x) == h
  {
    hide HitAt;
    if cs != [] {
      var init := cs[..|cs| - 1];
      MaxHitsIsMax(init, filename, x);
      assert cs == init + [cs[|cs| - 1]];
      if MaxHits(cs, filename, x) != 0 && MaxHits(cs, filename, x) == MaxHits(init, filename, x) {
        var i :| 0 <= i < |init| && init[i].filename == filename && HitAt(init[i], x) == MaxHits(init, filename, x);
        assert cs[i] == init[i];
      }
    }
  }

  lemma {:induction false} KeepContains<T>(cs: seq<Class>, xs: seq<T>, a: nat, b: nat)
    requires a <= b <= |cs| == |xs|
    ensures forall i | a <= i < b && ParentOf(cs, i) == None :: xs[i] in Keep(cs, xs, a, b)
    ensures forall y <- Keep(cs, xs, a, b) :: exists i | a <= i < b :: ParentOf(cs, i) == None && xs[i] == y
  {
    hide ParentOf;
    if a < b {
      KeepContains(cs, xs, a, b - 1);
    }
  }

  lemma HitsOnlyGrow(cs: seq<Class>, j: nat, x: int)
    requires j < |cs|
    ensures HitAt(Merged(cs)[j], x) >= HitAt(cs[j], x)
    ensures forall i: nat | i < |cs| && ParentOf(cs, i) == Some(j) :: HitAt(Merged(cs)[j], x) >= HitAt(cs[i], x)
  {
    hide ParentOf, MapOf, Merged;
    MergedLines(cs, j, x);
    forall i: nat | i < |cs| && ParentOf(cs, i) == Some(j) ensures HitAt(Merged(cs)[j], x) >= HitAt(cs[i], x) {
      assert x in MapOf(cs[i].lines) ==> Sends(cs, |cs|, j, i, x);
    }
  }

  lemma HitsComeFrom(cs: seq<Class>, j: nat, x: int) returns (i: nat)
    requires j < |cs|
    ensures i < |cs| && cs[i].filename == cs[j].filename
    ensures HitAt(cs[i], x) == HitAt(Merged(cs)[j], x) || HitAt(Merged(cs)[j], x) == 0
  {
    hide ParentOf, MapOf, Merged;
    MergedLines(cs, j, x);
    var m := MapOf(Merged(cs)[j].lines);
    i := j;
    if x in m && !(x in MapOf(cs[j].lines) && m[x] == MapOf(cs[j].lines)[x]) {
      i :| Sends(cs, |cs|, j, i, x) && m[x] == HitsOf(cs[i], x);
      ParentIsMain(cs, i);
    }
  }

  /** Coverage is conserved: no line of any file loses or gains positive hits. */
  lemma Conservation(cs: seq<Class>, filename: string, x: int)
    ensures MaxHits(Output(cs), filename, x) == MaxHits(cs, filename, x)
  {
    hide ParentOf, HitAt, Merged, MaxHits, Keep;
    var out, merged := Output(cs), Merged(cs);
    KeepContains(cs, merged, 0, |cs|);
    MaxHitsIsMax(cs, filename, x);
    MaxHitsIsMax(out, filename, x);
    var before, after := MaxHits(cs, filename, x), MaxHits(out, filename, x);
    if before > 0 {
      var i :| 0 <= i < |cs| && cs[i].filename == filename && HitAt(cs[i], x) == before;
      KeptWithHits(cs, i, x);
    }
    if after > 0 {
      var k :| 0 <= k < |out| && out[k].filename == filename && HitAt(out[k], x) == after;
      assert out[k] in out;
      var j :| 0 <= j < |cs| && ParentOf(cs, j) == None && merged[j] == out[k];
      MergedNames(cs, j);
      var i := HitsComeFrom(cs, j, x);
    }
  }

  lemma MergedNames(cs: seq<Class>, j: nat)
    requires j < |cs|
    ensures Merged(cs)[j].name == cs[j].name && Merged(cs)[j].filename == cs[j].filename
  {
    hide ParentOf, MapOf, RateOf, After;
    AfterKeeps(cs, |cs|, j);
  }

  /** The output has a class of the same file with at least the hits of class i. */
  lemma KeptWithHits(cs: seq<Class>, i: nat, x: int)
    requires i < |cs|
    ensures exists k | 0 <= k < |Output(cs)| ::
              Output(cs)[k].filename == cs[i].filename && HitAt(Output(cs)[k], x) >= HitAt(cs[i], x)
  {
    hide ParentOf, HitAt, Merged, MaxHits, Keep;
    var out, merged := Output(cs), Merged(cs);
    KeepContains(cs, merged, 0, |cs|);
    var j := i;
    if ParentOf(cs, i).Some? {
      ParentIsMain(cs, i);
      j := ParentOf(cs, i).value;
    }
    HitsOnlyGrow(cs, j, x);
    MergedNames(cs, j);
    assert merged[j] in out;
    var k :| 0 <= k < |out| && out[k] == merged[j];
  }

  // ----- idempotence

  /** Nothing in the output has a parent there. */
  lemma OutputHasNoParents(cs: seq<Class>, k: nat)
    requires k < |Output(cs)|
    ensures ParentOf(Output(cs), k) == None
  {
    hide Merged, Keep, LastMain, ParseGeneratedClassName;
    var out, merged := Output(cs), Merged(cs);
    KeepContains(cs, merged, 0, |cs|);
    assert out[k] in out;
    var i :| 0 <= i < |cs| && ParentOf(cs, i) == None && merged[i] == out[k];
    MergedNames(cs, i);
    if NameOf(out[k]).Generated? {
      var parent := NameOf(out[k]).parent;
      LastMainIs(cs, |cs|, cs[i].filename, parent);
      LastMainIs(out, |out|, out[k].filename, parent);
      forall q | 0 <= q < |out|
        ensures !(IsMain(out[q]) && out[q].filename == out[k].filename && out[q].name == parent)
      {
        assert out[q] in out;
        var p :| 0 <= p < |cs| && ParentOf(cs, p) == None && merged[p] == out[q];
        MergedNames(cs, p);
      }
    }
  }

  lemma {:induction false} AfterNothing(cs: seq<Class>, n: nat)
    requires n <= |cs| && forall i | 0 <= i < |cs| :: ParentOf(cs, i) == None
    ensures After(cs, n) == cs
  {
    hide ParentOf;
    if n > 0 {
      AfterNothing(cs, n - 1);
    }
  }

  lemma {:induction false} KeepEverything<T>(cs: seq<Class>, xs: seq<T>, n: nat)
    requires n <= |cs| == |xs| && forall i | 0 <= i < |cs| :: ParentOf(cs, i) == None
    ensures Keep(cs, xs, 0, n) == xs[..n]
  {
    hide ParentOf;
    if n > 0 {
      KeepEverything(cs, xs, n - 1);
    }
  }

  /** Merging a merged report changes nothing: not a class, not a line, not a rate. */
  lemma Idempotent(cs: seq<Class>)
    ensures Merged(Output(cs)) == Output(cs) && Output(Output(cs)) == Output(cs)
  {
    hide ParentOf, WithRate, After, Keep;
    var out := Output(cs);
    forall k | 0 <= k < |out| ensures ParentOf(out, k) == None {
      OutputHasNoParents(cs, k);
    }
    AfterNothing(out, |out|);
    assert Merged(out) == out;
    KeepEverything(out, out, |out|);
    assert out[..|out|] == out;
  }
}
