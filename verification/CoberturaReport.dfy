/**
 What a merged report is, said of the classes' names, files and lines alone: which classes are gone, where
 their hits went, and what the classes that are left look like.
 */
module CoberturaReport {
  import opened Options
  import opened Sets
  import opened LineMaps
  import opened GeneratedNames
  import opened CoberturaMerge
  import opened CoberturaOrder

  // ----- which classes are left

  /** Class j is the one that class i was generated from: the last class of its file that has the name
      which its own name refers to, and is not generated itself. */
  ghost predicate GeneratedFrom(cs: seq<Class>, i: nat, j: nat)
    requires i < |cs|
  {
    && j < |cs|
    && ParseGeneratedClassName(cs[i].name).Generated?
    && var parent := ParseGeneratedClassName(cs[i].name).parent;
    && IsClass(cs[j], cs[i].filename, parent)
    && forall k | j < k < |cs| :: !IsClass(cs[k], cs[i].filename, parent)
  }

  predicate IsClass(c: Class, filename: string, name: string) {
    c.filename == filename && c.name == name && ParseGeneratedClassName(c.name).NotGenerated?
  }

  /** Some main class of the same file has the name that class i's name refers to. */
  ghost predicate HasMain(cs: seq<Class>, i: nat)
    requires i < |cs|
  {
    && ParseGeneratedClassName(cs[i].name).Generated?
    && exists k | 0 <= k < |cs| :: IsClass(cs[k], cs[i].filename, ParseGeneratedClassName(cs[i].name).parent)
  }

  lemma ParentIs(cs: seq<Class>, i: nat, j: nat)
    requires i < |cs|
    ensures ParentOf(cs, i) == Some(j) <==> GeneratedFrom(cs, i, j)
    ensures ParentOf(cs, i).Some? <==> HasMain(cs, i)
  {
    hide ParseGeneratedClassName, LastMain;
    if NameOf(cs[i]).Generated? {
      LastMainIs(cs, |cs|, cs[i].filename, NameOf(cs[i]).parent);
    }
  }

  function Indices(n: nat): (s: seq<nat>)
    ensures |s| == n && forall i | 0 <= i < n :: s[i] == i
  {
    seq(n, i requires 0 <= i < n => i)
  }

  lemma AppendAscending(idx: seq<nat>, n: nat)
    requires StrictlyAscending(idx) && forall i <- idx :: i < n
    ensures StrictlyAscending(idx + [n])
  {
    assert forall q | 0 <= q < |idx| :: idx[q] in idx;
  }

  /** The places of the classes without a parent among the first n. */
  function Kept(cs: seq<Class>, n: nat): seq<nat>
    requires n <= |cs|
  {
    Keep<nat>(cs, Indices(|cs|), 0, n)
  }

  lemma {:induction false} KeptExactly(cs: seq<Class>, n: nat)
    requires n <= |cs|
    ensures StrictlyAscending(Kept(cs, n)) && forall i: nat :: i in Kept(cs, n) <==> i < n && ParentOf(cs, i) == None
  {
    hide ParentOf;
    if n > 0 {
      KeptExactly(cs, n - 1);
      var init := Kept(cs, n - 1);
      assert forall q | 0 <= q < |init| :: init[q] in init;
    }
  }

  lemma {:induction false} KeptAlike<T>(cs: seq<Class>, xs: seq<T>, n: nat)
    requires n <= |cs| == |xs|
    ensures |Keep(cs, xs, 0, n)| == |Kept(cs, n)|
    ensures forall q | 0 <= q < |Kept(cs, n)| :: Kept(cs, n)[q] < |xs| && Keep(cs, xs, 0, n)[q] == xs[Kept(cs, n)[q]]
  {
    hide ParentOf;
    if n > 0 {
      KeptAlike(cs, xs, n - 1);
    }
  }

  /** What is taken from a stretch of a sequence parallel to the classes. */
  lemma {:induction false} KeptBetween<T>(cs: seq<Class>, xs: seq<T>, a: nat, b: nat) returns (idx: seq<nat>)
    requires a <= b <= |cs| == |xs|
    ensures StrictlyAscending(idx) && forall i: nat :: i in idx <==> a <= i < b && !HasMain(cs, i)
    ensures |Keep(cs, xs, a, b)| == |idx|
    ensures forall q | 0 <= q < |idx| :: idx[q] < |xs| && Keep(cs, xs, a, b)[q] == xs[idx[q]]
    decreases b
  {
    hide ParentOf, HasMain;
    idx := [];
    if a < b {
      idx := KeptBetween(cs, xs, a, b - 1);
      ParentIs(cs, b - 1, 0);
      if ParentOf(cs, b - 1) == None {
        AppendAscending(idx, b - 1);
        idx := idx + [b - 1];
      }
    }
  }

  // ----- what is left of them

  ghost predicate Absorbs(cs: seq<Class>, j: nat) {
    exists i | 0 <= i < |cs| :: GeneratedFrom(cs, i, j)
  }

  /** Some class generated from j hit line x so often. */
  ghost predicate HitByGenerated(cs: seq<Class>, j: nat, x: int, h: int) {
    exists i | 0 <= i < |cs| :: GeneratedFrom(cs, i, j) && x in MapOf(cs[i].lines) && MapOf(cs[i].lines)[x] == h
  }

  /** The class's own lines and those that generated classes hit, each with the most hits of any. */
  ghost predicate LinesTogether(cs: seq<Class>, j: nat, m: LineMap, x: int)
    requires j < |cs|
  {
    var own := MapOf(cs[j].lines);
    && (x in m <==> x in own || exists h :: h > 0 && HitByGenerated(cs, j, x, h))
    && (x in m ==> (x in own && m[x] == own[x]) || HitByGenerated(cs, j, x, m[x]))
    && (x in m && x in own ==> own[x] <= m[x])
    && (x in m ==> forall h | HitByGenerated(cs, j, x, h) :: h <= m[x])
  }

  /** The share of lines that were hit. */
  ghost predicate IsRateOf(rate: Rate, m: LineMap) {
    rate == Ratio(|set x | x in m && m[x] > 0|, |m|)
  }

  /** The method for a state machine: its hit lines under its source method's name, with a rate of 1. */
  ghost predicate IsMethodFor(m: Method, generated: Class) {
    && ParseGeneratedClassName(generated.name).Generated?
    && m.name == ParseGeneratedClassName(generated.name).methodName
    && m.signature == "()" && m.branchRate == "1" && m.complexity == "1"
    && m.lineRate == Ratio(|MapOf(m.lines)|, |MapOf(m.lines)|) && AreWritten(m.lines)
    && forall x: int ::
         && (x in MapOf(m.lines) <==> exists h :: h > 0 && SomeMethodHas(MethodsOf(generated), x, h))
         && (x in MapOf(m.lines) ==>
               && SomeMethodHas(MethodsOf(generated), x, MapOf(m.lines)[x])
               && forall h | SomeMethodHas(MethodsOf(generated), x, h) :: h <= MapOf(m.lines)[x])
  }

  /** The class is a state machine some line of whose methods was hit. */
  ghost predicate GivesMethod(c: Class) {
    && ParseGeneratedClassName(c.name).Generated? && ParseGeneratedClassName(c.name).methodName != ""
    && exists x, h :: h > 0 && SomeMethodHas(MethodsOf(c), x, h)
  }

  /** The class's own methods, then one for each state machine in document order. */
  ghost predicate MethodsTogether(cs: seq<Class>, j: nat, methods: seq<Method>)
    requires j < |cs|
  {
    exists idx: seq<nat> :: MethodsFrom(cs, j, |cs|, methods, idx)
  }

  ghost predicate MethodsFrom(cs: seq<Class>, j: nat, n: nat, methods: seq<Method>, idx: seq<nat>)
    requires j < |cs| && n <= |cs|
  {
    var own := MethodsOf(cs[j]);
    && StrictlyAscending(idx)
    && (forall i :: i in idx <==> 0 <= i < n && GeneratedFrom(cs, i, j) && GivesMethod(cs[i]))
    && |methods| == |own| + |idx| && methods[..|own|] == own
    && forall k | 0 <= k < |idx| :: idx[k] < |cs| && IsMethodFor(methods[|own| + k], cs[idx[k]])
  }

  /** What class j has become. */
  ghost predicate IsMergedClass(cs: seq<Class>, j: nat, c: Class)
    requires j < |cs|
  {
    && c.name == cs[j].name && c.filename == cs[j].filename
    && (!Absorbs(cs, j) ==> c == cs[j])
    && (Absorbs(cs, j) ==>
          && (forall x: int :: LinesTogether(cs, j, MapOf(c.lines), x)) && AreWritten(c.lines)
          && (if MapOf(c.lines) == map[] then c.lineRate == cs[j].lineRate else IsRateOf(c.lineRate, MapOf(c.lines)))
          && MethodsTogether(cs, j, MethodsOf(c)))
  }

  // ----- lines

  lemma ReceivesIs(cs: seq<Class>, j: nat)
    ensures Receives(cs, |cs|, j) <==> Absorbs(cs, j)
  {
    hide ParentOf, GeneratedFrom;
    forall i: nat | i < |cs| ensures ParentOf(cs, i) == Some(j) <==> GeneratedFrom(cs, i, j) {
      ParentIs(cs, i, j);
    }
  }

  lemma SentIs(cs: seq<Class>, j: nat, x: int, h: int)
    requires j < |cs|
    ensures HitByGenerated(cs, j, x, h) <==> Sent(cs, j, x, h)
  {
    hide ParentOf, GeneratedFrom, MapOf;
    forall i: nat | i < |cs| ensures ParentOf(cs, i) == Some(j) <==> GeneratedFrom(cs, i, j) {
      ParentIs(cs, i, j);
    }
    if HitByGenerated(cs, j, x, h) {
      var i :| 0 <= i < |cs| && GeneratedFrom(cs, i, j) && x in MapOf(cs[i].lines) && MapOf(cs[i].lines)[x] == h;
      assert SentBy(cs, j, x, h, i);
    }
  }

  lemma FinalIs(cs: seq<Class>, j: nat, x: int)
    requires j < |cs|
    ensures LinesTogether(cs, j, MapOf(Merged(cs)[j].lines), x)
  {
    hide MapOf, Merged, HitByGenerated, Sent, IsFinalAt;
    var m := MapOf(Merged(cs)[j].lines);
    MergedLines(cs, j, x);
    FinalBySent(cs, j, m, x);
    forall h: int ensures HitByGenerated(cs, j, x, h) <==> Sent(cs, j, x, h) {
      SentIs(cs, j, x, h);
    }
  }

  lemma AbsorbWrites(parent: Class, generated: Class, methodName: string)
    ensures AreWritten(Absorb(parent, generated, methodName).lines)
  {
    hide LinesFor, Merge, MapOf, InRange, HitLines, AreWritten;
    MapOfLinesInRange(parent.lines);
    MapOfLinesInRange(generated.lines);
    MergeInRange(MapOf(parent.lines), MapOf(generated.lines));
    WrittenLines(Merge(MapOf(parent.lines), MapOf(generated.lines)));
  }

  lemma {:induction false} ReceiversWritten(cs: seq<Class>, n: nat, j: nat)
    requires n <= |cs| && j < |cs| && Receives(cs, n, j)
    ensures AreWritten(After(cs, n)[j].lines)
  {
    hide ParentOf, Absorb, AreWritten, ParseGeneratedClassName;
    if ParentOf(cs, n - 1) == Some(j) {
      ParentIsMain(cs, n - 1);
      AbsorbWrites(After(cs, n - 1)[j], After(cs, n - 1)[n - 1], NameOf(cs[n - 1]).methodName);
    } else {
      ReceiversWritten(cs, n - 1, j);
      AfterElsewhere(cs, n - 1, j);
    }
  }

  // ----- methods

  lemma MethodIsFor(parent: Class, generated: Class)
    requires ParseGeneratedClassName(generated.name).Generated?
    requires HitLines(MethodsOf(generated)) != map[]
    ensures var name := ParseGeneratedClassName(generated.name).methodName;
            && MethodsOf(AddMethod(parent, name, generated)) != []
            && |MethodsOf(AddMethod(parent, name, generated))| == |MethodsOf(parent)| + 1
            && MethodsOf(AddMethod(parent, name, generated))[..|MethodsOf(parent)|] == MethodsOf(parent)
            && IsMethodFor(MethodsOf(AddMethod(parent, name, generated))[|MethodsOf(parent)|], generated)
  {
    hide ParseGeneratedClassName, LinesFor, MapOf, RateOf, HitLines, SomeMethodHas, InRange, AreWritten;
    var lines := HitLines(MethodsOf(generated));
    HitLinesInRange(MethodsOf(generated));
    WrittenLines(lines);
    HitLinesInRange(MethodsOf(generated));
    LinesRoundTrip(lines);
    HitLinesAreHit(MethodsOf(generated));
    forall x: int
      ensures x in lines <==> exists h :: h > 0 && SomeMethodHas(MethodsOf(generated), x, h)
      ensures x in lines ==> SomeMethodHas(MethodsOf(generated), x, lines[x])
                             && forall h | SomeMethodHas(MethodsOf(generated), x, h) :: h <= lines[x]
    {
      HitLinesAreLargest(MethodsOf(generated), x);
    }
  }

  lemma {:induction false} HitLinesInRange(methods: seq<Method>)
    ensures InRange(HitLines(methods))
  {
    hide InRange, Merge, MapOf;
    if methods == [] {
      NothingInRange();
    } else {
      HitLinesInRange(methods[..|methods| - 1]);
      MapOfLinesInRange(methods[|methods| - 1].lines);
      MergeInRange(HitLines(methods[..|methods| - 1]), MapOf(methods[|methods| - 1].lines));
    }
  }

  lemma GivesMethodIs(c: Class)
    requires ParseGeneratedClassName(c.name).Generated?
    ensures GivesMethod(c) <==> ParseGeneratedClassName(c.name).methodName != "" && HitLines(MethodsOf(c)) != map[]
  {
    hide ParseGeneratedClassName, HitLines, SomeMethodHas;
    var lines := HitLines(MethodsOf(c));
    if lines != map[] {
      assert lines.Keys != {};
      var x := Element(lines.Keys);
      HitLinesAreLargest(MethodsOf(c), x);
    }
    if x, h :| h > 0 && SomeMethodHas(MethodsOf(c), x, h) {
      HitLinesAreLargest(MethodsOf(c), x);
    }
  }

  /** Absorbing a class adds its method behind the others, or none. */
  lemma AbsorbMethods(parent: Class, generated: Class)
    requires ParseGeneratedClassName(generated.name).Generated?
    ensures var name := ParseGeneratedClassName(generated.name).methodName;
            var own, now := MethodsOf(parent), MethodsOf(Absorb(parent, generated, name));
            if GivesMethod(generated) then
              |now| == |own| + 1 && now[..|own|] == own && IsMethodFor(now[|own|], generated)
            else now == own
  {
    hide ParseGeneratedClassName, LinesFor, Merge, HitLines, GivesMethod, IsMethodFor;
    GivesMethodIs(generated);
    var merged := MergeLines(parent, generated);
    if ParseGeneratedClassName(generated.name).methodName != "" && HitLines(MethodsOf(generated)) != map[] {
      MethodIsFor(merged, generated);
    }
  }

  lemma {:induction false} MethodsAfter(cs: seq<Class>, j: nat, n: nat) returns (idx: seq<nat>)
    requires j < |cs| && n <= |cs|
    ensures MethodsFrom(cs, j, n, MethodsOf(After(cs, n)[j]), idx)
  {
    hide ParentOf, ParseGeneratedClassName, Absorb, GivesMethod, IsMethodFor, GeneratedFrom;
    if n == 0 {
      idx := [];
    } else {
      idx := MethodsAfter(cs, j, n - 1);
      var i := n - 1;
      AfterKeeps(cs, i, i);
      ParentIs(cs, i, j);
      if GeneratedFrom(cs, i, j) {
        ParentIsMain(cs, i);
        IsGenerated(cs, i, j);
        AbsorbMethods(After(cs, i)[j], cs[i]);
        if GivesMethod(cs[i]) {
          MethodsStep(cs, j, i, MethodsOf(After(cs, i)[j]), MethodsOf(After(cs, n)[j]), idx);
          idx := idx + [i];
        }
      } else {
        AfterElsewhere(cs, i, j);
      }
    }
  }

  lemma IsGenerated(cs: seq<Class>, i: nat, j: nat)
    requires i < |cs| && GeneratedFrom(cs, i, j)
    ensures ParseGeneratedClassName(cs[i].name).Generated?
  {
    hide ParseGeneratedClassName;
  }

  lemma AfterElsewhere(cs: seq<Class>, i: nat, j: nat)
    requires i < |cs| && j < |cs| && ParentOf(cs, i) != Some(j)
    ensures After(cs, i + 1)[j] == After(cs, i)[j]
  {
    hide ParentOf, Absorb, ParseGeneratedClassName;
    if ParentOf(cs, i).Some? {
      ParentIsMain(cs, i);
    }
  }

  lemma MethodsStep(cs: seq<Class>, j: nat, i: nat, before: seq<Method>, after: seq<Method>, idx: seq<nat>)
    requires j < |cs| && i < |cs| && MethodsFrom(cs, j, i, before, idx)
    requires GeneratedFrom(cs, i, j) && GivesMethod(cs[i])
    requires |after| == |before| + 1 && after[..|before|] == before && IsMethodFor(after[|before|], cs[i])
    ensures MethodsFrom(cs, j, i + 1, after, idx + [i])
  {
    hide GivesMethod, IsMethodFor, GeneratedFrom;
    var own, next := MethodsOf(cs[j]), idx + [i];
    assert after[..|own|] == before[..|own|];
    assert forall q | 0 <= q < |idx| :: idx[q] in idx;
    forall k | 0 <= k < |next| ensures next[k] < |cs| && IsMethodFor(after[|own| + k], cs[next[k]]) {
      assert k < |idx| ==> after[|own| + k] == before[|own| + k];
    }
    forall p ensures p in next <==> 0 <= p < i + 1 && GeneratedFrom(cs, p, j) && GivesMethod(cs[p]) {}
  }
  // ----- the whole report

  lemma MergedIs(cs: seq<Class>, j: nat)
    requires j < |cs|
    ensures IsMergedClass(cs, j, Merged(cs)[j])
  {
    hide MapOf, Receives, Absorbs, LinesTogether, MethodsFrom, After, ParentOf, AreWritten;
    ReceivesIs(cs, j);
    AfterKeeps(cs, |cs|, j);
    if Absorbs(cs, j) {
      forall x: int ensures LinesTogether(cs, j, MapOf(Merged(cs)[j].lines), x) {
        FinalIs(cs, j, x);
      }
      FinalRate(cs, j);
      ReceiversWritten(cs, |cs|, j);
      assert CoveredLines(MapOf(Merged(cs)[j].lines))
          == set x | x in MapOf(Merged(cs)[j].lines) && MapOf(Merged(cs)[j].lines)[x] > 0;
      var idx := MethodsAfter(cs, j, |cs|);
      assert MethodsOf(Merged(cs)[j]) == MethodsOf(After(cs, |cs|)[j]);
    }
  }

  /**
   The report after the merge. A class is left out exactly if it is generated and some main class of its file
   has the name that its own name refers to; the others are there in their order, each having absorbed
   the lines, and gained the methods, of the classes generated from it.
   */
  lemma ReportExactly(cs: seq<Class>) returns (kept: seq<nat>)
    ensures StrictlyAscending(kept) && forall i: nat :: i in kept <==> i < |cs| && !HasMain(cs, i)
    ensures |Output(cs)| == |kept|
    ensures forall q | 0 <= q < |kept| :: kept[q] < |cs| && IsMergedClass(cs, kept[q], Output(cs)[q])
  {
    hide ParentOf, HasMain, IsMergedClass, Merged, Keep;
    kept := Kept(cs, |cs|);
    KeptExactly(cs, |cs|);
    KeptAlike(cs, Merged(cs), |cs|);
    forall i: nat | i < |cs| ensures ParentOf(cs, i) == None <==> !HasMain(cs, i) {
      ParentIs(cs, i, 0);
    }
    forall q | 0 <= q < |kept| ensures IsMergedClass(cs, kept[q], Output(cs)[q]) {
      MergedIs(cs, kept[q]);
    }
  }

  /** Every line that a left-out class hit is in the class that it was generated from, with at least its hits. */
  lemma HitsArrive(cs: seq<Class>, i: nat, x: int) returns (q: nat)
    requires i < |cs| && HasMain(cs, i) && x in MapOf(cs[i].lines) && MapOf(cs[i].lines)[x] > 0
    ensures q < |Output(cs)|
    ensures var c := Output(cs)[q];
            && c.filename == cs[i].filename
            && ParseGeneratedClassName(cs[i].name).Generated?
            && c.name == ParseGeneratedClassName(cs[i].name).parent
            && x in MapOf(c.lines) && MapOf(c.lines)[x] >= MapOf(cs[i].lines)[x]
  {
    hide ParentOf, MapOf, Merged, Keep, ParseGeneratedClassName;
    ParentIs(cs, i, 0);
    var j := ParentOf(cs, i).value;
    ParentIs(cs, i, j);
    ParentIsMain(cs, i);
    KeptExactly(cs, |cs|);
    KeptAlike(cs, Merged(cs), |cs|);
    q :| 0 <= q < |Kept(cs, |cs|)| && Kept(cs, |cs|)[q] == j;
    MergedIs(cs, j);
    assert HitByGenerated(cs, j, x, MapOf(cs[i].lines)[x]);
    FinalIs(cs, j, x);
  }

  /** State machines, lambda caches and closures of a class are left out when it is there itself. */
  lemma RenderedIsLeftOut(
    cs: seq<Class>, i: nat, j: nat, p: Pattern, base: string, methodName: string, d1: string, d2: string,
    suffix: string)
    requires i < |cs| && j < |cs| && cs[i].filename == cs[j].filename
    requires IsBase(base) && IsMethod(p, methodName) && Digits(d1) && Digits(d2) && IsSuffix(suffix)
    requires cs[i].name == base + Render(p, methodName, d1, d2, suffix) && cs[j].name == base + suffix
    requires ParseGeneratedClassName(cs[j].name).NotGenerated?
    ensures HasMain(cs, i)
  {
    hide ParseGeneratedClassName, Render, IsBase, IsMethod, Digits, IsSuffix;
    ParseInvertsGeneration(p, base, methodName, d1, d2, suffix);
    assert IsClass(cs[j], cs[i].filename, base + suffix);
  }
}
