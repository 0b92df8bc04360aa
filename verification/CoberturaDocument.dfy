/**
 internal/debugadmin/cobertura_merge.go on the objects of a document: classes are updated through shared
 references while the slices that hold them are compacted in place.

 Name and file name are constants here: only source recovery, which is not part of this model, writes them.
 */
module CoberturaDocument {
  import opened Options
  import opened LineMaps
  import opened GeneratedNames
  import opened CoberturaMerge
  import opened CoberturaReport
  import opened Sets

  class ClassNode {
    const name: string
    const filename: string
    var lineRate: Rate
    var methods: Option<seq<Method>>
    var lines: Lines

    constructor (name: string, filename: string, lineRate: Rate, methods: Option<seq<Method>>, lines: Lines)
      ensures Value() == Class(name, filename, lineRate, methods, lines)
    {
      this.name, this.filename, this.lineRate, this.methods, this.lines := name, filename, lineRate, methods, lines;
    }

    ghost function Value(): Class
      reads this
    {
      Class(name, filename, lineRate, methods, lines)
    }
  }

  /** A package; its classes are a slice of a backing array. */
  class Package {
    const name: string
    const backing: array<ClassNode>
    var length: nat

    constructor (name: string, backing: array<ClassNode>)
      ensures this.name == name && this.backing == backing && length == backing.Length
    {
      this.name, this.backing, length := name, backing, backing.Length;
    }

    ghost predicate Has(slice: seq<ClassNode>)
      reads this, backing
    {
      length <= backing.Length && backing[..length] == slice
    }
  }

  // ----- one class into another

  method MergeGeneratedClassLines(parent: ClassNode, generated: ClassNode)
    requires parent != generated
    modifies parent
    ensures parent.Value() == MergeLines(old(parent.Value()), generated.Value())
  {
    var own := LinesToMap(parent.lines);
    var other := LinesToMap(generated.lines);
    var merged := MergeInto(own, other);
    parent.lines := MapToLines(merged);
  }

  method AddMergedAsyncMethod(parent: ClassNode, methodName: string, generated: ClassNode)
    requires parent != generated
    modifies parent
    ensures parent.Value() == AddMethod(old(parent.Value()), methodName, generated.Value())
  {
    hide LinesFor, Merge, MapOf, CoveredLines;
    var smLines: LineMap := map[];
    if generated.methods.Some? {
      var ms := generated.methods.value;
      for i := 0 to |ms|
        invariant smLines == HitLines(ms[..i]) && parent.Value() == old(parent.Value())
      {
        assert ms[..i + 1][..i] == ms[..i];
        var lines := LinesToMap(ms[i].lines);
        smLines := MergeInto(smLines, lines);
      }
      assert ms[..|ms|] == ms;
    }
    if |smLines| == 0 {
      return;
    }
    var covered := CountCovered(smLines);
    if parent.methods == None {
      parent.methods := Some([]);
    }
    var lines := MapToLines(smLines);
    parent.methods := Some(parent.methods.value +
      [Method(methodName, "()", Ratio(covered, |smLines|), "1", "1", lines)]);
  }

  method RecomputeClassLineRate(cls: ClassNode)
    modifies cls
    ensures cls.Value() == WithRate(old(cls.Value()))
  {
    var m := LinesToMap(cls.lines);
    if |m| == 0 {
      return;
    }
    var covered := CountCovered(m);
    cls.lineRate := Ratio(covered, |m|);
  }

  // ----- the classes of a document

  /** The slices of the packages one after another. */
  ghost function Flat(slices: seq<seq<ClassNode>>): seq<ClassNode> {
    if slices == [] then [] else Flat(slices[..|slices| - 1]) + slices[|slices| - 1]
  }

  ghost function Start(slices: seq<seq<ClassNode>>, p: nat): nat
    requires p <= |slices|
  {
    |Flat(slices[..p])|
  }

  ghost predicate Distinct<T>(xs: seq<T>) {
    forall i, j | 0 <= i < j < |xs| :: xs[i] != xs[j]
  }

  ghost predicate Agree(flat: seq<ClassNode>, cs: seq<Class>)
    reads flat
  {
    |flat| == |cs| && forall k | 0 <= k < |cs| :: flat[k].Value() == cs[k]
  }

  /** The index of main classes finds, for every file name and name, the last main class so far. */
  ghost predicate IndexIs(index: map<(string, string), ClassNode>, flat: seq<ClassNode>, cs: seq<Class>, n: nat)
    requires n <= |cs| == |flat|
  {
    forall filename: string, name: string :: IndexAt(index, flat, cs, n, filename, name)
  }

  ghost predicate IndexAt(
    index: map<(string, string), ClassNode>, flat: seq<ClassNode>, cs: seq<Class>, n: nat,
    filename: string, name: string)
    requires n <= |cs| == |flat|
  {
    match LastMain(cs, n, filename, name)
    case None => (filename, name) !in index
    case Some(j) => j < |flat| && (filename, name) in index && index[(filename, name)] == flat[j]
  }

  /** The set of modified classes is that of the receivers so far. */
  ghost predicate ModifiedIs(modified: set<ClassNode>, flat: seq<ClassNode>, cs: seq<Class>, n: nat)
    requires n <= |cs| == |flat|
  {
    && (forall k | 0 <= k < |flat| :: flat[k] in modified <==> Receives(cs, n, k))
    && (forall c <- modified :: c in flat)
  }

  /** Packages over disjoint arrays, holding these slices. */
  ghost predicate Holds(packages: seq<Package>, slices: seq<seq<ClassNode>>)
    reads packages, set p <- packages :: p.backing
  {
    && |packages| == |slices| && Distinct(packages)
    && (forall p, q | 0 <= p < q < |packages| :: packages[p].backing != packages[q].backing)
    && forall p | 0 <= p < |packages| :: packages[p].Has(slices[p])
  }

  lemma IndexStep(index: map<(string, string), ClassNode>, flat: seq<ClassNode>, cs: seq<Class>, n: nat)
    requires n < |cs| == |flat| && IndexIs(index, flat, cs, n)
    ensures IndexIs(if IsMain(cs[n]) then index[(cs[n].filename, cs[n].name) := flat[n]] else index, flat, cs, n + 1)
  {
    hide ParseGeneratedClassName;
    var after := if IsMain(cs[n]) then index[(cs[n].filename, cs[n].name) := flat[n]] else index;
    var next := n + 1;
    forall filename: string, name: string ensures IndexAt(after, flat, cs, next, filename, name) {
      assert IndexAt(index, flat, cs, n, filename, name);
    }
  }

  lemma StartStep(slices: seq<seq<ClassNode>>, p: nat)
    requires p < |slices|
    ensures Start(slices, p + 1) == Start(slices, p) + |slices[p]|
    ensures Start(slices, p + 1) <= |Flat(slices)|
    ensures Flat(slices)[Start(slices, p)..Start(slices, p + 1)] == slices[p]
    decreases |slices|
  {
    var last := |slices| - 1;
    if p < last {
      StartStep(slices[..last], p);
      assert slices[..last][..p] == slices[..p] && slices[..last][..p + 1] == slices[..p + 1];
    } else {
      assert slices[..p + 1] == slices;
      assert slices[..p] == slices[..last];
    }
  }

  lemma StartEnds(slices: seq<seq<ClassNode>>)
    ensures Start(slices, 0) == 0 && Start(slices, |slices|) == |Flat(slices)|
  {
    assert slices[..|slices|] == slices;
  }

  /** The first pass. */
  method IndexMainClasses(packages: seq<Package>, ghost slices: seq<seq<ClassNode>>, ghost cs: seq<Class>)
    returns (index: map<(string, string), ClassNode>)
    requires Holds(packages, slices) && Agree(Flat(slices), cs)
    ensures IndexIs(index, Flat(slices), cs, |cs|)
  {
    hide IndexIs, LastMain, ParseGeneratedClassName, Flat;
    ghost var flat := Flat(slices);
    index := map[];
    StartEnds(slices);
    NoIndexYet(flat, cs);
    for p := 0 to |packages|
      invariant Start(slices, p) <= |flat|
      invariant IndexIs(index, flat, cs, Start(slices, p))
    {
      var pkg := packages[p];
      StartStep(slices, p);
      assert pkg.Has(slices[p]);
      for c := 0 to pkg.length
        invariant Start(slices, p) + c <= |flat|
        invariant IndexIs(index, flat, cs, Start(slices, p) + c)
      {
        var cls := pkg.backing[c];
        ghost var n := Start(slices, p) + c;
        assert cls == slices[p][c] == flat[n];
        assert cls.Value() == cs[n];
        IndexStep(index, flat, cs, n);
        if ParseGeneratedClassName(cls.name).NotGenerated? {
          index := index[(cls.filename, cls.name) := cls];
        }
      }
    }
  }

  lemma NoIndexYet(flat: seq<ClassNode>, cs: seq<Class>)
    requires |cs| == |flat|
    ensures IndexIs(map[], flat, cs, 0)
  {
    forall filename: string, name: string ensures IndexAt(map[], flat, cs, 0, filename, name) {}
  }

  /** One class of the second pass: it stays, or its lines go to its parent. */
  method MergeOne(cls: ClassNode, index: map<(string, string), ClassNode>, modified: set<ClassNode>,
                  ghost flat: seq<ClassNode>, ghost cs: seq<Class>, ghost n: nat)
    returns (kept: bool, nowModified: set<ClassNode>)
    requires n < |cs| == |flat| && Distinct(flat) && cls == flat[n]
    requires Agree(flat, After(cs, n)) && IndexIs(index, flat, cs, |cs|) && ModifiedIs(modified, flat, cs, n)
    modifies flat
    ensures kept <==> ParentOf(cs, n) == None
    ensures Agree(flat, After(cs, n + 1)) && ModifiedIs(nowModified, flat, cs, n + 1)
  {
    hide LastMain, ParseGeneratedClassName, MergeLines, AddMethod, ModifiedIs;
    AfterKeeps(cs, n, n);
    ModifiedStep(modified, flat, cs, n);
    assert cls.Value() == After(cs, n)[n];
    var g := ParseGeneratedClassName(cls.name);
    if g.NotGenerated? {
      return true, modified;
    }
    var key := (cls.filename, g.parent);
    assert IndexAt(index, flat, cs, |cs|, cls.filename, g.parent);
    if key !in index {
      return true, modified;
    }
    var parent := index[key];
    ghost var j := ParentOf(cs, n).value;
    ParentIsMain(cs, n);
    assert parent == flat[j];
    AfterKeeps(cs, n, j);
    MergeGeneratedClassLines(parent, cls);
    if g.methodName != "" {
      AddMergedAsyncMethod(parent, g.methodName, cls);
    }
    assert parent.Value() == After(cs, n + 1)[j];
    return false, modified + {parent};
  }

  lemma ModifiedStep(modified: set<ClassNode>, flat: seq<ClassNode>, cs: seq<Class>, n: nat)
    requires n < |cs| == |flat| && Distinct(flat) && ModifiedIs(modified, flat, cs, n)
    ensures match ParentOf(cs, n)
            case None => ModifiedIs(modified, flat, cs, n + 1)
            case Some(j) => j < |flat| && ModifiedIs(modified + {flat[j]}, flat, cs, n + 1)
  {
    hide ParentOf, Receives;
    if ParentOf(cs, n).Some? {
      ParentIsMain(cs, n);
    }
    forall k: nat | k < |cs| ensures Receives(cs, n + 1, k) <==> Receives(cs, n, k) || ParentOf(cs, n) == Some(k) {
      ReceivesStep(cs, n, k);
    }
  }

  lemma ReceivesStep(cs: seq<Class>, n: nat, k: nat)
    requires n < |cs|
    ensures Receives(cs, n + 1, k) <==> Receives(cs, n, k) || ParentOf(cs, n) == Some(k)
  {
    hide ParentOf;
  }

  /** The slice of one package is compacted in the array it is read from. */
  method CompactPackage(pkg: Package, index: map<(string, string), ClassNode>, modified: set<ClassNode>,
                        ghost flat: seq<ClassNode>, ghost cs: seq<Class>, ghost start: nat)
    returns (nowModified: set<ClassNode>)
    requires start + pkg.length <= |cs| == |flat| && Distinct(flat)
    requires pkg.Has(flat[start..start + pkg.length])
    requires Agree(flat, After(cs, start)) && IndexIs(index, flat, cs, |cs|) && ModifiedIs(modified, flat, cs, start)
    modifies pkg, pkg.backing, flat
    ensures pkg.Has(Keep(cs, flat, start, start + old(pkg.length)))
    ensures Agree(flat, After(cs, start + old(pkg.length)))
    ensures ModifiedIs(nowModified, flat, cs, start + old(pkg.length))
  {
    hide ParentOf, After, IndexIs, ModifiedIs, Distinct, Agree;
    var count := pkg.length;
    var classes := pkg.backing;
    var remaining := 0;
    nowModified := modified;
    for c := 0 to count
      invariant remaining <= c && pkg.length == count
      invariant forall k | c <= k < count :: classes[k] == flat[start + k]
      invariant classes[..remaining] == Keep(cs, flat, start, start + c)
      invariant Agree(flat, After(cs, start + c))
      invariant ModifiedIs(nowModified, flat, cs, start + c)
    {
      var cls := classes[c];
      var kept;
      kept, nowModified := MergeOne(cls, index, nowModified, flat, cs, start + c);
      if kept {
        classes[remaining] := cls;
        remaining := remaining + 1;
        assert classes[..remaining] == classes[..remaining - 1] + [cls];
      }
    }
    pkg.length := remaining;
  }

  /** The rates of the modified classes, in any order. */
  method RecomputeRates(modified: set<ClassNode>, ghost flat: seq<ClassNode>, ghost cs: seq<Class>)
    requires |cs| == |flat| && Distinct(flat) && Agree(flat, After(cs, |cs|)) && ModifiedIs(modified, flat, cs, |cs|)
    modifies flat
    ensures Agree(flat, Merged(cs))
  {
    hide ParentOf, After, WithRate, Receives;
    var todo := modified;
    while todo != {}
      invariant todo <= modified
      invariant forall k | 0 <= k < |flat| ::
                  flat[k].Value()
                  == if flat[k] in modified - todo then WithRate(After(cs, |cs|)[k]) else After(cs, |cs|)[k]
      decreases todo
    {
      ghost var _ := Element(todo);
      var cls :| cls in todo;
      ghost var k :| 0 <= k < |flat| && flat[k] == cls;
      RecomputeClassLineRate(cls);
      todo := todo - {cls};
    }
  }

  /** What the merge leaves of the p-th slice. */
  ghost function Left(slices: seq<seq<ClassNode>>, cs: seq<Class>, p: nat): seq<ClassNode>
    requires p < |slices| && |cs| == |Flat(slices)|
  {
    StartStep(slices, p);
    Keep(cs, Flat(slices), Start(slices, p), Start(slices, p + 1))
  }

  method CompactPackages(packages: seq<Package>, index: map<(string, string), ClassNode>,
                         ghost slices: seq<seq<ClassNode>>, ghost cs: seq<Class>)
    returns (modified: set<ClassNode>)
    requires Holds(packages, slices) && Distinct(Flat(slices)) && Agree(Flat(slices), cs)
    requires IndexIs(index, Flat(slices), cs, |cs|)
    modifies packages, set p <- packages :: p.backing, Flat(slices)
    ensures Agree(Flat(slices), After(cs, |cs|)) && ModifiedIs(modified, Flat(slices), cs, |cs|)
    ensures forall p | 0 <= p < |packages| :: packages[p].Has(Left(slices, cs, p))
  {
    hide ParentOf, After, IndexIs, ModifiedIs, Flat, Keep, Left;
    ghost var flat := Flat(slices);
    modified := {};
    StartEnds(slices);
    NothingModified(flat, cs);
    for p := 0 to |packages|
      invariant Start(slices, p) <= |flat|
      invariant Agree(flat, After(cs, Start(slices, p))) && ModifiedIs(modified, flat, cs, Start(slices, p))
      invariant forall q | p <= q < |packages| :: packages[q].Has(slices[q])
      invariant forall q | 0 <= q < p :: packages[q].Has(Left(slices, cs, q))
    {
      StartStep(slices, p);
      LeftIs(slices, cs, p);
      assert packages[p].Has(slices[p]);
      modified := CompactPackage(packages[p], index, modified, flat, cs, Start(slices, p));
    }
  }

  lemma LeftIs(slices: seq<seq<ClassNode>>, cs: seq<Class>, p: nat)
    requires p < |slices| && |cs| == |Flat(slices)|
    ensures Start(slices, p) <= Start(slices, p + 1) <= |cs|
    ensures Left(slices, cs, p) == Keep(cs, Flat(slices), Start(slices, p), Start(slices, p + 1))
  {
    StartStep(slices, p);
  }

  lemma NothingModified(flat: seq<ClassNode>, cs: seq<Class>)
    requires Agree(flat, cs)
    ensures Agree(flat, After(cs, 0)) && ModifiedIs({}, flat, cs, 0)
  {}

  /**
   The merge over the packages that are not excluded. Every class ends as Merged says, and every
   package's slice, still in its own array, is its classes less the absorbed ones, in their old order.
   */
  method MergePackages(
    packages: seq<Package>, ghost slices: seq<seq<ClassNode>>, ghost flat: seq<ClassNode>, ghost cs: seq<Class>)
    requires Holds(packages, slices) && flat == Flat(slices) && Distinct(flat) && Agree(flat, cs)
    modifies packages, set p <- packages :: p.backing, flat
    ensures Agree(flat, Merged(cs))
    ensures forall p | 0 <= p < |packages| :: packages[p].Has(Left(slices, cs, p))
  {
    hide After, IndexIs, ModifiedIs, Flat, Left, Merged, Distinct;
    var index := IndexMainClasses(packages, slices, cs);
    var modified := CompactPackages(packages, index, slices, cs);
    RecomputeRates(modified, flat, cs);
  }

  // ----- the whole document

  class Document {
    var packages: seq<Package>

    constructor (packages: seq<Package>)
      ensures this.packages == packages
    {
      this.packages := packages;
    }
  }

  function Remaining(packages: seq<Package>, excluded: string -> bool): (r: seq<Package>)
    ensures forall p <- r :: p in packages && !excluded(p.name)
  {
    if packages == [] then []
    else Remaining(packages[..|packages| - 1], excluded)
         + if excluded(packages[|packages| - 1].name) then [] else [packages[|packages| - 1]]
  }

  /** The packages at these places, in their order: exactly those among the first n that are not excluded. */
  ghost predicate Picks(all: seq<Package>, excluded: string -> bool, n: nat, r: seq<Package>, idx: seq<nat>)
    requires n <= |all|
  {
    && StrictlyAscending(idx) && (forall i: nat :: i in idx <==> i < n && !excluded(all[i].name))
    && |r| == |idx| && forall q | 0 <= q < |idx| :: idx[q] < |all| && r[q] == all[idx[q]]
  }

  lemma PickStep(all: seq<Package>, excluded: string -> bool, n: nat, r: seq<Package>, idx: seq<nat>)
    requires n < |all| && Picks(all, excluded, n, r, idx)
    ensures excluded(all[n].name) ==> Picks(all, excluded, n + 1, r, idx)
    ensures !excluded(all[n].name) ==> Picks(all, excluded, n + 1, r + [all[n]], idx + [n])
  {
    hide StrictlyAscending;
    AppendAscending(idx, n);
  }

  lemma RemainingStep(all: seq<Package>, excluded: string -> bool, n: nat)
    requires n < |all|
    ensures Remaining(all[..n + 1], excluded)
         == if excluded(all[n].name) then Remaining(all[..n], excluded) else Remaining(all[..n], excluded) + [all[n]]
  {
    assert all[..n + 1][..n] == all[..n];
  }

  /** Exactly the packages that are not excluded remain, in their order. */
  lemma {:induction false} RemainingExactly(all: seq<Package>, excluded: string -> bool, n: nat) returns (idx: seq<nat>)
    requires n <= |all|
    ensures Picks(all, excluded, n, Remaining(all[..n], excluded), idx)
  {
    hide Remaining, Picks;
    if n == 0 {
      idx := [];
      NothingPicked(all, excluded);
    } else {
      var before := RemainingExactly(all, excluded, n - 1);
      RemainingStep(all, excluded, n - 1);
      PickStep(all, excluded, n - 1, Remaining(all[..n - 1], excluded), before);
      if excluded(all[n - 1].name) {
        idx := before;
      } else {
        idx := before + [n - 1];
      }
    }
  }

  lemma NothingPicked(all: seq<Package>, excluded: string -> bool)
    ensures Picks(all, excluded, 0, Remaining(all[..0], excluded), [])
  {}

  /** A package keeps exactly those of its own classes that the report keeps, in their order. */
  lemma LeftExactly(slices: seq<seq<ClassNode>>, cs: seq<Class>, p: nat) returns (idx: seq<nat>)
    requires p < |slices| && |cs| == |Flat(slices)|
    ensures Start(slices, p) + |slices[p]| == Start(slices, p + 1) <= |cs|
    ensures StrictlyAscending(idx)
    ensures forall i: nat :: i in idx <==> Start(slices, p) <= i < Start(slices, p + 1) && !HasMain(cs, i)
    ensures |Left(slices, cs, p)| == |idx|
    ensures forall q | 0 <= q < |idx| ::
              Start(slices, p) <= idx[q] < Start(slices, p + 1)
              && Left(slices, cs, p)[q] == slices[p][idx[q] - Start(slices, p)]
  {
    hide HasMain, ParentOf;
    StartStep(slices, p);
    LeftIs(slices, cs, p);
    var flat := Flat(slices);
    idx := KeptBetween(cs, flat, Start(slices, p), Start(slices, p + 1));
    forall q | 0 <= q < |idx|
      ensures Start(slices, p) <= idx[q] < Start(slices, p + 1)
      ensures Left(slices, cs, p)[q] == slices[p][idx[q] - Start(slices, p)]
    {
      assert idx[q] in idx;
      assert flat[Start(slices, p)..Start(slices, p + 1)][idx[q] - Start(slices, p)] == flat[idx[q]];
    }
  }

  ghost function SlicesOf(packages: seq<Package>): (s: seq<seq<ClassNode>>)
    reads packages, set p <- packages :: p.backing
    ensures |s| == |packages|
    ensures forall p | 0 <= p < |packages| :: packages[p].length <= packages[p].backing.Length ==> packages[p].Has(s[p])
  {
    if packages == [] then []
    else
      var last := packages[|packages| - 1];
      SlicesOf(packages[..|packages| - 1]) +
      [if last.length <= last.backing.Length then last.backing[..last.length] else []]
  }

  ghost function ValuesOf(flat: seq<ClassNode>): (cs: seq<Class>)
    reads flat
    ensures Agree(flat, cs)
  {
    if flat == [] then [] else ValuesOf(flat[..|flat| - 1]) + [flat[|flat| - 1].Value()]
  }

  /** Package objects and arrays of their own, and no class listed twice: what unmarshalling gives. */
  ghost predicate WellFormed(packages: seq<Package>)
    reads packages, set p <- packages :: p.backing
  {
    && Distinct(packages)
    && (forall p, q | 0 <= p < q < |packages| :: packages[p].backing != packages[q].backing)
    && (forall p | 0 <= p < |packages| :: packages[p].length <= packages[p].backing.Length)
    && Distinct(Flat(SlicesOf(packages)))
  }

  /**
   Excluded packages are dropped; then the classes that the others list are, package by package and in
   order, the output of the merge on the values that their classes had.
   */
  method MergeCompilerGeneratedClassesIntoParents(
    doc: Document, excluded: string -> bool,
    ghost kept: seq<Package>, ghost slices: seq<seq<ClassNode>>, ghost flat: seq<ClassNode>)
    requires kept == Remaining(doc.packages, excluded) && WellFormed(kept)
    requires slices == SlicesOf(kept) && flat == Flat(slices)
    modifies doc, kept, set p <- kept :: p.backing, flat
    ensures doc.packages == kept
    ensures ValuesOf(Flat(SlicesOf(kept))) == Output(old(ValuesOf(flat)))
    ensures forall p | 0 <= p < |kept| :: kept[p].Has(Left(slices, old(ValuesOf(flat)), p))
  {
    hide Merged, Left, Flat, ValuesOf, Output, WellFormed, Distinct, SlicesOf, Remaining;
    ghost var cs := ValuesOf(flat);
    MayMerge(kept, flat);
    var remaining := RemainingPackages(doc.packages, excluded);
    doc.packages := remaining;
    assert Agree(flat, cs);
    MergePackages(remaining, slices, flat, cs);
    WhatIsLeft(remaining, slices, flat, cs);
  }

  method RemainingPackages(all: seq<Package>, excluded: string -> bool) returns (remaining: seq<Package>)
    ensures remaining == Remaining(all, excluded)
  {
    remaining := [];
    for i := 0 to |all|
      invariant remaining == Remaining(all[..i], excluded)
    {
      assert all[..i + 1][..i] == all[..i];
      if !excluded(all[i].name) {
        remaining := remaining + [all[i]];
      }
    }
    assert all[..|all|] == all;
  }

  lemma MayMerge(packages: seq<Package>, flat: seq<ClassNode>)
    requires WellFormed(packages) && flat == Flat(SlicesOf(packages))
    ensures Holds(packages, SlicesOf(packages)) && Distinct(flat) && Agree(flat, ValuesOf(flat))
    ensures |ValuesOf(flat)| == |flat|
  {
    hide Flat, ValuesOf, Distinct, SlicesOf;
  }

  /** The values that the packages list after the merge, one after another. */
  lemma WhatIsLeft(packages: seq<Package>, slices: seq<seq<ClassNode>>, flat: seq<ClassNode>, cs: seq<Class>)
    requires |packages| == |slices| && flat == Flat(slices) && |cs| == |flat| && Agree(flat, Merged(cs))
    requires forall p | 0 <= p < |packages| :: packages[p].Has(Left(slices, cs, p))
    ensures ValuesOf(Flat(SlicesOf(packages))) == Output(cs)
  {
    hide Merged, Left, Keep, ParentOf;
    StartEnds(slices);
    assert packages[..|packages|] == packages;
    LeftTogether(packages, slices, cs, |packages|);
    KeepValues(cs, flat, |cs|);
    AgreeUnique(Keep(cs, flat, 0, |cs|), Output(cs));
  }

  lemma {:induction false} LeftTogether(packages: seq<Package>, slices: seq<seq<ClassNode>>, cs: seq<Class>, n: nat)
    requires |packages| == |slices| && n <= |packages| && |cs| == |Flat(slices)|
    requires forall p | 0 <= p < |packages| :: packages[p].Has(Left(slices, cs, p))
    ensures Start(slices, n) <= |cs|
    ensures Flat(SlicesOf(packages[..n])) == Keep(cs, Flat(slices), 0, Start(slices, n))
  {
    hide ParentOf;
    if n > 0 {
      LeftTogether(packages, slices, cs, n - 1);
      StartStep(slices, n - 1);
      LeftIs(slices, cs, n - 1);
      KeepAppend(cs, Flat(slices), Start(slices, n - 1), Start(slices, n));
      assert packages[..n][..n - 1] == packages[..n - 1];
      assert packages[n - 1].Has(Left(slices, cs, n - 1));
      var s := SlicesOf(packages[..n]);
      assert s[..n - 1] == SlicesOf(packages[..n - 1]);
    } else {
      StartEnds(slices);
    }
  }

  lemma {:induction false} KeepAppend<T>(cs: seq<Class>, xs: seq<T>, a: nat, b: nat)
    requires a <= b <= |cs| == |xs|
    ensures Keep(cs, xs, 0, b) == Keep(cs, xs, 0, a) + Keep(cs, xs, a, b)
    decreases b
  {
    hide ParentOf;
    if a < b {
      KeepAppend(cs, xs, a, b - 1);
    } else {
      assert Keep(cs, xs, 0, a) + [] == Keep(cs, xs, 0, a);
    }
  }

  lemma {:induction false} KeepValues(cs: seq<Class>, flat: seq<ClassNode>, n: nat)
    requires n <= |cs| == |flat| && Agree(flat, Merged(cs))
    ensures Agree(Keep(cs, flat, 0, n), Keep(cs, Merged(cs), 0, n))
  {
    hide ParentOf, Merged;
    if n > 0 {
      KeepValues(cs, flat, n - 1);
    }
  }

  lemma AgreeUnique(flat: seq<ClassNode>, cs: seq<Class>)
    requires Agree(flat, cs)
    ensures ValuesOf(flat) == cs
  {}
}
