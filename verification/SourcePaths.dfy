/**
 internal/debugadmin/cobertura_merge.go, pickBestFilenameMatch and commonPathSuffixLen: choosing, among
 files of one name, the one whose path agrees longest from the right.
 */
module SourcePaths {
  import opened Text
  import opened Sets

  function ToSlashPath(p: string): string {
    ReplaceAll(p, '\\', '/')
  }

  function Segments(p: string): seq<string> {
    Split(ToSlashPath(p), '/')
  }

  /** The length of the longest common suffix. */
  function CommonSuffix(a: seq<string>, b: seq<string>): (n: nat)
    ensures n <= |a| && n <= |b|
  {
    if a == [] || b == [] || a[|a| - 1] != b[|b| - 1] then 0
    else 1 + CommonSuffix(a[..|a| - 1], b[..|b| - 1])
  }

  function PathMatch(a: string, b: string): nat {
    CommonSuffix(Segments(a), Segments(b))
  }

  method CommonPathSuffixLen(a: string, b: string) returns (n: nat)
    ensures n == PathMatch(a, b)
  {
    hide ToSlashPath, Split;
    var s := Segments(a);
    var t := Segments(b);
    n := 0;
    var i, j := |s| - 1, |t| - 1;
    assert s[..i + 1] == s && t[..j + 1] == t;
    while i >= 0 && j >= 0
      invariant -1 <= i < |s| && -1 <= j < |t|
      invariant n + CommonSuffix(s[..i + 1], t[..j + 1]) == PathMatch(a, b)
      decreases i
    {
      assert s[..i + 1][..i] == s[..i] && t[..j + 1][..j] == t[..j];
      if s[i] != t[j] {
        break;
      }
      n := n + 1;
      i, j := i - 1, j - 1;
    }
  }

  /** The last m segments are the same. */
  predicate Agree(a: seq<string>, b: seq<string>, m: nat) {
    m <= |a| && m <= |b| && a[|a| - m..] == b[|b| - m..]
  }

  lemma AgreeStep(a: seq<string>, b: seq<string>, m: nat)
    requires a != [] && b != [] && m > 0
    ensures Agree(a, b, m) <==> a[|a| - 1] == b[|b| - 1] && Agree(a[..|a| - 1], b[..|b| - 1], m - 1)
  {
    var a', b' := a[..|a| - 1], b[..|b| - 1];
    if m <= |a| && m <= |b| {
      assert a[|a| - m..] == a'[|a'| - (m - 1)..] + [a[|a| - 1]];
      assert b[|b| - m..] == b'[|b'| - (m - 1)..] + [b[|b| - 1]];
      assert a[|a| - m..][m - 1] == a[|a| - 1] && b[|b| - m..][m - 1] == b[|b| - 1];
      assert a[|a| - m..][..m - 1] == a'[|a'| - (m - 1)..] && b[|b| - m..][..m - 1] == b'[|b'| - (m - 1)..];
    }
  }

  /** That many last segments are the same, and no more are. */
  lemma {:induction false} LongestCommonSuffix(a: seq<string>, b: seq<string>, m: nat)
    ensures Agree(a, b, CommonSuffix(a, b))
    ensures Agree(a, b, m) ==> m <= CommonSuffix(a, b)
    decreases |a|
  {
    hide Agree;
    NothingAgrees(a, b);
    if a == [] || b == [] {
      AgreeBound(a, b, m);
    } else {
      var a', b' := a[..|a| - 1], b[..|b| - 1];
      if a[|a| - 1] == b[|b| - 1] {
        AgreeStep(a, b, CommonSuffix(a, b));
      }
      if m > 0 {
        AgreeStep(a, b, m);
        LongestCommonSuffix(a', b', m - 1);
      } else {
        LongestCommonSuffix(a', b', 0);
      }
    }
  }

  lemma NothingAgrees(a: seq<string>, b: seq<string>)
    ensures Agree(a, b, 0)
  {}

  lemma AgreeBound(a: seq<string>, b: seq<string>, m: nat)
    ensures Agree(a, b, m) ==> m <= |a| && m <= |b|
  {}

  lemma {:induction false} CommonSuffixSymmetric(a: seq<string>, b: seq<string>)
    ensures CommonSuffix(a, b) == CommonSuffix(b, a)
    decreases |a|
  {
    if a != [] && b != [] {
      CommonSuffixSymmetric(a[..|a| - 1], b[..|b| - 1]);
    }
  }

  lemma {:induction false} CommonSuffixThrough(a: seq<string>, b: seq<string>, c: seq<string>)
    ensures CommonSuffix(a, c) >= CommonSuffix(a, b) || CommonSuffix(a, c) >= CommonSuffix(b, c)
    decreases |a|
  {
    if a != [] && b != [] && c != [] {
      CommonSuffixThrough(a[..|a| - 1], b[..|b| - 1], c[..|c| - 1]);
    }
  }

  /** Matching is symmetric, and a path matches a third at least as far as the weaker of two links. */
  lemma PathMatchIsClose(a: string, b: string, c: string)
    ensures PathMatch(a, b) == PathMatch(b, a)
    ensures PathMatch(a, c) >= PathMatch(a, b) || PathMatch(a, c) >= PathMatch(b, c)
  {
    hide CommonSuffix, Segments;
    CommonSuffixSymmetric(Segments(a), Segments(b));
    CommonSuffixThrough(Segments(a), Segments(b), Segments(c));
  }

  /** The two separators are not told apart. */
  lemma SeparatorsAreAlike(a: string, b: string)
    ensures PathMatch(ToSlashPath(a), b) == PathMatch(a, b)
  {
    hide CommonSuffix, Split, ReplaceAll;
    assert ToSlashPath(ToSlashPath(a)) == ToSlashPath(a);
  }

  /** The segments are what lies between separators of either kind. */
  lemma SegmentsAre(path: string, segments: seq<string>)
    requires Spells(path, segments, '/', '\\')
    ensures Segments(path) == segments
  {
    SpelledIsSplit(path, segments, '/', '\\');
  }

  lemma AgreeIs(a: seq<string>, b: seq<string>, m: nat)
    ensures Agree(a, b, m) <==> m <= |a| && m <= |b| && a[|a| - m..] == b[|b| - m..]
  {}

  /** The match is the greatest number of last segments that are the same, however they are separated. */
  lemma MatchIsGreatest(a: string, b: string, s: seq<string>, t: seq<string>, m: nat)
    requires Spells(a, s, '/', '\\') && Spells(b, t, '/', '\\')
    ensures PathMatch(a, b) <= |s| && PathMatch(a, b) <= |t|
    ensures s[|s| - PathMatch(a, b)..] == t[|t| - PathMatch(a, b)..]
    ensures m <= |s| && m <= |t| && s[|s| - m..] == t[|t| - m..] ==> m <= PathMatch(a, b)
  {
    hide Segments, CommonSuffix, Spells, Agree;
    SegmentsAre(a, s);
    SegmentsAre(b, t);
    assert PathMatch(a, b) == CommonSuffix(s, t);
    hide PathMatch;
    LongestCommonSuffix(s, t, m);
    AgreeIs(s, t, CommonSuffix(s, t));
    AgreeIs(s, t, m);
  }

  // ----- the order of strings, byte by byte

  predicate AtMost(a: string, b: string) {
    a == "" || (b != "" && (a[0] < b[0] || (a[0] == b[0] && AtMost(a[1..], b[1..]))))
  }

  lemma {:induction false} AtMostTotal(a: string, b: string)
    ensures AtMost(a, b) || AtMost(b, a)
    ensures AtMost(a, b) && AtMost(b, a) ==> a == b
  {
    if a != "" && b != "" && a[0] == b[0] {
      AtMostTotal(a[1..], b[1..]);
      assert a == [a[0]] + a[1..] && b == [b[0]] + b[1..];
    }
  }

  /** A path is at most another if it is a prefix of it, or smaller at the first place where they differ. */
  lemma {:induction false} AtMostExactly(a: string, b: string)
    ensures AtMost(a, b) <==> a <= b || exists k | 0 <= k < |a| && k < |b| :: a[..k] == b[..k] && a[k] < b[k]
  {
    if a != "" && b != "" {
      AtMostExactly(a[1..], b[1..]);
      assert a == [a[0]] + a[1..] && b == [b[0]] + b[1..];
      if k :| 0 <= k < |a[1..]| && k < |b[1..]| && a[1..][..k] == b[1..][..k] && a[1..][k] < b[1..][k] {
        if a[0] == b[0] {
          assert a[..k + 1] == [a[0]] + a[1..][..k] && b[..k + 1] == [b[0]] + b[1..][..k];
          assert a[k + 1] < b[k + 1];
        }
      }
      if k :| 0 <= k < |a| && k < |b| && a[..k] == b[..k] && a[k] < b[k] {
        if k > 0 {
          assert a[0] == a[..k][0] == b[..k][0] == b[0];
          assert a[1..][..k - 1] == a[..k][1..] && b[1..][..k - 1] == b[..k][1..];
          assert a[1..][k - 1] < b[1..][k - 1];
        }
      }
      if a[0] < b[0] {
        assert a[..0] == b[..0];
      }
    }
  }

  lemma {:induction false} AtMostTransitive(a: string, b: string, c: string)
    requires AtMost(a, b) && AtMost(b, c)
    ensures AtMost(a, c)
  {
    if a != "" && a[0] == b[0] == c[0] {
      AtMostTransitive(a[1..], b[1..], c[1..]);
    }
  }

  ghost predicate Sorted(r: seq<string>) {
    forall i, j | 0 <= i < j < |r| :: AtMost(r[i], r[j])
  }

  lemma InsertSorted(r: seq<string>, k: nat, x: string)
    requires Sorted(r) && k <= |r|
    requires k > 0 ==> AtMost(r[k - 1], x)
    requires k < |r| ==> AtMost(x, r[k])
    ensures Sorted(r[..k] + [x] + r[k..])
    ensures forall y :: y in r[..k] + [x] + r[k..] <==> y in r || y == x
  {
    hide AtMost;
    forall i | 0 <= i < k ensures AtMost(r[i], x) {
      if i < k - 1 {
        AtMostTransitive(r[i], r[k - 1], x);
      }
    }
    forall i | k <= i < |r| ensures AtMost(x, r[i]) {
      if i > k {
        AtMostTransitive(x, r[k], r[i]);
      }
    }
    assert r == r[..k] + r[k..];
  }

  /** sort.Strings. */
  method SortStrings(paths: seq<string>) returns (r: seq<string>)
    ensures Sorted(r) && forall x :: x in r <==> x in paths
  {
    hide AtMost;
    r := [];
    for i := 0 to |paths|
      invariant Sorted(r) && forall x :: x in r <==> x in paths[..i]
    {
      var k := 0;
      while k < |r| && AtMost(r[k], paths[i])
        invariant 0 <= k <= |r|
        invariant k > 0 ==> AtMost(r[k - 1], paths[i])
      {
        k := k + 1;
      }
      if k < |r| {
        AtMostTotal(r[k], paths[i]);
      }
      InsertSorted(r, k, paths[i]);
      assert paths[..i + 1] == paths[..i] + [paths[i]];
      r := r[..k] + [paths[i]] + r[k..];
    }
    assert paths[..|paths|] == paths;
  }

  // ----- the choice

  /** Better matches come first, and among equal ones the lexicographically smaller path. */
  ghost predicate IsBest(original: string, candidates: set<string>, best: string) {
    && best in candidates
    && forall p <- candidates ::
         PathMatch(original, p) < PathMatch(original, best)
         || (PathMatch(original, p) == PathMatch(original, best) && AtMost(best, p))
  }

  lemma BestIsUnique(original: string, candidates: set<string>, p: string, q: string)
    requires IsBest(original, candidates, p) && IsBest(original, candidates, q)
    ensures p == q
  {
    hide PathMatch, AtMost;
    AtMostTotal(p, q);
  }

  /** The caller passes at least one candidate; they are met in any order. */
  method PickBestFilenameMatch(original: string, candidates: set<string>) returns (best: string)
    requires candidates != {}
    ensures IsBest(original, candidates, best)
  {
    hide PathMatch, AtMost;
    var paths: seq<string> := [];
    var todo := candidates;
    while todo != {}
      invariant todo <= candidates
      invariant forall p :: p in paths <==> p in candidates - todo
      decreases todo
    {
      ghost var _ := Element(todo);
      var p :| p in todo;
      paths := paths + [p];
      todo := todo - {p};
    }
    paths := SortStrings(paths);
    ghost var e := Element(candidates);
    assert e in paths;
    best := paths[0];
    var bestLen := CommonPathSuffixLen(original, best);
    ghost var at := 0;
    for i := 1 to |paths|
      invariant 0 <= at < i && best == paths[at] && bestLen == PathMatch(original, best)
      invariant forall k | 0 <= k < i :: PathMatch(original, paths[k]) <= bestLen
      invariant forall k | 0 <= k < at :: PathMatch(original, paths[k]) < bestLen
    {
      var l := CommonPathSuffixLen(original, paths[i]);
      if l > bestLen {
        bestLen := l;
        best := paths[i];
        at := i;
      }
    }
    assert best in paths;
    forall p <- candidates
      ensures PathMatch(original, p) < bestLen || (PathMatch(original, p) == bestLen && AtMost(best, p))
    {
      assert p in paths;
      var k :| 0 <= k < |paths| && paths[k] == p;
      if k == at {
        AtMostTotal(p, p);
      }
    }
  }
}
