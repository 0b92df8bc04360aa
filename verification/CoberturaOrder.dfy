/**
 The order of the classes does not matter to the lines and rates that they end with, as long as main
 classes of one file and name, of which the merge takes the last, keep theirs.
 */
module CoberturaOrder {
  import opened Options
  import opened LineMaps
  import opened GeneratedNames
  import opened CoberturaMerge

  /** Where each class goes, and where each comes from. */
  datatype Reordering = Reordering(to: seq<nat>, from: seq<nat>)

  predicate SameKey(c: Class, d: Class) {
    c.filename == d.filename && c.name == d.name
  }

  predicate Places(p: Reordering, n: nat) {
    && |p.to| == n && |p.from| == n
    && (forall i | 0 <= i < n :: p.to[i] < n && p.from[p.to[i]] == i)
    && (forall k | 0 <= k < n :: p.from[k] < n && p.to[p.from[k]] == k)
  }

  /** The second sequence has the classes of the first in another order, generated ones anywhere. */
  predicate Reorders(p: Reordering, cs: seq<Class>, ds: seq<Class>) {
    && |ds| == |cs| && Places(p, |cs|)
    && (forall i | 0 <= i < |cs| :: ds[p.to[i]] == cs[i])
    && forall i, j | 0 <= i < j < |cs| && IsMain(cs[i]) && IsMain(cs[j]) && SameKey(cs[i], cs[j]) ::
         p.to[i] < p.to[j]
  }

  function Moved(p: Reordering, place: Option<nat>): Option<nat>
    requires place.Some? ==> place.value < |p.to|
  {
    match place
    case None => None
    case Some(j) => Some(p.to[j])
  }

  lemma Goes(p: Reordering, cs: seq<Class>, ds: seq<Class>, i: nat)
    requires Reorders(p, cs, ds) && i < |cs|
    ensures |p.to| == |p.from| == |ds| == |cs|
    ensures p.to[i] < |cs| && p.from[p.to[i]] == i && ds[p.to[i]] == cs[i]
  {}

  lemma Comes(p: Reordering, cs: seq<Class>, ds: seq<Class>, k: nat)
    requires Reorders(p, cs, ds) && k < |cs|
    ensures |p.to| == |p.from| == |ds| == |cs|
    ensures p.from[k] < |cs| && p.to[p.from[k]] == k && ds[k] == cs[p.from[k]]
  {
    hide IsMain, SameKey;
    Goes(p, cs, ds, p.from[k]);
  }

  lemma InOrder(p: Reordering, cs: seq<Class>, ds: seq<Class>, i: nat, j: nat)
    requires Reorders(p, cs, ds) && i < |cs| && j < |cs|
    requires IsMain(cs[i]) && IsMain(cs[j]) && SameKey(cs[i], cs[j])
    ensures |p.to| == |cs| && (i < j ==> p.to[i] < p.to[j])
  {}

  lemma SameLength(p: Reordering, cs: seq<Class>, ds: seq<Class>)
    requires Reorders(p, cs, ds)
    ensures |p.to| == |ds| == |cs|
  {}

  lemma LastMainMoves(p: Reordering, cs: seq<Class>, ds: seq<Class>, filename: string, name: string)
    requires Reorders(p, cs, ds)
    ensures |p.to| == |cs|
    ensures var j := LastMain(cs, |cs|, filename, name);
            (j.Some? ==> j.value < |cs|) && LastMain(ds, |ds|, filename, name) == Moved(p, j)
  {
    hide LastMain, Reorders;
    SameLength(p, cs, ds);
    LastMainStays(p, cs, ds, filename, name);
    LastMainCame(p, cs, ds, filename, name);
  }

  predicate IsMainOf(c: Class, filename: string, name: string) {
    IsMain(c) && c.filename == filename && c.name == name
  }

  lemma LastMainBehind(cs: seq<Class>, i: nat, filename: string, name: string)
    requires i < |cs| && IsMainOf(cs[i], filename, name)
    ensures var last := LastMain(cs, |cs|, filename, name);
            last.Some? && i <= last.value < |cs| && IsMainOf(cs[last.value], filename, name)
  {
    hide LastMain, IsMain;
    LastMainIs(cs, |cs|, filename, name);
  }

  lemma LastMainIsMain(cs: seq<Class>, filename: string, name: string)
    ensures var last := LastMain(cs, |cs|, filename, name);
            last.Some? ==> last.value < |cs| && IsMainOf(cs[last.value], filename, name)
  {
    hide LastMain, IsMain;
    LastMainIs(cs, |cs|, filename, name);
  }

  /** Where the last main class went there is one; the last may come after it. */
  lemma LastMainStays(p: Reordering, cs: seq<Class>, ds: seq<Class>, filename: string, name: string)
    requires Reorders(p, cs, ds)
    ensures var was, now := LastMain(cs, |cs|, filename, name), LastMain(ds, |ds|, filename, name);
            was.Some? ==> was.value < |cs| == |p.to| && now.Some? && p.to[was.value] <= now.value
  {
    hide LastMain, IsMainOf, Reorders;
    LastMainIsMain(cs, filename, name);
    var was := LastMain(cs, |cs|, filename, name);
    if was.Some? {
      Goes(p, cs, ds, was.value);
      LastMainBehind(ds, p.to[was.value], filename, name);
    }
  }

  /** It does not: the last one there came from the last one here, or from before it. */
  lemma LastMainCame(p: Reordering, cs: seq<Class>, ds: seq<Class>, filename: string, name: string)
    requires Reorders(p, cs, ds)
    ensures var was, now := LastMain(cs, |cs|, filename, name), LastMain(ds, |ds|, filename, name);
            now.Some? ==> was.Some? && was.value < |cs| == |p.to| && now.value <= p.to[was.value]
  {
    hide LastMain, IsMain, Reorders;
    SameLength(p, cs, ds);
    LastMainIsMain(ds, filename, name);
    var was, now := LastMain(cs, |cs|, filename, name), LastMain(ds, |ds|, filename, name);
    if now.Some? {
      Comes(p, cs, ds, now.value);
      LastMainBehind(cs, p.from[now.value], filename, name);
      InOrder(p, cs, ds, p.from[now.value], was.value);
    }
  }

  lemma ParentMoves(p: Reordering, cs: seq<Class>, ds: seq<Class>, i: nat)
    requires Reorders(p, cs, ds) && i < |cs|
    ensures ParentOf(cs, i).Some? ==> ParentOf(cs, i).value < |cs|
    ensures ParentOf(ds, p.to[i]) == Moved(p, ParentOf(cs, i))
  {
    hide LastMain, ParseGeneratedClassName, IsMain;
    var g := NameOf(cs[i]);
    if g.Generated? {
      LastMainMoves(p, cs, ds, cs[i].filename, g.parent);
    }
  }

  lemma SendsMoves(p: Reordering, cs: seq<Class>, ds: seq<Class>, j: nat, i: nat, x: int)
    requires Reorders(p, cs, ds) && j < |cs| && i < |cs|
    ensures Sends(cs, |cs|, j, i, x) <==> Sends(ds, |ds|, p.to[j], p.to[i], x)
    ensures Sends(cs, |cs|, j, i, x) ==> HitsOf(ds[p.to[i]], x) == HitsOf(cs[i], x)
  {
    hide ParentOf, MapOf, IsMain;
    ParentMoves(p, cs, ds, i);
  }

  ghost predicate SentBy(cs: seq<Class>, j: nat, x: int, h: int, i: nat)
    requires j < |cs|
  {
    Sends(cs, |cs|, j, i, x) && HitsOf(cs[i], x) == h
  }

  ghost predicate Sent(cs: seq<Class>, j: nat, x: int, h: int)
    requires j < |cs|
  {
    exists i: nat :: SentBy(cs, j, x, h, i)
  }

  lemma SentMoves(p: Reordering, cs: seq<Class>, ds: seq<Class>, j: nat, x: int, h: int)
    requires Reorders(p, cs, ds) && j < |cs|
    ensures |p.to| == |ds| == |cs| && p.to[j] < |ds|
    ensures Sent(cs, j, x, h) <==> Sent(ds, p.to[j], x, h)
  {
    hide Reorders, Sends, MapOf;
    Goes(p, cs, ds, j);
    var k := p.to[j];
    if Sent(cs, j, x, h) {
      var i: nat :| SentBy(cs, j, x, h, i);
      InRangeOnly(cs, j, i, x);
      Goes(p, cs, ds, i);
      SendsMoves(p, cs, ds, j, i, x);
      assert SentBy(ds, k, x, h, p.to[i]);
    }
    if Sent(ds, k, x, h) {
      var i: nat :| SentBy(ds, k, x, h, i);
      InRangeOnly(ds, k, i, x);
      Comes(p, cs, ds, i);
      SendsMoves(p, cs, ds, j, p.from[i], x);
      assert SentBy(cs, j, x, h, p.from[i]);
    }
  }

  lemma InRangeOnly(cs: seq<Class>, j: nat, i: nat, x: int)
    requires j < |cs| && Sends(cs, |cs|, j, i, x)
    ensures i < |cs| && x in MapOf(cs[i].lines)
  {
    hide ParentOf, MapOf;
  }

  /** What IsFinalAt says, by the hits that were sent alone. */
  ghost predicate IsFinalBySent(cs: seq<Class>, j: nat, m: LineMap, x: int)
    requires j < |cs|
  {
    var own := MapOf(cs[j].lines);
    && (x in m <==> x in own || exists h :: h > 0 && Sent(cs, j, x, h))
    && (x in m && x in own ==> own[x] <= m[x])
    && (x in m ==> forall h :: Sent(cs, j, x, h) ==> h <= m[x])
    && (x in m ==> (x in own && m[x] == own[x]) || Sent(cs, j, x, m[x]))
  }

  lemma FinalBySent(cs: seq<Class>, j: nat, m: LineMap, x: int)
    requires j < |cs|
    ensures IsFinalAt(cs, |cs|, j, m, x) <==> IsFinalBySent(cs, j, m, x)
  {
    hide Sends, MapOf;
    forall i: nat | Sends(cs, |cs|, j, i, x)
      ensures i < |cs| && x in MapOf(cs[i].lines) && Sent(cs, j, x, HitsOf(cs[i], x)) {
      InRangeOnly(cs, j, i, x);
      assert SentBy(cs, j, x, HitsOf(cs[i], x), i);
    }
  }

  /** The final lines of a class, as a description, do not depend on the order. */
  lemma FinalMoves(p: Reordering, cs: seq<Class>, ds: seq<Class>, j: nat, m: LineMap, x: int)
    requires Reorders(p, cs, ds) && j < |cs|
    requires IsFinalAt(cs, |cs|, j, m, x)
    ensures |p.to| == |ds| == |cs| && p.to[j] < |ds|
    ensures IsFinalAt(ds, |ds|, p.to[j], m, x)
  {
    hide MapOf, Sends, Sent, IsFinalAt, Reorders;
    Goes(p, cs, ds, j);
    FinalBySent(cs, j, m, x);
    FinalBySent(ds, p.to[j], m, x);
    forall h ensures Sent(cs, j, x, h) <==> Sent(ds, p.to[j], x, h) {
      SentMoves(p, cs, ds, j, x, h);
    }
  }

  /** The description determines the line. */
  lemma FinalUnique(cs: seq<Class>, n: nat, j: nat, m: LineMap, m': LineMap, x: int)
    requires n <= |cs| && j < |cs| && IsFinalAt(cs, n, j, m, x) && IsFinalAt(cs, n, j, m', x)
    ensures (x in m <==> x in m') && (x in m ==> m[x] == m'[x])
  {
    hide ParentOf, MapOf, Sends;
  }

  lemma ReceivesMoves(p: Reordering, cs: seq<Class>, ds: seq<Class>, j: nat)
    requires Reorders(p, cs, ds) && j < |cs|
    ensures Receives(cs, |cs|, j) <==> Receives(ds, |ds|, p.to[j])
  {
    hide ParentOf, IsMain;
    if Receives(cs, |cs|, j) {
      var i :| 0 <= i < |cs| && ParentOf(cs, i) == Some(j);
      ParentMoves(p, cs, ds, i);
      assert ParentOf(ds, p.to[i]) == Some(p.to[j]);
    }
    if Receives(ds, |ds|, p.to[j]) {
      var k :| 0 <= k < |ds| && ParentOf(ds, k) == Some(p.to[j]);
      ParentMoves(p, cs, ds, p.from[k]);
      assert ParentOf(cs, p.from[k]) == Some(j);
    }
  }

  /** Every class ends with the same lines and the same rate, wherever the reordering has put it. */
  lemma OrderIndependent(p: Reordering, cs: seq<Class>, ds: seq<Class>, j: nat)
    requires Reorders(p, cs, ds) && j < |cs|
    ensures var c, d := Merged(cs)[j], Merged(ds)[p.to[j]];
            c.name == d.name && MapOf(c.lines) == MapOf(d.lines) && c.lineRate == d.lineRate
  {
    hide ParentOf, MapOf, IsMain, Merged, IsFinalAt, RateOf, Receives;
    var k := p.to[j];
    var m, m' := MapOf(Merged(cs)[j].lines), MapOf(Merged(ds)[k].lines);
    forall x: int ensures (x in m <==> x in m') && (x in m ==> m[x] == m'[x]) {
      MergedLines(cs, j, x);
      MergedLines(ds, k, x);
      FinalMoves(p, cs, ds, j, m, x);
      FinalUnique(ds, |ds|, k, m, m', x);
    }
    assert m == m';
    ReceivesMoves(p, cs, ds, j);
    RateOrKept(cs, j);
    RateOrKept(ds, k);
  }

  lemma RateOrKept(cs: seq<Class>, j: nat)
    requires j < |cs|
    ensures var c := Merged(cs)[j];
            var m := MapOf(c.lines);
            && c.lineRate == (if Receives(cs, |cs|, j) && |m| != 0 then RateOf(m) else cs[j].lineRate)
            && c.name == cs[j].name
  {
    hide ParentOf, MapOf, RateOf, After, Receives;
    AfterKeeps(cs, |cs|, j);
    if Receives(cs, |cs|, j) {
      FinalRate(cs, j);
    }
  }
}
