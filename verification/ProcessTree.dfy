/**
 internal/debugadmin/proc_list.go, isTargetProcess and findTargetDescendantPID: the search for the real
 target under a wrapper process. /proc is a snapshot: the readable (pid, ppid) pairs in listing order
 and a command line for every pid.
 */
module ProcessTree {
  import opened Text

  // ----- recognising the target

  function Lower(c: char): char {
    if 'A' <= c <= 'Z' then (c as int + 32) as char else c
  }

  predicate HasDllSuffix(s: string) {
    |s| >= 4 && s[|s| - 4] == '.' && Lower(s[|s| - 3]) == 'd' && Lower(s[|s| - 2]) == 'l' && Lower(s[|s| - 1]) == 'l'
  }

  predicate IsTargetProcess(cmdline: seq<string>, startup: seq<string>) {
    && startup != [] && cmdline != []
    && if HasDllSuffix(startup[0]) then
         Contains(cmdline[0], "dotnet") && |cmdline| > 1 && Contains(cmdline[1], startup[0])
       else Contains(cmdline[0], startup[0])
  }

  /** The eight ways to write ".dll". */
  predicate IsDll(ext: string) {
    ext in {".dll", ".dlL", ".dLl", ".dLL", ".Dll", ".DlL", ".DLl", ".DLL"}
  }

  lemma DllExactly(s: string)
    ensures HasDllSuffix(s) <==> exists stem: string, ext: string :: IsDll(ext) && s == stem + ext
  {
    if HasDllSuffix(s) {
      var stem, ext := s[..|s| - 4], s[|s| - 4..];
      assert ext == [ext[0], ext[1], ext[2], ext[3]];
      assert IsDll(ext) && s == stem + ext;
    }
  }

  /** The argument has the text somewhere in it. */
  ghost predicate Mentions(argument: string, text: string) {
    exists a: string, b: string :: argument == a + text + b
  }

  /** A process is the target if its program is the first start-up parameter, or, for a ".dll", if it is some
      dotnet with that as its first argument. */
  lemma TargetExactly(cmdline: seq<string>, startup: seq<string>)
    ensures IsTargetProcess(cmdline, startup) <==>
              && startup != [] && cmdline != []
              && if exists stem: string, ext: string :: IsDll(ext) && startup[0] == stem + ext then
                   Mentions(cmdline[0], "dotnet") && |cmdline| > 1 && Mentions(cmdline[1], startup[0])
                 else Mentions(cmdline[0], startup[0])
  {
    hide HasDllSuffix, Contains;
    if startup != [] && cmdline != [] {
      DllExactly(startup[0]);
      ContainsExactly(cmdline[0], "dotnet");
      ContainsExactly(cmdline[0], startup[0]);
      if |cmdline| > 1 {
        ContainsExactly(cmdline[1], startup[0]);
      }
    }
  }

  // ----- the tree

  datatype Process = Process(pid: int, ppid: int)

  /** What the search reads: no pid is listed twice. */
  datatype Snapshot = Snapshot(processes: seq<Process>, cmdline: int -> seq<string>) {
    ghost predicate Valid() {
      forall i, j | 0 <= i < j < |processes| :: processes[i].pid != processes[j].pid
    }

    ghost predicate IsChild(child: int, parent: int) {
      Process(child, parent) in processes
    }
  }

  /** The children of a pid in listing order. */
  function Children(ps: seq<Process>, pid: int): (cs: seq<int>)
    ensures forall c :: c in cs <==> Process(c, pid) in ps
  {
    if ps == [] then []
    else
      var last := ps[|ps| - 1];
      assert ps == ps[..|ps| - 1] + [last];
      Children(ps[..|ps| - 1], pid) + if last.ppid == pid then [last.pid] else []
  }

  lemma ChildrenStep(ps: seq<Process>, p: Process, pid: int)
    ensures Children(ps + [p], pid) == Children(ps, pid) + if p.ppid == pid then [p.pid] else []
  {
    assert (ps + [p])[..|ps|] == ps;
  }

  lemma NoChildren()
    ensures forall p: int :: Children([], p) == []
  {}

  /** The children among more processes come after those among the first. */
  lemma {:induction false} ChildrenInOrder(ps: seq<Process>, qs: seq<Process>, pid: int)
    ensures Children(ps + qs, pid) == Children(ps, pid) + Children(qs, pid)
    decreases |qs|
  {
    if qs == [] {
      assert ps + qs == ps;
    } else {
      hide Children;
      var init, last := qs[..|qs| - 1], qs[|qs| - 1];
      ChildrenInOrder(ps, init, pid);
      ChildrenStep(ps + init, last, pid);
      ChildrenStep(init, last, pid);
      assert qs == init + [last] && ps + qs == ps + init + [last];
    }
  }

  /** pid is `depth` generations below root. */
  ghost predicate Below(s: Snapshot, root: int, pid: int, depth: nat)
    decreases depth
  {
    if depth == 0 then pid == root
    else exists parent :: s.IsChild(pid, parent) && Below(s, root, parent, depth - 1)
  }

  ghost predicate Matches(s: Snapshot, startup: seq<string>, pid: int) {
    IsTargetProcess(s.cmdline(pid), startup)
  }

  /** A proper descendant that is the target. */
  ghost predicate IsTarget(s: Snapshot, startup: seq<string>, root: int, pid: int, depth: nat) {
    pid != root && depth > 0 && Below(s, root, pid, depth) && Matches(s, startup, pid)
  }

  /** Root is not below itself. */
  ghost predicate Acyclic(s: Snapshot, root: int) {
    forall depth: nat :: depth > 0 ==> !Below(s, root, root, depth)
  }

  method ChildrenByParent(s: Snapshot) returns (childrenOf: map<int, seq<int>>)
    ensures forall p: int :: (if p in childrenOf then childrenOf[p] else []) == Children(s.processes, p)
  {
    hide Children;
    childrenOf := map[];
    NoChildren();
    for i := 0 to |s.processes|
      invariant forall p: int :: (if p in childrenOf then childrenOf[p] else []) == Children(s.processes[..i], p)
    {
      var e := s.processes[i];
      assert s.processes[..i + 1] == s.processes[..i] + [e];
      forall p: int
        ensures Children(s.processes[..i + 1], p)
             == Children(s.processes[..i], p) + if e.ppid == p then [e.pid] else []
      {
        ChildrenStep(s.processes[..i], e, p);
      }
      var siblings := if e.ppid in childrenOf then childrenOf[e.ppid] else [];
      childrenOf := childrenOf[e.ppid := siblings + [e.pid]];
    }
    assert s.processes[..|s.processes|] == s.processes;
  }

  // ----- depths

  /** A process has one parent. */
  lemma OneParent(s: Snapshot, pid: int, p: int, q: int)
    requires s.Valid() && s.IsChild(pid, p) && s.IsChild(pid, q)
    ensures p == q
  {
    var i :| 0 <= i < |s.processes| && s.processes[i] == Process(pid, p);
    var j :| 0 <= j < |s.processes| && s.processes[j] == Process(pid, q);
  }

  lemma {:induction false} OneDepth(s: Snapshot, root: int, pid: int, d: nat, e: nat)
    requires s.Valid() && Acyclic(s, root) && Below(s, root, pid, d) && Below(s, root, pid, e)
    ensures d == e
    decreases d
  {
    hide Snapshot.Valid, Snapshot.IsChild;
    if d > 0 && e > 0 {
      var p :| s.IsChild(pid, p) && Below(s, root, p, d - 1);
      var q :| s.IsChild(pid, q) && Below(s, root, q, e - 1);
      OneParent(s, pid, p, q);
      OneDepth(s, root, p, d - 1, e - 1);
    }
  }

  lemma ChildBelow(s: Snapshot, root: int, pid: int, depth: nat, c: int)
    requires Below(s, root, pid, depth) && s.IsChild(c, pid)
    ensures Below(s, root, c, depth + 1)
  {}

  lemma {:induction false} ChildrenDistinct(ps: seq<Process>, pid: int)
    requires forall i, j | 0 <= i < j < |ps| :: ps[i].pid != ps[j].pid
    ensures Distinct(Children(ps, pid))
  {
    if ps != [] {
      var init, last := ps[..|ps| - 1], ps[|ps| - 1];
      ChildrenDistinct(init, pid);
      assert forall i | 0 <= i < |init| :: init[i] == ps[i] && ps[i].pid != last.pid;
      assert Process(last.pid, pid) !in init;
    }
  }

  // ----- the search

  /** A pid in the queue, and how deep it lies. */
  datatype Visit = Visit(pid: int, depth: nat)

  function PidsOf(visits: seq<Visit>): (pids: seq<int>)
    ensures |pids| == |visits| && forall i | 0 <= i < |visits| :: pids[i] == visits[i].pid
  {
    seq(|visits|, i requires 0 <= i < |visits| => visits[i].pid)
  }

  function VisitsAt(pids: seq<int>, depth: nat): (visits: seq<Visit>)
    ensures |visits| == |pids| && forall i | 0 <= i < |pids| :: visits[i] == Visit(pids[i], depth)
  {
    seq(|pids|, i requires 0 <= i < |pids| => Visit(pids[i], depth))
  }

  ghost predicate Distinct<T>(xs: seq<T>) {
    forall i, j | 0 <= i < j < |xs| :: xs[i] != xs[j]
  }

  /** Every pid seen lies at its depth, depths never fall along the queue, and it spans two levels at most. */
  ghost predicate Levels(s: Snapshot, root: int, seen: seq<Visit>, done: nat) {
    && seen != [] && seen[0] == Visit(root, 0)
    && (forall v <- seen :: Below(s, root, v.pid, v.depth))
    && (forall i, j | 0 <= i < j < |seen| :: seen[i].depth <= seen[j].depth)
    && forall j | done <= j < |seen| :: seen[j].depth <= seen[done].depth + 1
  }

  ghost predicate HasParentIn(s: Snapshot, visits: seq<Visit>, v: Visit) {
    exists p :: p in visits && s.IsChild(v.pid, p.pid) && v.depth == p.depth + 1
  }

  /** Everything seen but root is a child of something done, and every child of that has been seen. */
  ghost predicate Closed(s: Snapshot, root: int, seen: seq<Visit>, done: nat)
    requires done <= |seen|
  {
    && (forall v <- seen :: v == Visit(root, 0) || HasParentIn(s, seen[..done], v))
    && (forall v :: HasParentIn(s, seen[..done], v) ==> v in seen)
  }

  /** `seen` is all that was ever queued, the first `done` of it taken out again. On a cycle a pid is
      seen again and again, but never twice at one depth. */
  ghost predicate Searching(s: Snapshot, root: int, seen: seq<Visit>, done: nat) {
    done <= |seen| && Levels(s, root, seen, done) && Distinct(seen) && Closed(s, root, seen, done)
  }

  /** The loop returns at this pid. */
  ghost predicate Returns(s: Snapshot, startup: seq<string>, root: int, pid: int) {
    pid != root && Matches(s, startup, pid)
  }

  ghost predicate NoneMatched(s: Snapshot, startup: seq<string>, root: int, visits: seq<Visit>) {
    forall v <- visits :: !Returns(s, startup, root, v.pid)
  }

  /** Whatever is below root is done or no less deep than the head of the queue. */
  lemma {:induction false} DoneOrDeeper(
    s: Snapshot, root: int, seen: seq<Visit>, done: nat, pid: int, depth: nat)
    requires Searching(s, root, seen, done) && Below(s, root, pid, depth)
    ensures Visit(pid, depth) in seen[..done] || (done < |seen| && seen[done].depth <= depth)
    decreases depth
  {
    hide Snapshot.IsChild, Distinct, Closed, HasParentIn;
    if depth == 0 {
      assert done > 0 ==> seen[..done][0] == Visit(root, 0);
    } else {
      var parent :| s.IsChild(pid, parent) && Below(s, root, parent, depth - 1);
      DoneOrDeeper(s, root, seen, done, parent, depth - 1);
      if Visit(parent, depth - 1) in seen[..done] {
        ChildSeen(s, root, seen, done, parent, pid, depth);
      }
    }
  }

  lemma ChildSeen(s: Snapshot, root: int, seen: seq<Visit>, done: nat, parent: int, pid: int, depth: nat)
    requires Searching(s, root, seen, done) && s.IsChild(pid, parent)
    requires depth > 0 && Visit(parent, depth - 1) in seen[..done]
    ensures Visit(pid, depth) in seen[..done] || (done < |seen| && seen[done].depth <= depth)
  {
    hide Snapshot.IsChild, Distinct, Below;
    var v, p := Visit(pid, depth), Visit(parent, depth - 1);
    assert p in seen[..done] && s.IsChild(v.pid, p.pid) && v.depth == p.depth + 1;
    assert HasParentIn(s, seen[..done], v);
    hide HasParentIn;
    var i :| 0 <= i < |seen| && seen[i] == v;
    assert i < done ==> seen[..done][i] == Visit(pid, depth);
  }

  /** No child of the head has been seen at its depth: its only parent would be done. */
  lemma ChildrenAreNew(s: Snapshot, root: int, seen: seq<Visit>, done: nat, c: int)
    requires s.Valid() && Searching(s, root, seen, done)
    requires done < |seen| && s.IsChild(c, seen[done].pid)
    ensures Visit(c, seen[done].depth + 1) !in seen
  {
    hide Snapshot.Valid, Snapshot.IsChild, Below, Levels;
    var v := Visit(c, seen[done].depth + 1);
    OnlyParent(s, seen[..done], v, seen[done]);
    HeadIsNew(seen, done);
  }

  lemma OnlyParent(s: Snapshot, visits: seq<Visit>, v: Visit, parent: Visit)
    requires s.Valid() && s.IsChild(v.pid, parent.pid) && v.depth == parent.depth + 1
    ensures HasParentIn(s, visits, v) ==> parent in visits
  {
    hide Snapshot.Valid, Snapshot.IsChild;
    if HasParentIn(s, visits, v) {
      var p :| p in visits && s.IsChild(v.pid, p.pid) && v.depth == p.depth + 1;
      OneParent(s, v.pid, p.pid, parent.pid);
    }
  }

  lemma HeadIsNew<T>(seen: seq<T>, done: nat)
    requires Distinct(seen) && done < |seen|
    ensures seen[done] !in seen[..done]
  {}

  /** Taking out the head and queueing its children keeps the search in order. */
  lemma SearchStep(s: Snapshot, root: int, seen: seq<Visit>, done: nat)
    requires s.Valid() && Searching(s, root, seen, done) && done < |seen|
    ensures Searching(s, root, seen + VisitsAt(Children(s.processes, seen[done].pid), seen[done].depth + 1), done + 1)
  {
    hide Snapshot.Valid, Snapshot.IsChild, Below, Closed, Distinct, Children;
    var head := seen[done];
    var cs := Children(s.processes, head.pid);
    var added := VisitsAt(cs, head.depth + 1);
    forall i | 0 <= i < |cs| ensures Below(s, root, cs[i], head.depth + 1) && added[i] !in seen {
      IsChildOf(s, head.pid, cs[i]);
      ChildBelow(s, root, head.pid, head.depth, cs[i]);
      ChildrenAreNew(s, root, seen, done, cs[i]);
    }
    KidsDistinct(s, head.pid, head.depth + 1);
    DistinctAppend(seen, added);
    ClosedStep(s, root, seen, done);
  }

  lemma KidsDistinct(s: Snapshot, pid: int, depth: nat)
    requires s.Valid()
    ensures Distinct(VisitsAt(Children(s.processes, pid), depth))
  {
    ChildrenDistinct(s.processes, pid);
  }

  lemma IsChildOf(s: Snapshot, pid: int, c: int)
    ensures c in Children(s.processes, pid) <==> s.IsChild(c, pid)
  {}

  lemma DistinctAppend<T>(xs: seq<T>, ys: seq<T>)
    requires Distinct(xs) && Distinct(ys) && forall y <- ys :: y !in xs
    ensures Distinct(xs + ys)
  {
    var zs := xs + ys;
    forall i, j | 0 <= i < j < |zs| ensures zs[i] != zs[j] {
      if i < |xs| <= j {
        assert ys[j - |xs|] in ys;
        assert xs[i] in xs;
      }
    }
  }

  lemma ClosedStep(s: Snapshot, root: int, seen: seq<Visit>, done: nat)
    requires done < |seen| && Closed(s, root, seen, done)
    ensures Closed(s, root, seen + VisitsAt(Children(s.processes, seen[done].pid), seen[done].depth + 1), done + 1)
  {
    hide Snapshot.IsChild;
    var head := seen[done];
    var added := VisitsAt(Children(s.processes, head.pid), head.depth + 1);
    assert (seen + added)[..done + 1] == seen[..done] + [head];
    forall v ensures HasParentIn(s, seen[..done] + [head], v) <==> HasParentIn(s, seen[..done], v) || v in added {
      ParentAdded(s, seen[..done], head, v);
    }
  }

  lemma ParentAdded(s: Snapshot, visits: seq<Visit>, head: Visit, v: Visit)
    ensures HasParentIn(s, visits + [head], v) <==>
              HasParentIn(s, visits, v) || v in VisitsAt(Children(s.processes, head.pid), head.depth + 1)
  {
    hide Snapshot.IsChild;
    var cs := Children(s.processes, head.pid);
    IsChildOf(s, head.pid, v.pid);
    assert head in visits + [head];
    if v.pid in cs && v.depth == head.depth + 1 {
      var i :| 0 <= i < |cs| && cs[i] == v.pid;
      assert VisitsAt(cs, head.depth + 1)[i] == v;
    }
  }

  /** A returned pid is a target, and none is nearer to root. */
  lemma FoundNearest(s: Snapshot, startup: seq<string>, root: int, seen: seq<Visit>, done: nat)
    requires Searching(s, root, seen, done) && done < |seen| && NoneMatched(s, startup, root, seen[..done])
    ensures Returns(s, startup, root, seen[done].pid) ==> IsTarget(s, startup, root, seen[done].pid, seen[done].depth)
    ensures forall other: int, e: nat :: IsTarget(s, startup, root, other, e) ==> seen[done].depth <= e
  {
    hide Closed, Matches, Distinct;
    assert seen[done] in seen;
    forall other: int, e: nat | IsTarget(s, startup, root, other, e) ensures seen[done].depth <= e {
      DoneOrDeeper(s, root, seen, done, other, e);
    }
  }

  lemma NothingFound(s: Snapshot, startup: seq<string>, root: int, seen: seq<Visit>, done: nat)
    requires Searching(s, root, seen, done) && done == |seen| && NoneMatched(s, startup, root, seen[..done])
    ensures forall other: int, e: nat :: !IsTarget(s, startup, root, other, e)
  {
    hide Closed, Matches, Distinct;
    forall other: int, e: nat ensures !IsTarget(s, startup, root, other, e) {
      if Below(s, root, other, e) {
        DoneOrDeeper(s, root, seen, done, other, e);
      }
    }
  }

  // ----- how long the search can take

  /** Everything that can be queued. */
  function Universe(s: Snapshot, root: int): (u: seq<int>)
    ensures |u| == |s.processes| + 1
  {
    [root] + Pids(s.processes)
  }

  function Pids(ps: seq<Process>): (u: seq<int>)
    ensures |u| == |ps| && forall p <- ps :: p.pid in u
  {
    if ps == [] then []
    else
      assert ps == [ps[0]] + ps[1..];
      [ps[0].pid] + Pids(ps[1..])
  }

  lemma BelowInUniverse(s: Snapshot, root: int, pid: int, depth: nat)
    requires Below(s, root, pid, depth)
    ensures pid in Universe(s, root)
  {
    if depth > 0 {
      var parent :| s.IsChild(pid, parent) && Below(s, root, parent, depth - 1);
      assert Process(pid, parent) in s.processes;
    }
  }

  /** All visits of these pids down to a depth. */
  function Within(pids: seq<int>, depth: nat): (visits: seq<Visit>)
    ensures |visits| == |pids| * (depth + 1)
    ensures forall v: Visit | v.pid in pids && v.depth <= depth :: v in visits
  {
    var level := VisitsAt(pids, depth);
    assert forall i | 0 <= i < |pids| :: level[i] in level;
    if depth == 0 then level else level + Within(pids, depth - 1)
  }

  /** Distinct elements of a list are no more than it has. */
  lemma {:induction false} Pigeonhole<T>(xs: seq<T>, ys: seq<T>)
    requires Distinct(xs) && forall x <- xs :: x in ys
    ensures |xs| <= |ys|
    decreases |xs|
  {
    if xs != [] {
      var init, last := xs[..|xs| - 1], xs[|xs| - 1];
      assert last in xs;
      var k :| 0 <= k < |ys| && ys[k] == last;
      var rest := ys[..k] + ys[k + 1..];
      assert ys == ys[..k] + [last] + ys[k + 1..];
      forall x <- init ensures x in rest {
        assert x in xs;
        var i :| 0 <= i < |init| && init[i] == x;
        assert xs[i] != xs[|xs| - 1];
      }
      Pigeonhole(init, rest);
    }
  }

  /** Some process is the target. */
  ghost predicate HasTarget(s: Snapshot, startup: seq<string>, root: int) {
    exists pid: int, depth: nat :: IsTarget(s, startup, root, pid, depth)
  }

  /** No search that has not returned yet has taken out as many pids. */
  ghost predicate IsBound(s: Snapshot, startup: seq<string>, root: int, bound: nat) {
    forall seen: seq<Visit>, done: nat | Searching(s, root, seen, done) ::
      done < |seen| && NoneMatched(s, startup, root, seen[..done]) ==> done < bound
  }

  /** Without a cycle every pid is seen once. */
  lemma AcyclicBound(s: Snapshot, root: int, seen: seq<Visit>, done: nat)
    requires s.Valid() && Acyclic(s, root) && Searching(s, root, seen, done)
    ensures |seen| <= |s.processes| + 1
  {
    hide Snapshot.Valid, Acyclic, Below, Closed, Universe;
    var pids := PidsOf(seen);
    forall i, j | 0 <= i < j < |seen| ensures pids[i] != pids[j] {
      assert seen[i] in seen && seen[j] in seen;
      if seen[i].pid == seen[j].pid {
        OneDepth(s, root, seen[i].pid, seen[i].depth, seen[j].depth);
      }
    }
    forall pid <- pids ensures pid in Universe(s, root) {
      var i :| 0 <= i < |seen| && pids[i] == pid;
      assert seen[i] in seen;
      BelowInUniverse(s, root, pid, seen[i].depth);
    }
    Pigeonhole(pids, Universe(s, root));
  }

  /** With a target, the search does not go deeper than it lies. */
  lemma TargetBound(
    s: Snapshot, startup: seq<string>, root: int, seen: seq<Visit>, done: nat, target: int, depth: nat)
    requires Searching(s, root, seen, done) && done < |seen| && NoneMatched(s, startup, root, seen[..done])
    requires IsTarget(s, startup, root, target, depth)
    ensures done < (|s.processes| + 1) * (depth + 1)
  {
    hide Below, Closed, Universe, Within, IsTarget, NoneMatched;
    FoundNearest(s, startup, root, seen, done);
    var visits := seen[..done + 1];
    forall v <- visits ensures v in Within(Universe(s, root), depth) {
      assert v in seen;
      BelowInUniverse(s, root, v.pid, v.depth);
    }
    Pigeonhole(visits, Within(Universe(s, root), depth));
  }

  lemma BoundExists(s: Snapshot, startup: seq<string>, root: int) returns (bound: nat)
    requires s.Valid() && (Acyclic(s, root) || HasTarget(s, startup, root))
    ensures IsBound(s, startup, root, bound)
  {
    hide Snapshot.Valid, Acyclic, Searching, IsTarget, NoneMatched;
    if Acyclic(s, root) {
      bound := |s.processes| + 1;
      forall seen: seq<Visit>, done: nat | Searching(s, root, seen, done) ensures done < |seen| ==> done < bound {
        AcyclicBound(s, root, seen, done);
      }
    } else {
      var target: int, depth: nat :| IsTarget(s, startup, root, target, depth);
      bound := (|s.processes| + 1) * (depth + 1);
      forall seen: seq<Visit>, done: nat | Searching(s, root, seen, done)
        ensures done < |seen| && NoneMatched(s, startup, root, seen[..done]) ==> done < bound
      {
        if done < |seen| && NoneMatched(s, startup, root, seen[..done]) {
          TargetBound(s, startup, root, seen, done, target, depth);
        }
      }
    }
  }

  /**
   If root is not below itself, or something below it is the target, the search ends. It finds a proper
   descendant that is the target, and none is nearer to root; it fails exactly when no proper descendant is.
   SearchEndsExactly shows that otherwise it does not end.
   */
  method FindTargetDescendantPid(root: int, s: Snapshot, startup: seq<string>) returns (pid: int, found: bool)
    requires s.Valid() && (Acyclic(s, root) || HasTarget(s, startup, root))
    ensures found ==> exists depth: nat ::
              IsTarget(s, startup, root, pid, depth)
              && forall other: int, e: nat :: IsTarget(s, startup, root, other, e) ==> depth <= e
    ensures found <==> HasTarget(s, startup, root)
  {
    hide Snapshot.Valid, Acyclic, Below, IsTargetProcess, Children, IsTarget, Searching, IsBound, QueueAfter;
    var childrenOf := ChildrenByParent(s);
    var queue := [root];
    ghost var seen, done := [Visit(root, 0)], 0;
    ghost var bound := BoundExists(s, startup, root);
    SearchBegins(s, root);
    while queue != []
      invariant Searching(s, root, seen, done) && done <= |seen|
      invariant queue == PidsOf(seen[done..]) == QueueAfter(s, root, done)
      invariant NoneMatched(s, startup, root, seen[..done])
      decreases bound - done
    {
      pid := queue[0];
      queue := queue[1..];
      assert pid == seen[done].pid;
      FoundNearest(s, startup, root, seen, done);
      if pid != root && IsTargetProcess(s.cmdline(pid), startup) {
        return pid, true;
      }
      StillBounded(s, startup, root, seen, done, bound);
      SearchStep(s, root, seen, done);
      QueueTurn(s, root, seen, done);
      var children := if pid in childrenOf then childrenOf[pid] else [];
      assert children == Children(s.processes, pid);
      queue := queue + children;
      ghost var before := seen;
      seen, done := seen + VisitsAt(children, seen[done].depth + 1), done + 1;
      assert seen[..done] == before[..done - 1] + [before[done - 1]];
    }
    NothingFound(s, startup, root, seen, done);
    return 0, false;
  }

  lemma SearchBegins(s: Snapshot, root: int)
    ensures Searching(s, root, [Visit(root, 0)], 0) && QueueAfter(s, root, 0) == [root]
  {}

  lemma StillBounded(s: Snapshot, startup: seq<string>, root: int, seen: seq<Visit>, done: nat, bound: nat)
    requires IsBound(s, startup, root, bound) && Searching(s, root, seen, done)
    requires done < |seen| && NoneMatched(s, startup, root, seen[..done])
    ensures done < bound
  {
    hide Searching, NoneMatched;
  }

  /** One turn, as the queue and as what was seen. */
  lemma QueueTurn(s: Snapshot, root: int, seen: seq<Visit>, n: nat)
    requires n < |seen| && QueueAfter(s, root, n) == PidsOf(seen[n..])
    ensures var cs := Children(s.processes, seen[n].pid);
            PidsOf((seen + VisitsAt(cs, seen[n].depth + 1))[n + 1..]) == PidsOf(seen[n..])[1..] + cs
                                                                     == QueueAfter(s, root, n + 1)
  {
    hide Children;
  }

  // ----- when the search ends

  /** The queue after n turns of the loop, as long as it does not return. */
  function QueueAfter(s: Snapshot, root: int, n: nat): seq<int> {
    if n == 0 then [root]
    else
      var q := QueueAfter(s, root, n - 1);
      if q == [] then [] else q[1..] + Children(s.processes, q[0])
  }

  /** The loop is over after n turns at the latest, the queue being empty or its head returned. */
  ghost predicate Stops(s: Snapshot, startup: seq<string>, root: int, n: nat) {
    var q := QueueAfter(s, root, n);
    q == [] || Returns(s, startup, root, q[0])
  }

  /** Between root and itself. */
  ghost predicate OnCycle(s: Snapshot, root: int, pid: int) {
    exists up: nat :: Below(s, pid, root, up) && up > 0
  }

  /** A chain from pid down to target starts with a child of pid. */
  lemma {:induction false} FirstStep(s: Snapshot, pid: int, target: int, up: nat) returns (c: int)
    requires up > 0 && Below(s, pid, target, up)
    ensures s.IsChild(c, pid) && Below(s, c, target, up - 1)
    decreases up
  {
    var parent :| s.IsChild(target, parent) && Below(s, pid, parent, up - 1);
    if up == 1 {
      c := target;
    } else {
      c := FirstStep(s, pid, parent, up - 1);
    }
  }

  /** If root is below itself the queue is never empty. */
  lemma {:induction false} CycleStaysQueued(s: Snapshot, root: int, n: nat)
    requires !Acyclic(s, root)
    ensures exists x <- QueueAfter(s, root, n) :: OnCycle(s, root, x)
    ensures QueueAfter(s, root, n) != []
  {
    hide Snapshot.IsChild;
    assert OnCycle(s, root, root);
    if n == 0 {
      assert root in QueueAfter(s, root, 0);
    } else {
      CycleStaysQueued(s, root, n - 1);
      var q := QueueAfter(s, root, n - 1);
      var x :| x in q && OnCycle(s, root, x);
      if x == q[0] {
        var c := ChildOnCycle(s, root, x);
        IsChildOf(s, x, c);
        assert c in QueueAfter(s, root, n);
      } else {
        assert x in q[1..];
        assert x in QueueAfter(s, root, n);
      }
    }
  }

  lemma ChildOnCycle(s: Snapshot, root: int, pid: int) returns (c: int)
    requires OnCycle(s, root, pid) && OnCycle(s, root, root)
    ensures s.IsChild(c, pid) && OnCycle(s, root, c)
  {
    var up: nat :| Below(s, pid, root, up) && up > 0;
    c := FirstStep(s, pid, root, up);
  }
  /** What is in the queue lies below root. */
  lemma {:induction false} QueueBelow(s: Snapshot, root: int, n: nat, pid: int) returns (depth: nat)
    requires pid in QueueAfter(s, root, n)
    ensures Below(s, root, pid, depth)
  {
    hide Snapshot.IsChild;
    if n == 0 {
      depth := 0;
    } else {
      var q := QueueAfter(s, root, n - 1);
      if pid in q {
        depth := QueueBelow(s, root, n - 1, pid);
      } else {
        depth := QueueBelow(s, root, n - 1, q[0]);
        IsChildOf(s, q[0], pid);
        ChildBelow(s, root, q[0], depth, pid);
        depth := depth + 1;
      }
    }
  }

  /** The first n turns, if none of them ends the loop. */
  lemma {:induction false} Turns(s: Snapshot, startup: seq<string>, root: int, n: nat) returns (seen: seq<Visit>)
    requires s.Valid() && forall m: nat | m < n :: !Stops(s, startup, root, m)
    ensures n <= |seen| && Searching(s, root, seen, n) && NoneMatched(s, startup, root, seen[..n])
    ensures QueueAfter(s, root, n) == PidsOf(seen[n..])
  {
    hide Snapshot.Valid, Searching, Returns, Children, QueueAfter;
    if n == 0 {
      seen := [Visit(root, 0)];
      SearchBegins(s, root);
    } else {
      var before := Turns(s, startup, root, n - 1);
      assert !Stops(s, startup, root, n - 1);
      SearchStep(s, root, before, n - 1);
      QueueTurn(s, root, before, n - 1);
      seen := before + VisitsAt(Children(s.processes, before[n - 1].pid), before[n - 1].depth + 1);
      assert seen[..n] == before[..n - 1] + [before[n - 1]];
    }
  }

  /** The search ends if and only if root is not below itself or some proper descendant is the target. */
  lemma SearchEndsExactly(s: Snapshot, startup: seq<string>, root: int)
    requires s.Valid()
    ensures (exists n: nat :: Stops(s, startup, root, n)) <==> Acyclic(s, root) || HasTarget(s, startup, root)
  {
    hide Snapshot.Valid, Acyclic, Searching, NoneMatched, IsBound, QueueAfter, Below, Matches;
    if n: nat :| Stops(s, startup, root, n) {
      if !Acyclic(s, root) {
        CycleStaysQueued(s, root, n);
        var pid := QueueAfter(s, root, n)[0];
        var depth := QueueBelow(s, root, n, pid);
        OnlyRootOnTop(s, root, pid, depth);
        assert IsTarget(s, startup, root, pid, depth);
      }
    } else if Acyclic(s, root) || HasTarget(s, startup, root) {
      var bound := BoundExists(s, startup, root);
      var seen := Turns(s, startup, root, bound);
      assert !Stops(s, startup, root, bound);
      StillBounded(s, startup, root, seen, bound, bound);
    }
  }

  lemma OnlyRootOnTop(s: Snapshot, root: int, pid: int, depth: nat)
    requires Below(s, root, pid, depth) && pid != root
    ensures depth > 0
  {}

  /** Two processes that are each other's parents, none of them the target: the search from one goes on for ever. */
  lemma CyclicSearchGoesOn()
    ensures var s := Snapshot([Process(1, 2), Process(2, 1)], _ => []);
            s.Valid() && forall n: nat :: !Stops(s, ["app"], 1, n)
  {
    var s := Snapshot([Process(1, 2), Process(2, 1)], _ => []);
    assert s.IsChild(2, 1) && s.IsChild(1, 2);
    assert Below(s, 1, 1, 0) && Below(s, 1, 2, 1) && Below(s, 1, 1, 2);
    SearchEndsExactly(s, ["app"], 1);
  }
}
