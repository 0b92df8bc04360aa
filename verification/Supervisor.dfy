/**
 internal/debugadmin/run.go (the loop of Run), internal/debugadmin/target_process.go (waitForExit and the
 done channel) and internal/debugadmin/run_history.go: restarting the target process, as interleaved steps
 of the supervisor and of one waiting goroutine for each target.
 */
module Supervisor {
  import opened Options

  // ----- exits

  /** What cmd.Wait returns. */
  datatype ExitError = Nil | Exited(code: int) | Signaled(signal: string) | WaitFailed

  /** Exit code, signal, and whether the exit was abnormal. */
  function ClassifyExit(err: ExitError): (int, string, bool) {
    match err
    case Nil => (0, "", false)
    case Exited(code) => (code, "", true)
    case Signaled(signal) => (-1, signal, true)
    case WaitFailed => (-1, "", true)
  }

  datatype RunRecord = RunRecord(target: nat, exitCode: int, signal: string, abnormal: bool, err: ExitError)

  datatype Settings = Settings(autoRestart: bool, withCoverage: bool)

  /** In coverage mode a clean exit of the wrapper counts as abnormal in the record. */
  function RecordOf(o: Settings, target: nat, err: ExitError): RunRecord {
    var (code, signal, abnormal) := ClassifyExit(err);
    RunRecord(target, code, signal, abnormal || o.withCoverage, err)
  }

  // ----- the protocol

  /** How far a target's waiting goroutine has come. */
  datatype Phase =
    Running | Waited(err: ExitError) | Recorded(err: ExitError) | Sent(err: ExitError) | Closed(err: ExitError)

  /** A target, what its done channel holds, and how often that was read. */
  datatype Target = Target(phase: Phase, done: Option<ExitError>, readCount: nat)

  const STARTED := Target(Running, None, 0)

  datatype State = State(
    targets: seq<Target>, current: nat, handler: nat, history: seq<RunRecord>, finished: Option<int>)

  const INIT := State([STARTED], 0, 0, [], None)

  /** What the HTTP server's goroutine reports: nothing, that it was shut down, or another error. */
  datatype ServerEnd = NoError | ServerClosed | ServerFailed

  datatype Step =
    | WaitReturns(t: nat, err: ExitError)
    | AddRecord(t: nat)
    | SendDone(t: nat)
    | CloseDone(t: nat)
    | ReceiveDone(restartFails: bool)
    | ServerStops(end: ServerEnd)

  /** What a receive from done gives: the value in it, or nil once it is closed and empty. */
  function DoneValue(t: Target): Option<ExitError> {
    if t.done.Some? then t.done else if t.phase.Closed? then Some(Nil) else None
  }

  predicate Enabled(s: State, step: Step) {
    match step
    case WaitReturns(t, _) => t < |s.targets| && s.targets[t].phase.Running?
    case AddRecord(t) => t < |s.targets| && s.targets[t].phase.Waited?
    case SendDone(t) => t < |s.targets| && s.targets[t].phase.Recorded? && s.targets[t].done == None
    case CloseDone(t) => t < |s.targets| && s.targets[t].phase.Sent?
    case ReceiveDone(_) => s.finished == None && s.current < |s.targets| && DoneValue(s.targets[s.current]).Some?
    case ServerStops(_) => s.finished == None
  }

  function Restarts(o: Settings, err: ExitError): bool {
    o.autoRestart && ClassifyExit(err).2
  }

  function Apply(o: Settings, s: State, step: Step): State
    requires Enabled(s, step)
  {
    match step
    case WaitReturns(t, err) => s.(targets := s.targets[t := s.targets[t].(phase := Waited(err))])
    case AddRecord(t) =>
      var err := s.targets[t].phase.err;
      s.(targets := s.targets[t := s.targets[t].(phase := Recorded(err))], history := s.history + [RecordOf(o, t, err)])
    case SendDone(t) =>
      var err := s.targets[t].phase.err;
      s.(targets := s.targets[t := s.targets[t].(phase := Sent(err), done := Some(err))])
    case CloseDone(t) => s.(targets := s.targets[t := s.targets[t].(phase := Closed(s.targets[t].phase.err))])
    case ReceiveDone(restartFails) =>
      var target := s.targets[s.current];
      var err := DoneValue(target).value;
      var read := s.targets[s.current := target.(done := None, readCount := target.readCount + 1)];
      if !Restarts(o, err) then s.(targets := read, finished := Some(if err == Nil then 0 else 1))
      else if restartFails then s.(targets := read, finished := Some(1))
      else s.(targets := read + [STARTED], current := |s.targets|, handler := |s.targets|)
    case ServerStops(end) => s.(finished := Some(if end.ServerFailed? then 1 else 0))
  }

  function After(o: Settings, steps: seq<Step>): Option<State> {
    if steps == [] then Some(INIT)
    else match After(o, steps[..|steps| - 1])
      case None => None
      case Some(s) => if Enabled(s, steps[|steps| - 1]) then Some(Apply(o, s, steps[|steps| - 1])) else None
  }

  // ----- what every run keeps

  predicate HasRecord(p: Phase) {
    p.Recorded? || p.Sent? || p.Closed?
  }

  /** A target before the current one: its exit is recorded, was sent, and was read once. */
  predicate Past(t: Target) {
    (t.phase.Sent? || t.phase.Closed?) && t.done == None && t.readCount == 1
  }

  /** The current target: its exit is unread, and in done once it was sent. */
  predicate Unread(t: Target) {
    t.readCount == 0 && t.done == if t.phase.Sent? || t.phase.Closed? then Some(t.phase.err) else None
  }

  ghost predicate TargetsInv(s: State) {
    && s.targets != [] && s.current == s.handler == |s.targets| - 1
    && (forall t | 0 <= t < s.current :: Past(s.targets[t]))
    && (Unread(s.targets[s.current]) || (s.finished.Some? && Past(s.targets[s.current])))
  }

  /** The records are those of the targets, in start order, one for each recorded exit. */
  ghost predicate HistoryInv(o: Settings, s: State) {
    && |s.history| <= |s.targets|
    && (forall t | 0 <= t < |s.targets| :: HasRecord(s.targets[t].phase) <==> t < |s.history|)
    && forall t | 0 <= t < |s.history| ::
         t < |s.targets| && HasRecord(s.targets[t].phase) && s.history[t] == RecordOf(o, t, s.targets[t].phase.err)
  }

  ghost predicate Inv(o: Settings, s: State) {
    TargetsInv(s) && HistoryInv(o, s)
  }

  lemma TargetsKept(o: Settings, s: State, step: Step)
    requires TargetsInv(s) && Enabled(s, step)
    ensures TargetsInv(Apply(o, s, step))
  {
    hide ClassifyExit, HasRecord, RecordOf;
  }

  lemma HistoryKept(o: Settings, s: State, step: Step)
    requires TargetsInv(s) && HistoryInv(o, s) && Enabled(s, step)
    ensures HistoryInv(o, Apply(o, s, step))
  {
    hide ClassifyExit, RecordOf, Unread;
    assert s.current > 0 ==> Past(s.targets[s.current - 1]);
    assert s.current > 0 ==> (HasRecord(s.targets[s.current - 1].phase) <==> s.current - 1 < |s.history|);
    assert s.current <= |s.history|;
    if step.AddRecord? {
      assert HasRecord(s.targets[step.t].phase) <==> step.t < |s.history|;
    }
  }

  lemma StepKeeps(o: Settings, s: State, step: Step)
    requires Inv(o, s) && Enabled(s, step)
    ensures Inv(o, Apply(o, s, step))
  {
    TargetsKept(o, s, step);
    HistoryKept(o, s, step);
  }

  lemma {:induction false} Safety(o: Settings, steps: seq<Step>)
    ensures After(o, steps).Some? ==> Inv(o, After(o, steps).value)
  {
    hide Enabled, Apply, TargetsInv, HistoryInv;
    if steps == [] {
      InitKept(o);
    } else if After(o, steps).Some? {
      Safety(o, steps[..|steps| - 1]);
      StepKeeps(o, After(o, steps[..|steps| - 1]).value, steps[|steps| - 1]);
    }
  }

  lemma InitKept(o: Settings)
    ensures Inv(o, INIT)
  {}

  // ----- what that means

  predicate ExitUndelivered(t: Target) {
    !t.phase.Running? && t.readCount == 0
  }

  /** At most one target has an exit that nobody has read: the current one. No done channel is read twice. */
  lemma OneUndelivered(o: Settings, steps: seq<Step>, t: nat)
    requires After(o, steps).Some? && t < |After(o, steps).value.targets|
    ensures var s := After(o, steps).value;
            && s.targets[t].readCount <= 1
            && (ExitUndelivered(s.targets[t]) ==> t == s.current)
            && (t < s.current ==> s.targets[t].readCount == 1)
  {
    hide After, HistoryInv;
    Safety(o, steps);
    assert t < After(o, steps).value.current ==> Past(After(o, steps).value.targets[t]);
  }

  /** The records are in start order: the k-th is the k-th target's, and says what its exit was. */
  lemma RecordsInStartOrder(o: Settings, steps: seq<Step>, k: nat)
    requires After(o, steps).Some? && k < |After(o, steps).value.history|
    ensures var s := After(o, steps).value;
            && k < |s.targets| && s.history[k].target == k
            && HasRecord(s.targets[k].phase) && s.history[k] == RecordOf(o, k, s.targets[k].phase.err)
  {
    hide After, TargetsInv;
    Safety(o, steps);
  }

  /** When an exit can be read from done its record is in the history, and it is the newest. */
  lemma RecordedBeforeDelivered(o: Settings, steps: seq<Step>, restartFails: bool)
    requires After(o, steps).Some? && Enabled(After(o, steps).value, ReceiveDone(restartFails))
    ensures var s := After(o, steps).value;
            && s.targets[s.current].done.Some?
            && |s.history| == s.current + 1
            && s.history[s.current] == RecordOf(o, s.current, s.targets[s.current].done.value)
  {
    hide After;
    Safety(o, steps);
    var s := After(o, steps).value;
    assert HasRecord(s.targets[s.current].phase) <==> s.current < |s.history|;
  }

  predicate IsRestart(s: State, after: State) {
    |after.targets| > |s.targets|
  }

  /** A target is only ever started after an abnormal newest record, with auto-restart on. */
  lemma RestartsAreJustified(o: Settings, steps: seq<Step>, step: Step)
    requires After(o, steps).Some? && Enabled(After(o, steps).value, step)
    requires IsRestart(After(o, steps).value, Apply(o, After(o, steps).value, step))
    ensures var s := After(o, steps).value;
            o.autoRestart && |s.history| > 0 && s.history[|s.history| - 1].abnormal
  {
    hide After, Inv;
    assert step.ReceiveDone?;
    RecordedBeforeDelivered(o, steps, step.restartFails);
  }

  /**
   Conversely an abnormal newest record with auto-restart on leads to a restart, if starting works,
   exactly unless the program runs in coverage mode and the wrapper exited cleanly: the history then says
   abnormal, while the supervisor classifies the exit afresh and stops. The comment at
   internal/debugadmin/target_process.go:121-125 expects a restart there.
   */
  lemma AbnormalRestartsExactly(o: Settings, steps: seq<Step>)
    requires After(o, steps).Some? && Enabled(After(o, steps).value, ReceiveDone(false))
    requires o.autoRestart && After(o, steps).value.history != []
    requires var h := After(o, steps).value.history; h[|h| - 1].abnormal
    ensures var s := After(o, steps).value;
            IsRestart(s, Apply(o, s, ReceiveDone(false))) <==>
              !(o.withCoverage && s.targets[s.current].done == Some(Nil))
  {
    hide After, Inv;
    RecordedBeforeDelivered(o, steps, false);
  }

  /** The run that shows it: a wrapper that exits cleanly in coverage mode, with auto-restart on. */
  lemma CoverageExitIsNotRestarted()
    ensures var o := Settings(true, true);
            var s := After(o, [WaitReturns(0, Nil), AddRecord(0), SendDone(0)]);
            && s.Some? && s.value.history == [RunRecord(0, 0, "", true, Nil)]
            && Enabled(s.value, ReceiveDone(false)) && Apply(o, s.value, ReceiveDone(false)).finished == Some(0)
  {
    var o := Settings(true, true);
    var steps := [WaitReturns(0, Nil), AddRecord(0), SendDone(0)];
    assert steps[..2][..1][..0] == [];
    assert After(o, steps[..2][..1]) == Some(Apply(o, INIT, steps[0]));
    assert steps[..2][..1] == steps[..1];
  }

  /** The record of an exit tells which it was, as far as the program's three columns can. */
  lemma RecordTellsExit(o: Settings, t: nat, err: ExitError)
    ensures var r := RecordOf(o, t, err);
            && (err == Nil <==> r.exitCode == 0 && r.signal == "" && (r.abnormal <==> o.withCoverage) && r.err == Nil)
            && (err.Exited? ==> r.exitCode == err.code && r.signal == "" && r.abnormal)
            && (err.Signaled? ==> r.exitCode == -1 && r.signal == err.signal && r.abnormal)
            && (err.WaitFailed? ==> r.exitCode == -1 && r.signal == "" && r.abnormal)
            && r.target == t && r.err == err
  {}

  // ----- how runs end

  /** The program's own exit status: 0 exactly if it ends with a clean exit of the target, or with the server,
      shut down or not, but not failed. */
  lemma ExitStatus(o: Settings, s: State, step: Step)
    requires Enabled(s, step) && s.finished == None && Apply(o, s, step).finished.Some?
    ensures var code := Apply(o, s, step).finished.value;
            && (code == 0 || code == 1)
            && (code == 0 <==>
                  || (step.ReceiveDone? && DoneValue(s.targets[s.current]) == Some(Nil))
                  || (step.ServerStops? && !step.end.ServerFailed?))
  {}

  lemma Next(o: Settings, steps: seq<Step>, step: Step)
    requires After(o, steps).Some? && Enabled(After(o, steps).value, step)
    ensures After(o, steps + [step]) == Some(Apply(o, After(o, steps).value, step))
  {
    assert (steps + [step])[..|steps|] == steps;
  }

  /** The steps by which the exit of a target reaches the supervisor. */
  function Delivery(t: nat, err: ExitError): seq<Step> {
    [WaitReturns(t, err)] + [AddRecord(t)] + [SendDone(t)]
  }

  /** A target that is running, the current one, can exit in any way, and its exit reaches the supervisor. */
  lemma ExitIsDelivered(o: Settings, steps: seq<Step>, err: ExitError)
    requires After(o, steps).Some? && After(o, steps).value.finished == None
    requires After(o, steps).value.current < |After(o, steps).value.targets|
    requires var s := After(o, steps).value; s.targets[s.current] == STARTED
    ensures var s, after := After(o, steps).value, After(o, steps + Delivery(After(o, steps).value.current, err));
            && after.Some? && after.value.current == s.current && after.value.finished == None
            && |after.value.targets| == |s.targets|
            && after.value.history == s.history + [RecordOf(o, s.current, err)]
            && DoneValue(after.value.targets[s.current]) == Some(err)
            && Enabled(after.value, ReceiveDone(false))
  {
    hide After, RecordOf;
    var t := After(o, steps).value.current;
    Next(o, steps, WaitReturns(t, err));
    Next(o, steps + [WaitReturns(t, err)], AddRecord(t));
    Next(o, steps + [WaitReturns(t, err)] + [AddRecord(t)], SendDone(t));
    assert steps + Delivery(t, err) == steps + [WaitReturns(t, err)] + [AddRecord(t)] + [SendDone(t)];
  }

  /** One target after another exits so, and is restarted. */
  function CrashRun(errs: seq<ExitError>): seq<Step> {
    if errs == [] then []
    else CrashRun(errs[..|errs| - 1]) + Delivery(|errs| - 1, errs[|errs| - 1]) + [ReceiveDone(false)]
  }

  /** With auto-restart on, any number of abnormal exits in turn are all recorded, and each is followed by a start. */
  lemma {:induction false} CrashesAreRestarted(o: Settings, errs: seq<ExitError>)
    requires o.autoRestart && forall k | 0 <= k < |errs| :: errs[k] != Nil
    ensures After(o, CrashRun(errs)).Some?
    ensures var s := After(o, CrashRun(errs)).value;
            && s.finished == None && |s.targets| == |errs| + 1 && s.current == s.handler == |errs|
            && s.targets[|errs|] == STARTED
            && |s.history| == |errs| && forall k | 0 <= k < |errs| :: s.history[k] == RecordOf(o, k, errs[k])
  {
    hide After, RecordOf;
    if errs == [] {
      AfterNone(o);
    } else {
      var init, err, t := errs[..|errs| - 1], errs[|errs| - 1], |errs| - 1;
      CrashesAreRestarted(o, init);
      var before := CrashRun(init);
      ExitIsDelivered(o, before, err);
      Next(o, before + Delivery(t, err), ReceiveDone(false));
    }
  }

  lemma AfterNone(o: Settings)
    ensures After(o, []) == Some(INIT)
  {}

  // ----- the objects

  const MAX_RECENT := 50

  function Tail(lines: seq<string>): seq<string> {
    if |lines| > MAX_RECENT then lines[|lines| - MAX_RECENT..] else lines
  }

  function TrimNewlines(line: string): string {
    if line != "" && line[|line| - 1] == '\n' then TrimNewlines(line[..|line| - 1]) else line
  }

  /** A line without the newlines at its end. */
  lemma {:induction false} TrimNewlinesExactly(line: string) returns (n: nat)
    ensures n <= |line| && TrimNewlines(line) == line[..|line| - n]
    ensures forall i | |line| - n <= i < |line| :: line[i] == '\n'
    ensures TrimNewlines(line) == "" || TrimNewlines(line)[|TrimNewlines(line)| - 1] != '\n'
  {
    n := 0;
    if line != "" && line[|line| - 1] == '\n' {
      n := TrimNewlinesExactly(line[..|line| - 1]);
      n := n + 1;
    }
  }

  /** The lines kept for a crash report: always the last fifty of all that were recorded. */
  class RecentLines {
    var recentLines: seq<string>
    ghost var recorded: seq<string>

    ghost predicate Valid()
      reads this
    {
      recentLines == Tail(recorded)
    }

    constructor ()
      ensures Valid() && recorded == []
    {
      recentLines, recorded := [], [];
    }

    method RecordRecentLine(line: string)
      requires Valid()
      modifies this
      ensures Valid() && recorded == old(recorded) + [TrimNewlines(line)]
      ensures |recentLines| == if |recorded| < 50 then |recorded| else 50
      ensures recentLines == recorded[|recorded| - |recentLines|..]
    {
      recentLines := recentLines + [TrimNewlines(line)];
      if |recentLines| > MAX_RECENT {
        recentLines := recentLines[|recentLines| - MAX_RECENT..];
      }
      recorded := recorded + [TrimNewlines(line)];
    }
  }

  class RunHistory {
    var records: seq<RunRecord>

    constructor ()
      ensures records == []
    {
      records := [];
    }

    method Add(record: RunRecord)
      modifies this
      ensures records == old(records) + [record]
    {
      records := records + [record];
    }

    /** A copy, which later records do not reach. */
    method Snapshot() returns (out: array<RunRecord>)
      ensures fresh(out) && out[..] == records
    {
      out := new RunRecord[|records|](i requires 0 <= i < |records| reads this => records[i]);
    }
  }

  /**
   What a target's waiting goroutine does to the history, at the protocol's step AddRecord: the history object
   stays the protocol's history, the new record is the next target's, and it has one record for each exit.
   */
  method RecordExit(history: RunHistory, o: Settings, t: nat, err: ExitError, ghost s: State)
    requires Inv(o, s) && history.records == s.history
    requires t < |s.targets| && s.targets[t].phase == Waited(err)
    modifies history
    ensures history.records == Apply(o, s, AddRecord(t)).history
    ensures |history.records| == t + 1 && forall k | 0 <= k <= t :: history.records[k].target == k
    ensures history.records[t].abnormal <==> err != Nil || o.withCoverage
  {
    hide Inv, Apply;
    NextRecord(o, s, t, err);
    var (exitCode, signal, abnormal) := ClassifyExit(err);
    if o.withCoverage && !abnormal {
      abnormal := true;
    }
    history.Add(RunRecord(t, exitCode, signal, abnormal, err));
  }

  lemma NextRecord(o: Settings, s: State, t: nat, err: ExitError)
    requires Inv(o, s) && t < |s.targets| && s.targets[t].phase == Waited(err)
    ensures Apply(o, s, AddRecord(t)).history == s.history + [RecordOf(o, t, err)]
    ensures |s.history| == t && forall k | 0 <= k < t :: s.history[k].target == k
  {
    var after := Apply(o, s, AddRecord(t));
    StepKeeps(o, s, AddRecord(t));
    hide ClassifyExit, TargetsInv;
    assert !HasRecord(s.targets[t].phase);
    assert HasRecord(after.targets[t].phase);
    assert after.history[|s.history|] == RecordOf(o, t, err);
  }
}
