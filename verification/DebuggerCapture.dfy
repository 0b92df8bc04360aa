/**
 internal/debugadmin/http_server.go, collectStackOutput and readPipeChunks: the debugger's start-up output
 and its answer to "bt all", told apart by an idle timeout, as interleaved steps of the reading goroutine
 and the collecting one. Bytes are characters here; timers and the pipe are events.
 */
module DebuggerCapture {
  import opened Options

  const CHANNEL_CAPACITY := 32

  type Chunk = string

  /** The reader between reads, holding a chunk for the channel (the last one, if the read also reported
      the end or an error), about to close the channel, or gone. */
  datatype Reader = Reading | Holding(chunk: Chunk, last: bool) | Closing | Ended

  /** The collector before the command, about to write it, draining the channel, or returned. */
  datatype Collector = Startup | Commanding | Draining | Returned | Aborted

  datatype State = State(
    reader: Reader, channel: seq<Chunk>, closed: bool,
    collector: Collector, startup: string, all: string, idleFired: bool, commands: nat, cancelled: bool,
    read: string)

  /** `read` is all that came out of the pipe; the program does not keep it. */
  const INIT := State(Reading, [], false, Startup, "", "", false, 0, false, "")

  datatype Step =
    | Read(chunk: Chunk, last: bool)
    | ReadEnd
    | Push
    | GiveUp
    | TakeStartup
    | SeeClosed
    | Idle
    | WriteCommand
    | TakeStack
    | Finish
    | Cancel
    | Abort

  function Flatten(chunks: seq<Chunk>): string {
    if chunks == [] then "" else chunks[0] + Flatten(chunks[1..])
  }

  function Held(r: Reader): string {
    if r.Holding? then r.chunk else ""
  }

  /** Read from the pipe and not yet with the collector. */
  function Waiting(s: State): string {
    Flatten(s.channel) + Held(s.reader)
  }

  predicate Enabled(s: State, step: Step) {
    match step
    case Read(chunk, _) => s.reader.Reading? && 0 < |chunk| <= 4096
    case ReadEnd => s.reader.Reading? || s.reader.Closing?
    case Push => s.reader.Holding? && |s.channel| < CHANNEL_CAPACITY
    case GiveUp => s.reader.Holding? && s.cancelled
    case TakeStartup => s.collector.Startup? && s.channel != []
    case SeeClosed => s.collector.Startup? && s.channel == [] && s.closed
    case Idle => s.collector.Startup?
    case WriteCommand => s.collector.Commanding?
    case TakeStack => s.collector.Draining? && s.channel != []
    case Finish => s.collector.Draining? && s.channel == [] && s.closed
    case Cancel => true
    case Abort => s.collector.Startup? && s.cancelled
  }

  function Apply(s: State, step: Step): State
    requires Enabled(s, step)
  {
    match step
    case Read(chunk, last) => s.(reader := Holding(chunk, last), read := s.read + chunk)
    case ReadEnd => s.(reader := Ended, closed := true)
    case Push =>
      s.(channel := s.channel + [s.reader.chunk], reader := if s.reader.last then Closing else Reading)
    case GiveUp => s.(reader := Ended, closed := true)
    case TakeStartup =>
      s.(channel := s.channel[1..], all := s.all + s.channel[0], startup := s.startup + s.channel[0])
    case SeeClosed => s.(collector := Draining)
    case Idle => s.(collector := Commanding, idleFired := true)
    case WriteCommand => s.(collector := Draining, commands := s.commands + 1)
    case TakeStack => s.(channel := s.channel[1..], all := s.all + s.channel[0])
    case Finish => s.(collector := Returned)
    case Cancel => s.(cancelled := true)
    case Abort => s.(collector := Aborted)
  }

  function After(steps: seq<Step>): Option<State> {
    if steps == [] then Some(INIT)
    else match After(steps[..|steps| - 1])
      case None => None
      case Some(s) => if Enabled(s, steps[|steps| - 1]) then Some(Apply(s, steps[|steps| - 1])) else None
  }

  /** The two results: the start-up output, and what came after it. */
  function StackOutput(s: State): string {
    if |s.startup| < |s.all| then s.all[|s.startup|..] else ""
  }

  ghost predicate Inv(s: State) {
    && (!s.cancelled ==> s.all + Waiting(s) == s.read)
    && |s.channel| <= 32 && (forall k | 0 <= k < |s.channel| :: s.channel[k] != "")
    && (s.reader.Holding? ==> s.reader.chunk != "")
    && (s.reader.Ended? <==> s.closed)
    && s.startup <= s.all
    && (s.collector.Startup? ==> s.startup == s.all && s.commands == 0 && !s.idleFired)
    && (s.collector.Commanding? ==> s.startup == s.all && s.commands == 0 && s.idleFired)
    && s.commands <= 1 && (s.commands == 1 ==> s.idleFired)
    && (s.collector.Returned? ==> s.channel == [] && s.closed)
    && (s.collector.Draining? && !s.idleFired ==> s.channel == [] && s.closed && s.startup == s.all)
    && ((s.collector.Draining? || s.collector.Returned?) && s.idleFired ==> s.commands == 1)
    && (s.collector.Returned? && !s.idleFired ==> s.startup == s.all)
  }

  lemma {:induction false} FlattenLast(chunks: seq<Chunk>, last: Chunk)
    ensures Flatten(chunks + [last]) == Flatten(chunks) + last
  {
    if chunks == [] {
      assert chunks + [last] == [last];
    } else {
      FlattenLast(chunks[1..], last);
      assert (chunks + [last])[1..] == chunks[1..] + [last];
      assert chunks[0] + (Flatten(chunks[1..]) + last) == chunks[0] + Flatten(chunks[1..]) + last;
    }
  }

  /** The bytes between pipe and collector stay in order: a step takes from one end and adds at the other. */
  lemma BytesKept(s: State, step: Step)
    requires Inv(s) && Enabled(s, step) && !Apply(s, step).cancelled
    ensures Apply(s, step).all + Waiting(Apply(s, step)) == Apply(s, step).read
  {
    match step
    case Read(chunk, _) =>
      assert s.all + (Flatten(s.channel) + chunk) == s.all + (Flatten(s.channel) + "") + chunk;
    case Push =>
      FlattenLast(s.channel, s.reader.chunk);
      assert Flatten(s.channel) + s.reader.chunk + "" == Flatten(s.channel) + s.reader.chunk;
    case TakeStartup => Taken(s);
    case TakeStack => Taken(s);
    case _ =>
  }

  lemma Taken(s: State)
    requires s.channel != []
    ensures s.all + s.channel[0] + (Flatten(s.channel[1..]) + Held(s.reader)) == s.all + Waiting(s)
  {
    var c, rest, held := s.channel[0], Flatten(s.channel[1..]), Held(s.reader);
    assert s.all + c + (rest + held) == s.all + (c + rest + held);
  }

  lemma StepKeeps(s: State, step: Step)
    requires Inv(s) && Enabled(s, step)
    ensures Inv(Apply(s, step))
  {
    if !Apply(s, step).cancelled {
      BytesKept(s, step);
    }
    hide Flatten;
    match step
    case TakeStartup =>
    case TakeStack =>
      assert s.startup <= s.all + s.channel[0];
    case _ =>
  }

  lemma {:induction false} Safety(steps: seq<Step>)
    ensures After(steps).Some? ==> Inv(After(steps).value)
  {
    hide Enabled, Apply, Inv;
    if steps == [] {
      InitKept();
    } else if After(steps).Some? {
      Safety(steps[..|steps| - 1]);
      StepKeeps(After(steps[..|steps| - 1]).value, steps[|steps| - 1]);
    }
  }

  lemma InitKept()
    ensures Inv(INIT)
  {}

  // ----- what that means

  /**
   A capture that ends without cancellation returns exactly the bytes read from the pipe, in order; all of
   them as start-up output when no command was written.
   */
  lemma CaptureIsExact(steps: seq<Step>)
    requires After(steps).Some? && After(steps).value.collector.Returned? && !After(steps).value.cancelled
    ensures var s := After(steps).value;
            && s.startup + StackOutput(s) == s.read
            && (s.commands == 0 ==> StackOutput(s) == "")
  {
    hide After;
    Safety(steps);
    var s := After(steps).value;
    assert Waiting(s) == "";
    assert s.startup + s.all[|s.startup|..] == s.all;
    assert s.all + "" == s.all;
  }

  /** "bt all" is written at most once, and never but after an idle timeout. */
  lemma CommandOnce(steps: seq<Step>)
    requires After(steps).Some?
    ensures After(steps).value.commands <= 1
    ensures After(steps).value.commands > 0 ==> After(steps).value.idleFired
  {
    hide After;
    Safety(steps);
  }

  /** `s` comes after the command was written in state `was`. */
  ghost predicate Since(was: State, s: State) {
    && s.startup == was.startup && was.read <= s.read
    && (s.collector.Draining? || s.collector.Returned?)
    && (was.cancelled ==> s.cancelled)
  }

  lemma SinceKept(was: State, s: State, step: Step)
    requires Since(was, s) && Enabled(s, step)
    ensures Since(was, Apply(s, step))
  {}

  lemma {:induction false} SinceCommand(before: seq<Step>, after: seq<Step>)
    requires After(before + [WriteCommand] + after).Some?
    ensures After(before).Some? && After(before).value.collector.Commanding?
    ensures Since(After(before).value, After(before + [WriteCommand] + after).value)
  {
    var steps := before + [WriteCommand] + after;
    if after == [] {
      assert steps == before + [WriteCommand] && steps[..|steps| - 1] == before;
    } else {
      var rest := after[..|after| - 1];
      assert steps[..|steps| - 1] == before + [WriteCommand] + rest;
      SinceCommand(before, rest);
      hide Enabled, Apply, Since;
      SinceKept(After(before).value, After(before + [WriteCommand] + rest).value, after[|after| - 1]);
    }
  }

  lemma {:induction false} FlattenEmpty(chunks: seq<Chunk>)
    requires forall k | 0 <= k < |chunks| :: chunks[k] != ""
    ensures Flatten(chunks) == "" <==> chunks == []
  {
    if chunks != [] {
      assert |Flatten(chunks)| >= |chunks[0]|;
    }
  }

  /**
   Where the two parts meet. Start-up output is what the collector had taken when it wrote the command; what
   was then still on its way from the pipe comes first in the stack part. So all output read before the
   command is start-up output if and only if, at that moment, the channel was empty and the reader held no
   chunk; the idle timeout alone does not see to that.
   */
  lemma CommandSplitsOutput(before: seq<Step>, after: seq<Step>)
    requires After(before + [WriteCommand] + after).Some?
    requires After(before + [WriteCommand] + after).value.collector.Returned?
    requires !After(before + [WriteCommand] + after).value.cancelled
    ensures After(before).Some?
    ensures var was, s := After(before).value, After(before + [WriteCommand] + after).value;
            && s.startup == was.all && Waiting(was) <= StackOutput(s)
            && (s.startup == was.read <==> was.channel == [] && !was.reader.Holding?)
  {
    var steps := before + [WriteCommand] + after;
    SinceCommand(before, after);
    hide After;
    Safety(before);
    CaptureIsExact(steps);
    var was, s := After(before).value, After(steps).value;
    FlattenEmpty(was.channel);
    assert (s.startup + StackOutput(s))[|s.startup|..] == StackOutput(s);
    assert (s.startup + StackOutput(s))[..|was.all + Waiting(was)|] == was.all + Waiting(was);
    assert StackOutput(s)[..|Waiting(was)|] == (was.all + Waiting(was))[|was.all|..];
  }

  lemma Next(before: seq<Step>, step: Step, steps: seq<Step>)
    requires After(before).Some? && Enabled(After(before).value, step) && steps == before + [step]
    ensures After(steps) == Some(Apply(After(before).value, step))
  {
    assert steps[..|steps| - 1] == before;
  }

  lemma EarlyRun()
    ensures var s := After([Read("early", false), Push, Idle, WriteCommand]);
            && s.Some? && !s.value.cancelled && s.value.collector.Draining? && s.value.reader.Reading?
            && s.value.startup == s.value.all == "" && s.value.channel == ["early"]
  {
    var steps := [Read("early", false), Push, Idle, WriteCommand];
    assert After([]) == Some(INIT);
    hide After;
    Next([], steps[0], steps[..1]);
    Next(steps[..1], steps[1], steps[..2]);
    Next(steps[..2], steps[2], steps[..3]);
    Next(steps[..3], steps[3], steps);
  }

  /** A run in which the timeout wins over a waiting chunk: output from before the command, in the stack part. */
  lemma EarlyOutputInStackPart()
    ensures var s := After([Read("early", false), Push, Idle, WriteCommand, TakeStack, ReadEnd, Finish]);
            s.Some? && !s.value.cancelled && s.value.startup == "" && StackOutput(s.value) == "early"
  {
    var steps := [Read("early", false), Push, Idle, WriteCommand, TakeStack, ReadEnd, Finish];
    EarlyRun();
    assert steps[..4] == [Read("early", false), Push, Idle, WriteCommand];
    hide After;
    Next(steps[..4], steps[4], steps[..5]);
    Next(steps[..5], steps[5], steps[..6]);
    Next(steps[..6], steps[6], steps);
  }
  // ----- captures that there can be

  /** Unless the collector is done, someone has a step that brings the capture on. */
  lemma NobodyStuck(steps: seq<Step>) returns (step: Step)
    requires After(steps).Some?
    requires !After(steps).value.collector.Returned? && !After(steps).value.collector.Aborted?
    ensures Enabled(After(steps).value, step) && !step.Cancel? && !step.GiveUp? && !step.Abort? && !step.Idle?
  {
    hide After;
    Safety(steps);
    var s := After(steps).value;
    if s.collector.Commanding? {
      step := WriteCommand;
    } else if s.channel != [] {
      step := if s.collector.Startup? then TakeStartup else TakeStack;
    } else {
      match s.reader
      case Reading => step := ReadEnd;
      case Holding(_, _) => step := Push;
      case Closing => step := ReadEnd;
      case Ended => step := if s.collector.Startup? then SeeClosed else Finish;
    }
  }
  /** After a cancellation the reader need not deliver what it holds, and a capture that has not yet got to its
      command ends with what it has. */
  lemma CancelledEnds(s: State)
    requires s.cancelled
    ensures s.reader.Holding? ==> Enabled(s, GiveUp) && Apply(s, GiveUp).closed
    ensures s.collector.Startup? ==>
              Enabled(s, Abort) && Apply(s, Abort).collector.Aborted? && Apply(s, Abort).startup == s.startup
  {}

  /** A chunk waits for the channel only while that is full. */
  lemma PushWaits(s: State)
    requires s.reader.Holding?
    ensures Enabled(s, Push) <==> |s.channel| < 32
  {}

  /** Without one it does neither. */
  lemma NothingLostUncancelled(s: State, step: Step)
    requires !s.cancelled && Enabled(s, step)
    ensures !step.GiveUp? && !step.Abort?
  {}

  predicate IsChunk(c: Chunk) {
    0 < |c| <= 4096
  }

  /** Each chunk is read, passed on and taken. */
  function TakeAll(chunks: seq<Chunk>, take: Step): seq<Step> {
    if chunks == [] then []
    else TakeAll(chunks[..|chunks| - 1], take) + [Read(chunks[|chunks| - 1], false)] + [Push] + [take]
  }

  /** Nothing is on its way, and the collector takes what comes. */
  predicate Takes(s: State, take: Step) {
    && s.reader.Reading? && s.channel == []
    && ((take == TakeStartup && s.collector.Startup?) || (take == TakeStack && s.collector.Draining?))
  }

  /** The states before and after these chunks were taken. */
  predicate Took(s: State, after: State, chunks: seq<Chunk>, take: Step) {
    && Takes(after, take) && after.cancelled == s.cancelled && after.closed == s.closed
    && after.commands == s.commands && after.idleFired == s.idleFired
    && after.all == s.all + Flatten(chunks)
    && after.startup == if take == TakeStartup then s.startup + Flatten(chunks) else s.startup
  }

  lemma OneTaken(before: seq<Step>, c: Chunk, take: Step)
    requires After(before).Some? && Takes(After(before).value, take) && IsChunk(c)
    ensures var after := After(before + [Read(c, false)] + [Push] + [take]);
            after.Some? && Took(After(before).value, after.value, [c], take)
  {
    hide After;
    Next(before, Read(c, false), before + [Read(c, false)]);
    Next(before + [Read(c, false)], Push, before + [Read(c, false)] + [Push]);
    var s := After(before + [Read(c, false)] + [Push]).value;
    assert s.channel == [c];
    Next(before + [Read(c, false)] + [Push], take, before + [Read(c, false)] + [Push] + [take]);
    assert s.channel[1..] == [];
    FlattenOne(c);
  }

  lemma TookMore(s: State, mid: State, after: State, init: seq<Chunk>, c: Chunk, take: Step)
    requires Took(s, mid, init, take) && Took(mid, after, [c], take)
    ensures Took(s, after, init + [c], take)
  {
    hide Flatten, Takes;
    FlattenLast(init, c);
    FlattenOne(c);
    Regroup(s.all, Flatten(init), c);
    Regroup(s.startup, Flatten(init), c);
  }

  lemma FlattenOne(c: Chunk)
    ensures Flatten([c]) == c
  {}

  lemma Regroup(a: string, b: string, c: string)
    ensures a + b + c == a + (b + c)
  {}

  lemma {:induction false} AllTaken(before: seq<Step>, chunks: seq<Chunk>, take: Step)
    requires After(before).Some? && Takes(After(before).value, take)
    requires forall k | 0 <= k < |chunks| :: IsChunk(chunks[k])
    ensures var after := After(before + TakeAll(chunks, take));
            after.Some? && Took(After(before).value, after.value, chunks, take)
    decreases |chunks|
  {
    hide After, IsChunk;
    if chunks == [] {
      assert before + TakeAll(chunks, take) == before;
      assert After(before).value.all + "" == After(before).value.all;
      assert After(before).value.startup + "" == After(before).value.startup;
    } else {
      hide Took, Takes;
      var init, c := chunks[..|chunks| - 1], chunks[|chunks| - 1];
      AllTaken(before, init, take);
      var run := before + TakeAll(init, take);
      TookTakes(After(before).value, After(run).value, init, take);
      OneTaken(run, c, take);
      assert before + TakeAll(chunks, take) == run + [Read(c, false)] + [Push] + [take];
      assert chunks == init + [c];
      TookMore(After(before).value, After(run).value, After(before + TakeAll(chunks, take)).value, init, c, take);
    }
  }

  lemma TookTakes(s: State, after: State, chunks: seq<Chunk>, take: Step)
    requires Took(s, after, chunks, take)
    ensures Takes(after, take)
  {}

  function SplitRun(first: seq<Chunk>, second: seq<Chunk>): seq<Step> {
    TakeAll(first, TakeStartup) + [Idle] + [WriteCommand] + TakeAll(second, TakeStack) + [ReadEnd] + [Finish]
  }

  /** Any output before the command and any after it can be told apart: there is a capture that returns just these. */
  lemma CaptureCanSplit(first: seq<Chunk>, second: seq<Chunk>)
    requires (forall k | 0 <= k < |first| :: IsChunk(first[k])) && forall k | 0 <= k < |second| :: IsChunk(second[k])
    ensures var s := After(SplitRun(first, second));
            && s.Some? && s.value.collector.Returned? && !s.value.cancelled
            && s.value.startup == Flatten(first) && StackOutput(s.value) == Flatten(second)
  {
    assert After([]) == Some(INIT);
    hide After;
    AllTaken([], first, TakeStartup);
    var a := TakeAll(first, TakeStartup);
    assert [] + a == a && "" + Flatten(first) == Flatten(first);
    Next(a, Idle, a + [Idle]);
    Next(a + [Idle], WriteCommand, a + [Idle] + [WriteCommand]);
    AllTaken(a + [Idle] + [WriteCommand], second, TakeStack);
    var b := a + [Idle] + [WriteCommand] + TakeAll(second, TakeStack);
    Next(b, ReadEnd, b + [ReadEnd]);
    Next(b + [ReadEnd], Finish, b + [ReadEnd] + [Finish]);
    assert (Flatten(first) + Flatten(second))[|Flatten(first)|..] == Flatten(second);
  }

  /** A debugger that ends before the timeout is never sent a command, and all its output is start-up output. */
  lemma CaptureWithoutCommand(first: seq<Chunk>)
    requires forall k | 0 <= k < |first| :: IsChunk(first[k])
    ensures var s := After(TakeAll(first, TakeStartup) + [ReadEnd] + [SeeClosed] + [Finish]);
            && s.Some? && s.value.collector.Returned? && s.value.commands == 0
            && s.value.startup == Flatten(first) && StackOutput(s.value) == ""
  {
    assert After([]) == Some(INIT);
    hide After;
    AllTaken([], first, TakeStartup);
    var a := TakeAll(first, TakeStartup);
    assert [] + a == a && "" + Flatten(first) == Flatten(first);
    Safety(a);
    Next(a, ReadEnd, a + [ReadEnd]);
    Next(a + [ReadEnd], SeeClosed, a + [ReadEnd] + [SeeClosed]);
    Next(a + [ReadEnd] + [SeeClosed], Finish, a + [ReadEnd] + [SeeClosed] + [Finish]);
  }
}
