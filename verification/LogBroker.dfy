/**
 internal/debugadmin/log_broker.go under every interleaving of goroutines: a state machine whose steps
 are the lock operations, the map and channel operations between them, and receives.

 Each message carries its broadcaster and a number, so that deliveries can be told apart. Channels keep
 a record of what they ever accepted, handed out and turned away; the program has no such record.
 */
module LogBroker {
  import opened Options

  const CAPACITY := 256

  type Tid = nat

  /** The n-th message of a goroutine. */
  datatype Item = Item(sender: Tid, no: nat, text: string)

  datatype Channel = Channel(
    buffer: seq<Item>, closed: bool, accepted: seq<Item>, received: seq<Item>, dropped: set<Item>)

  const NEW_CHANNEL := Channel([], false, [], [], {})

  /** Where a goroutine is. All but Idle hold the lock: Broadcasting for reading, the others for writing. */
  datatype Pc =
    | Idle
    | Subscribing
    | Registered(id: nat)
    | Cancelling(id: nat)
    | Closing(id: nat)
    | Cancelled(id: nat)
    | Broadcasting(item: Item, todo: set<nat>)

  /** Client ids name their channels; `sent` counts the broadcasts a goroutine has begun. */
  datatype State = State(
    writer: Option<Tid>, readers: set<Tid>, pcs: map<Tid, Pc>,
    nextId: nat, clients: set<nat>, channels: map<nat, Channel>,
    sent: map<Tid, nat>, panicked: bool)
  {
    function Pc(t: Tid): Pc {
      if t in pcs then pcs[t] else Idle
    }

    function Sent(t: Tid): nat {
      if t in sent then sent[t] else 0
    }

    function At(t: Tid, pc: Pc): State {
      this.(pcs := pcs[t := pc])
    }
  }

  const INIT := State(None, {}, map[], 0, {}, map[], map[], false)

  datatype Step =
    | LockToSubscribe(t: Tid)
    | Register(t: Tid)
    | LockToCancel(t: Tid, id: nat)
    | Delete(t: Tid)
    | Close(t: Tid)
    | Unlock(t: Tid)
    | LockToBroadcast(t: Tid, text: string)
    | Send(t: Tid, id: nat)
    | UnlockRead(t: Tid)
    | Receive(id: nat)

  /** sync.RWMutex: a writer alone, or any number of readers. */
  predicate Enabled(s: State, step: Step) {
    !s.panicked &&
    match step
    case LockToSubscribe(t) => s.Pc(t).Idle? && s.writer == None && s.readers == {}
    case Register(t) => s.Pc(t).Subscribing?
    case LockToCancel(t, id) => s.Pc(t).Idle? && s.writer == None && s.readers == {} && id < s.nextId
    case Delete(t) => s.Pc(t).Cancelling?
    case Close(t) => s.Pc(t).Closing?
    case Unlock(t) => s.Pc(t).Registered? || s.Pc(t).Cancelled?
    case LockToBroadcast(t, _) => s.Pc(t).Idle? && s.writer == None
    case Send(t, id) => s.Pc(t).Broadcasting? && id in s.Pc(t).todo && id in s.channels
    case UnlockRead(t) => s.Pc(t).Broadcasting? && s.Pc(t).todo == {}
    case Receive(id) => id in s.channels && s.channels[id].buffer != []
  }

  /** select { case ch <- message: default: } on an open channel. */
  function Offer(c: Channel, item: Item): Channel {
    if |c.buffer| < CAPACITY then c.(buffer := c.buffer + [item], accepted := c.accepted + [item])
    else c.(dropped := c.dropped + {item})
  }

  function Apply(s: State, step: Step): State
    requires Enabled(s, step)
  {
    match step
    case LockToSubscribe(t) => s.(writer := Some(t)).At(t, Subscribing)
    case Register(t) =>
      s.(nextId := s.nextId + 1, clients := s.clients + {s.nextId}, channels := s.channels[s.nextId := NEW_CHANNEL])
      .At(t, Registered(s.nextId))
    case LockToCancel(t, id) => s.(writer := Some(t)).At(t, Cancelling(id))
    case Delete(t) =>
      var id := s.Pc(t).id;
      if id in s.clients then s.(clients := s.clients - {id}).At(t, Closing(id)) else s.At(t, Cancelled(id))
    case Close(t) =>
      var id := s.Pc(t).id;
      if id !in s.channels || s.channels[id].closed then s.(panicked := true)
      else s.(channels := s.channels[id := s.channels[id].(closed := true)]).At(t, Cancelled(id))
    case Unlock(t) => s.(writer := None).At(t, Idle)
    case LockToBroadcast(t, text) =>
      s.(readers := s.readers + {t}, sent := s.sent[t := s.Sent(t) + 1])
      .At(t, Broadcasting(Item(t, s.Sent(t), text), s.clients))
    case Send(t, id) =>
      if s.channels[id].closed then s.(panicked := true)
      else s.(channels := s.channels[id := Offer(s.channels[id], s.Pc(t).item)])
           .At(t, s.Pc(t).(todo := s.Pc(t).todo - {id}))
    case UnlockRead(t) => s.(readers := s.readers - {t}).At(t, Idle)
    case Receive(id) =>
      var c := s.channels[id];
      s.(channels := s.channels[id := c.(buffer := c.buffer[1..], received := c.received + [c.buffer[0]])])
  }

  /** The state after a run, if every step of it is possible. */
  function After(steps: seq<Step>): Option<State> {
    if steps == [] then Some(INIT)
    else match After(steps[..|steps| - 1])
      case None => None
      case Some(s) => if Enabled(s, steps[|steps| - 1]) then Some(Apply(s, steps[|steps| - 1])) else None
  }

  // ----- what every run keeps

  predicate HoldsWrite(pc: Pc) {
    !pc.Idle? && !pc.Broadcasting?
  }

  /** The lock is held by whom it says. */
  ghost predicate LockInv(s: State) {
    && (forall t: Tid :: HoldsWrite(s.Pc(t)) <==> s.writer == Some(t))
    && (forall t: Tid :: s.Pc(t).Broadcasting? <==> t in s.readers)
    && (s.writer.Some? ==> s.readers == {})
  }

  /** A client's channel is open, and one that is about to be closed is open and nobody's. */
  ghost predicate ClientInv(s: State) {
    && (forall id <- s.clients :: id in s.channels)
    && (forall id <- s.channels :: id < s.nextId)
    && (forall id <- s.channels :: id in s.clients ==> !s.channels[id].closed)
    && (forall t: Tid :: s.Pc(t).Closing? ==>
          s.Pc(t).id in s.channels && s.Pc(t).id !in s.clients && !s.channels[s.Pc(t).id].closed)
  }

  /** What a broadcast under way has left to do, and what it has done. */
  ghost predicate BroadcastInv(s: State) {
    forall t: Tid :: s.Pc(t).Broadcasting? ==> BroadcastAt(s, t, s.Pc(t).item, s.Pc(t).todo)
  }

  ghost predicate BroadcastAt(s: State, t: Tid, item: Item, todo: set<nat>) {
    && item.sender == t && item.no + 1 == s.Sent(t)
    && (forall id <- todo :: id in s.clients)
    && (forall id <- todo :: id in s.channels ==> AllBefore(s.channels[id].accepted, item))
    && (forall id <- s.clients :: id in s.channels && id !in todo ==> Offered(s.channels[id], item))
  }

  /** The channel has only earlier messages of the item's sender. */
  ghost predicate AllBefore(items: seq<Item>, item: Item) {
    forall x <- items :: x.sender == item.sender ==> x.no < item.no
  }

  /** The channel took the item, or turned it away. */
  predicate Offered(c: Channel, item: Item) {
    item in c.accepted || item in c.dropped
  }

  /** First in, first out; each goroutine's messages in its own order, so none twice. */
  ghost predicate ChannelInv(s: State) {
    forall id <- s.channels :: ChannelOk(s, s.channels[id])
  }

  ghost predicate ChannelOk(s: State, c: Channel) {
    && c.accepted == c.received + c.buffer
    && |c.buffer| <= CAPACITY
    && InOrder(c.accepted)
    && forall item <- c.accepted :: item.no < s.Sent(item.sender)
  }

  ghost predicate InOrder(items: seq<Item>) {
    forall i, j | 0 <= i < j < |items| :: items[i].sender == items[j].sender ==> items[i].no < items[j].no
  }

  /** Only ids that were given out are cancelled, and a cancelled id is no client. */
  ghost predicate CancelInv(s: State) {
    && (forall t: Tid :: s.Pc(t).Cancelling? ==> s.Pc(t).id < s.nextId)
    && (forall t: Tid :: s.Pc(t).Cancelled? ==> s.Pc(t).id < s.nextId && s.Pc(t).id !in s.clients)
  }

  /** The goroutine that has the lock is about to close the channel. */
  predicate AboutToClose(s: State, id: nat) {
    s.writer.Some? && s.Pc(s.writer.value) == Closing(id)
  }

  /** Every id that was given out has its channel, and that of one that is no client is closed, or just about
      to be. */
  ghost predicate ClosedInv(s: State) {
    forall id: nat | id < s.nextId ::
      id in s.channels && (id in s.clients || s.channels[id].closed || AboutToClose(s, id))
  }

  ghost predicate Inv(s: State) {
    && !s.panicked && LockInv(s) && ClientInv(s) && CancelInv(s) && ClosedInv(s) && BroadcastInv(s) && ChannelInv(s)
  }

  lemma OneWriter(s: State, t: Tid, u: Tid)
    requires LockInv(s)
    ensures HoldsWrite(s.Pc(t)) ==> s.writer == Some(t) && s.readers == {}
    ensures HoldsWrite(s.Pc(t)) && HoldsWrite(s.Pc(u)) ==> t == u
  {
    assert HoldsWrite(s.Pc(t)) <==> s.writer == Some(t);
    assert HoldsWrite(s.Pc(u)) <==> s.writer == Some(u);
  }

  lemma LockKept(s: State, step: Step)
    requires Enabled(s, step) && Inv(s)
    ensures LockInv(Apply(s, step))
  {
    hide ClientInv, BroadcastInv, ChannelInv;
  }

  lemma ClientsKept(s: State, step: Step)
    requires Enabled(s, step) && Inv(s)
    ensures ClientInv(Apply(s, step)) && !Apply(s, step).panicked
  {
    hide CancelInv, ClosedInv, ChannelInv;
    var after := Apply(s, step);
    if step.Send? {
      assert BroadcastAt(s, step.t, s.Pc(step.t).item, s.Pc(step.t).todo);
    }
    forall t: Tid | after.Pc(t).Closing?
      ensures after.Pc(t).id in after.channels && after.Pc(t).id !in after.clients
              && !after.channels[after.Pc(t).id].closed
    {
      if !step.Receive? {
        OneWriter(s, step.t, t);
      }
      assert s.Pc(t).Closing? ==> s.Pc(t).id in s.channels;
    }
  }

  lemma CancelsKept(s: State, step: Step)
    requires Enabled(s, step) && Inv(s)
    ensures CancelInv(Apply(s, step))
  {
    hide BroadcastInv, ChannelInv;
    var after := Apply(s, step);
    forall t: Tid
      ensures after.Pc(t).Cancelling? ==> after.Pc(t).id < after.nextId
      ensures after.Pc(t).Cancelled? ==> after.Pc(t).id < after.nextId && after.Pc(t).id !in after.clients
    {
      assert s.Pc(t).Cancelled? ==> s.Pc(t).id !in s.clients;
      assert s.Pc(t).Closing? ==> s.Pc(t).id in s.channels;
    }
  }

  lemma ClosedKept(s: State, step: Step)
    requires Enabled(s, step) && Inv(s)
    ensures ClosedInv(Apply(s, step))
  {
    hide BroadcastInv, ChannelInv, CancelInv;
    var after := Apply(s, step);
    ClientsKept(s, step);
    if !step.Receive? {
      OneWriter(s, step.t, step.t);
    }
    forall id: nat | id < after.nextId
      ensures id in after.channels && (id in after.clients || after.channels[id].closed || AboutToClose(after, id))
    {
      assert id < s.nextId ==> id in s.channels && (id in s.clients || s.channels[id].closed || AboutToClose(s, id));
    }
  }

  lemma ChannelsKept(s: State, step: Step)
    requires Enabled(s, step) && Inv(s)
    ensures ChannelInv(Apply(s, step))
  {
    hide LockInv, ClientInv, CancelInv, ClosedInv, AllBefore, InOrder;
    var after := Apply(s, step);
    NewIsOk(after);
    forall id <- after.channels ensures ChannelOk(after, after.channels[id]) {
      if step.Send? && id == step.id {
        var item := s.Pc(step.t).item;
        assert BroadcastAt(s, step.t, item, s.Pc(step.t).todo);
        AcceptNewest(s, s.channels[id], item);
      } else if id in s.channels {
        assert ChannelOk(s, s.channels[id]);
      }
    }
  }

  lemma NewIsOk(s: State)
    ensures ChannelOk(s, NEW_CHANNEL)
  {}

  /** A goroutine's newest message goes behind all its others. */
  lemma AcceptNewest(s: State, c: Channel, item: Item)
    requires ChannelOk(s, c) && item.no + 1 == s.Sent(item.sender) && AllBefore(c.accepted, item)
    ensures ChannelOk(s, Offer(c, item))
  {
    forall i | 0 <= i < |c.accepted| && c.accepted[i].sender == item.sender ensures c.accepted[i].no < item.no {
      assert c.accepted[i] in c.accepted;
    }
  }

  lemma BroadcastsKept(s: State, step: Step)
    requires Enabled(s, step) && Inv(s)
    ensures BroadcastInv(Apply(s, step))
  {
    hide CancelInv, ClosedInv;
    var after := Apply(s, step);
    forall t: Tid | after.Pc(t).Broadcasting? ensures BroadcastAt(after, t, after.Pc(t).item, after.Pc(t).todo) {
      if s.Pc(t).Broadcasting? {
        assert BroadcastAt(s, t, s.Pc(t).item, s.Pc(t).todo);
      }
    }
  }

  /** Safety: no run panics, and every run keeps the invariant. */
  lemma {:induction false} Safety(steps: seq<Step>)
    ensures After(steps).Some? ==> Inv(After(steps).value)
  {
    hide LockInv, ClientInv, CancelInv, ClosedInv, BroadcastInv, ChannelInv, Enabled, Apply;
    if steps == [] {
      InitKept();
    } else if After(steps).Some? {
      var init, step := steps[..|steps| - 1], steps[|steps| - 1];
      Safety(init);
      var s := After(init).value;
      LockKept(s, step);
      ClientsKept(s, step);
      CancelsKept(s, step);
      ClosedKept(s, step);
      BroadcastsKept(s, step);
      ChannelsKept(s, step);
    }
  }

  lemma InitKept()
    ensures Inv(INIT)
  {}

  // ----- what that means

  /** No send ever meets a closed channel, and no channel is closed twice. */
  lemma NoPanic(steps: seq<Step>)
    ensures After(steps).Some? ==> !After(steps).value.panicked
  {
    hide After;
    Safety(steps);
  }

  /**
   What a subscriber has been handed is the start of what its channel took; no message is among it
   twice, and each broadcaster's messages are in the order in which it broadcast them.
   */
  lemma SubscriberSees(steps: seq<Step>, id: nat)
    requires After(steps).Some? && id in After(steps).value.channels
    ensures var c := After(steps).value.channels[id];
            && c.received <= c.accepted && InOrder(c.received)
            && forall i, j | 0 <= i < j < |c.received| :: c.received[i] != c.received[j]
  {
    hide After, LockInv, ClientInv, BroadcastInv;
    Safety(steps);
    var s := After(steps).value;
    var c := s.channels[id];
    assert ChannelOk(s, c);
    assert forall i | 0 <= i < |c.received| :: c.received[i] == c.accepted[i];
  }

  /** While a message is being broadcast the set of clients stays what it was. */
  lemma ClientsFrozen(s: State, step: Step)
    requires Inv(s) && Enabled(s, step) && s.readers != {}
    ensures Apply(s, step).clients == s.clients
  {
    hide ClientInv, BroadcastInv, ChannelInv;
    if !step.Receive? {
      OneWriter(s, step.t, step.t);
    }
  }

  /** When a broadcast is over, every client's channel has taken the message or turned it away. */
  lemma BroadcastReachesAll(steps: seq<Step>, t: Tid)
    requires After(steps).Some? && Enabled(After(steps).value, UnlockRead(t))
    ensures var s := After(steps).value;
            forall id <- s.clients :: id in s.channels && Offered(s.channels[id], s.Pc(t).item)
  {
    hide After, LockInv, ChannelInv;
    Safety(steps);
    var s := After(steps).value;
    assert BroadcastAt(s, t, s.Pc(t).item, s.Pc(t).todo);
  }

  /** A message is turned away only at a step that finds the buffer full, and then it is not taken. */
  lemma DroppedOnlyWhenFull(s: State, step: Step, id: nat, item: Item)
    requires Enabled(s, step) && id in s.channels && id in Apply(s, step).channels && Inv(s)
    requires item in Apply(s, step).channels[id].dropped && item !in s.channels[id].dropped
    ensures step == Send(item.sender, id) && |s.channels[id].buffer| == 256
    ensures Apply(s, step).channels[id].accepted == s.channels[id].accepted
  {
    hide LockInv;
    assert s.nextId !in s.channels;
    if step.Send? {
      assert BroadcastAt(s, step.t, s.Pc(step.t).item, s.Pc(step.t).todo);
    }
    assert ChannelOk(s, s.channels[id]);
  }

  /** Over a whole run: whatever a channel has turned away met a full buffer at some step. */
  lemma {:induction false} DroppedMeansFull(steps: seq<Step>, id: nat, item: Item) returns (k: nat)
    requires After(steps).Some? && id in After(steps).value.channels && item in After(steps).value.channels[id].dropped
    ensures k < |steps| && steps[k] == Send(item.sender, id)
    ensures After(steps[..k]).Some? && id in After(steps[..k]).value.channels
    ensures |After(steps[..k]).value.channels[id].buffer| == 256
  {
    hide Enabled, Apply, Inv;
    var init, step := steps[..|steps| - 1], steps[|steps| - 1];
    var s := After(init).value;
    Safety(init);
    if id in s.channels && item in s.channels[id].dropped {
      k := DroppedMeansFull(init, id, item);
      assert steps[..k] == init[..k];
    } else {
      NewlyDropped(s, step, id, item);
      DroppedOnlyWhenFull(s, step, id, item);
      k := |steps| - 1;
    }
  }

  lemma NewlyDropped(s: State, step: Step, id: nat, item: Item)
    requires Inv(s) && Enabled(s, step) && id in Apply(s, step).channels && item in Apply(s, step).channels[id].dropped
    requires !(id in s.channels && item in s.channels[id].dropped)
    ensures id in s.channels
  {
    hide LockInv, BroadcastInv, ChannelInv;
  }
  // ----- over whole runs

  lemma {:induction false} PrefixRuns(steps: seq<Step>, k: nat)
    requires After(steps).Some? && k <= |steps|
    ensures After(steps[..k]).Some?
  {
    hide Enabled, Apply;
    if k == |steps| {
      assert steps[..k] == steps;
    } else {
      PrefixRuns(steps[..|steps| - 1], k);
      assert steps[..|steps| - 1][..k] == steps[..k];
    }
  }

  /** The state before step k of a run. */
  ghost function StateAt(steps: seq<Step>, k: nat): State
    requires After(steps).Some? && k <= |steps|
  {
    PrefixRuns(steps, k);
    After(steps[..k]).value
  }

  lemma OneStep(steps: seq<Step>, k: nat)
    requires After(steps).Some? && k < |steps|
    ensures Inv(StateAt(steps, k)) && Enabled(StateAt(steps, k), steps[k])
    ensures StateAt(steps, k + 1) == Apply(StateAt(steps, k), steps[k])
  {
    hide Enabled, Apply, Inv;
    PrefixRuns(steps, k);
    PrefixRuns(steps, k + 1);
    Safety(steps[..k]);
    assert steps[..k + 1][..k] == steps[..k];
  }

  ghost predicate Has(s: State, id: nat, item: Item) {
    id in s.channels && item in s.channels[id].accepted
  }

  lemma StaysAccepted(s: State, step: Step, id: nat, item: Item)
    requires Inv(s) && Enabled(s, step) && Has(s, id, item)
    ensures Has(Apply(s, step), id, item)
  {
    hide LockInv, CancelInv, BroadcastInv, ChannelInv;
  }

  lemma {:induction false} AcceptedForGood(steps: seq<Step>, k: nat, n: nat, id: nat, item: Item)
    requires After(steps).Some? && k <= n <= |steps| && Has(StateAt(steps, k), id, item)
    ensures Has(StateAt(steps, n), id, item)
  {
    hide Enabled, Apply, Inv, StateAt, Has;
    if k < n {
      AcceptedForGood(steps, k, n - 1, id, item);
      OneStep(steps, n - 1);
      StaysAccepted(StateAt(steps, n - 1), steps[n - 1], id, item);
    }
  }

  /** Goroutine t is broadcasting the item, and the client is still to get it, or has it. */
  ghost predicate UnderWay(s: State, t: Tid, item: Item, id: nat) {
    && s.Pc(t).Broadcasting? && s.Pc(t).item == item && id in s.channels
    && (id in s.Pc(t).todo || Has(s, id, item))
  }

  /** The channel was full at this step of the broadcast. */
  ghost predicate MetFull(s: State, step: Step, t: Tid, id: nat) {
    step == Send(t, id) && id in s.channels && |s.channels[id].buffer| == 256
  }

  lemma BroadcastStep(s: State, step: Step, t: Tid, item: Item, id: nat)
    requires Inv(s) && Enabled(s, step) && UnderWay(s, t, item, id) && step != UnlockRead(t)
    ensures UnderWay(Apply(s, step), t, item, id) || MetFull(s, step, t, id)
  {
    hide CancelInv, BroadcastInv;
    assert !HoldsWrite(s.Pc(t));
    assert ChannelOk(s, s.channels[id]);
    if Has(s, id, item) {
      StaysAccepted(s, step, id, item);
    }
    assert id < s.nextId;
  }

  lemma {:induction false} BroadcastSteps(steps: seq<Step>, k: nat, n: nat, t: Tid, text: string, id: nat)
    requires After(steps).Some? && k < n <= |steps| && steps[k] == LockToBroadcast(t, text)
    requires (forall j | k < j < n :: steps[j] != UnlockRead(t)) && id in StateAt(steps, k).clients
    ensures UnderWay(StateAt(steps, n), t, Item(t, StateAt(steps, k).Sent(t), text), id)
            || exists j | k < j < n :: MetFull(StateAt(steps, j), steps[j], t, id)
  {
    hide StateAt, Inv, UnderWay, MetFull, Enabled, Apply;
    OneStep(steps, n - 1);
    if n == k + 1 {
      BroadcastBegins(StateAt(steps, k), t, text, id);
    } else {
      BroadcastSteps(steps, k, n - 1, t, text, id);
      var item := Item(t, StateAt(steps, k).Sent(t), text);
      if UnderWay(StateAt(steps, n - 1), t, item, id) {
        BroadcastStep(StateAt(steps, n - 1), steps[n - 1], t, item, id);
      }
    }
  }

  lemma BroadcastBegins(s: State, t: Tid, text: string, id: nat)
    requires Inv(s) && Enabled(s, LockToBroadcast(t, text)) && id in s.clients
    ensures UnderWay(Apply(s, LockToBroadcast(t, text)), t, Item(t, s.Sent(t), text), id)
  {
    hide LockInv, CancelInv, BroadcastInv, ChannelInv;
  }

  /**
   Delivery. A broadcast that locks at step k and unlocks at step m gets its message into the channel of
   every client there was at k, for good, or meets that channel full at one of its sends.
   */
  lemma Delivery(steps: seq<Step>, k: nat, m: nat, t: Tid, text: string, id: nat)
    requires After(steps).Some? && k < m < |steps|
    requires steps[k] == LockToBroadcast(t, text) && steps[m] == UnlockRead(t)
    requires (forall j | k < j < m :: steps[j] != UnlockRead(t)) && id in StateAt(steps, k).clients
    ensures || (forall n | m <= n <= |steps| :: Has(StateAt(steps, n), id, Item(t, StateAt(steps, k).Sent(t), text)))
            || exists j | k < j < m :: MetFull(StateAt(steps, j), steps[j], t, id)
  {
    hide StateAt, Inv, MetFull, Apply, Has;
    var item := Item(t, StateAt(steps, k).Sent(t), text);
    BroadcastSteps(steps, k, m, t, text, id);
    OneStep(steps, m);
    if UnderWay(StateAt(steps, m), t, item, id) {
      forall n | m <= n <= |steps| ensures Has(StateAt(steps, n), id, item) {
        AcceptedForGood(steps, m, n, id, item);
      }
    }
  }

  // ----- closing

  /** In every run: a channel that is no client's, and that nobody is about to close, is closed. */
  lemma ClosedWhenGone(steps: seq<Step>, id: nat)
    requires After(steps).Some? && Gone(After(steps).value, id)
    ensures id in After(steps).value.channels && After(steps).value.channels[id].closed
  {
    hide After, LockInv, ClientInv, CancelInv, BroadcastInv, ChannelInv;
    Safety(steps);
  }

  /** In every run: when a cancel of an id unlocks, the id's channel is closed and stays so. */
  lemma CancelCloses(steps: seq<Step>, k: nat, n: nat, t: Tid, id: nat)
    requires After(steps).Some? && k < n <= |steps|
    requires steps[k] == Unlock(t) && StateAt(steps, k).Pc(t) == Cancelled(id)
    ensures var s := StateAt(steps, n);
            id in s.channels && s.channels[id].closed && id !in s.clients
  {
    hide Enabled, Apply, Inv, StateAt, Gone;
    OneStep(steps, k);
    CancelledIsGone(StateAt(steps, k), t, id);
    GoneForGood(steps, k, n, id);
    PrefixRuns(steps, n);
    StateIs(steps, n);
    ClosedWhenGone(steps[..n], id);
    GoneIs(StateAt(steps, n), id);
  }

  lemma StateIs(steps: seq<Step>, n: nat)
    requires After(steps).Some? && n <= |steps|
    ensures After(steps[..n]) == Some(StateAt(steps, n))
  {
    hide After;
    PrefixRuns(steps, n);
  }

  lemma GoneIs(s: State, id: nat)
    requires Gone(s, id)
    ensures id !in s.clients
  {}

  /** Closing changes nothing of a channel but that it is closed, and what is in it can still be received. */
  lemma ClosingKeepsMessages(s: State, t: Tid, id: nat)
    requires Inv(s) && Enabled(s, Close(t)) && s.Pc(t) == Closing(id)
    ensures var after := Apply(s, Close(t));
            && id in s.channels && id in after.channels
            && !s.channels[id].closed && after.channels[id] == s.channels[id].(closed := true)
            && (s.channels[id].buffer != [] ==> Enabled(after, Receive(id)))
  {
    hide LockInv, CancelInv, ClosedInv, BroadcastInv, ChannelInv;
    assert s.Pc(t).Closing?;
  }

  /** The oldest message waiting is the next one received, whoever has the lock. */
  lemma ReceivesOldest(s: State, id: nat)
    requires Inv(s) && id in s.channels && s.channels[id].buffer != []
    ensures Enabled(s, Receive(id))
    ensures var c, d := s.channels[id], Apply(s, Receive(id)).channels[id];
            d.received == c.received + [c.buffer[0]] && d.accepted == c.accepted && d.buffer == c.buffer[1..]
  {}

  // ----- nobody is stuck

  function ByWhom(step: Step): Option<Tid> {
    if step.Receive? then None else Some(step.t)
  }

  /** A goroutine that is inside has a step to make. */
  lemma NobodyStuck(steps: seq<Step>, t: Tid) returns (step: Step)
    requires After(steps).Some? && !After(steps).value.Pc(t).Idle?
    ensures Enabled(After(steps).value, step) && ByWhom(step) == Some(t)
  {
    hide After, LockInv, CancelInv, ClosedInv, ChannelInv;
    Safety(steps);
    var s := After(steps).value;
    match s.Pc(t)
    case Subscribing => step := Register(t);
    case Registered(_) => step := Unlock(t);
    case Cancelling(_) => step := Delete(t);
    case Closing(_) => step := Close(t);
    case Cancelled(_) => step := Unlock(t);
    case Broadcasting(item, todo) =>
      assert BroadcastAt(s, t, item, todo);
      if todo == {} {
        step := UnlockRead(t);
      } else {
        var id :| id in todo;
        step := Send(t, id);
      }
  }

  /** A goroutine outside may broadcast unless someone is subscribing or cancelling, and may subscribe, or cancel
      what was given out, if nobody is inside at all. */
  lemma MayEnter(steps: seq<Step>, t: Tid, text: string, id: nat)
    requires After(steps).Some? && After(steps).value.Pc(t).Idle?
    ensures var s := After(steps).value;
            && ((forall u: Tid :: !HoldsWrite(s.Pc(u))) <==> Enabled(s, LockToBroadcast(t, text)))
            && ((forall u: Tid :: s.Pc(u).Idle?) <==> Enabled(s, LockToSubscribe(t)))
            && ((forall u: Tid :: s.Pc(u).Idle?) && id < s.nextId <==> Enabled(s, LockToCancel(t, id)))
  {
    hide After, ClientInv, CancelInv, ClosedInv, BroadcastInv, ChannelInv;
    Safety(steps);
    var s := After(steps).value;
    if s.writer.Some? {
      assert HoldsWrite(s.Pc(s.writer.value));
    }
    if s.readers != {} {
      var u :| u in s.readers;
      assert s.Pc(u).Broadcasting?;
    }
    if Enabled(s, LockToBroadcast(t, text)) {
      forall u: Tid ensures !HoldsWrite(s.Pc(u)) {}
    }
    if s.writer == None && s.readers == {} {
      forall u: Tid ensures s.Pc(u).Idle? {
        assert !HoldsWrite(s.Pc(u)) && !s.Pc(u).Broadcasting?;
      }
    }
  }

  /** The id was given out, is no client, and nobody is about to close its channel. */
  ghost predicate Gone(s: State, id: nat) {
    id < s.nextId && id !in s.clients && forall t: Tid :: s.Pc(t) != Closing(id)
  }

  /** A step of some call of the cancel function of an id. */
  predicate OfCancel(s: State, step: Step, id: nat) {
    match step
    case LockToCancel(_, i) => i == id
    case Delete(t) => s.Pc(t) == Cancelling(id)
    case Close(t) => s.Pc(t) == Closing(id)
    case Unlock(t) => s.Pc(t) == Cancelled(id)
    case _ => false
  }

  lemma GoneStays(s: State, step: Step, id: nat)
    requires Enabled(s, step) && Gone(s, id)
    ensures Gone(Apply(s, step), id)
    ensures OfCancel(s, step, id) ==>
              Apply(s, step).clients == s.clients && Apply(s, step).channels == s.channels && !Apply(s, step).panicked
  {
    forall t: Tid ensures Apply(s, step).Pc(t) != Closing(id) {
      assert s.Pc(t) != Closing(id);
    }
  }

  lemma CancelledIsGone(s: State, t: Tid, id: nat)
    requires Inv(s) && s.Pc(t) == Cancelled(id)
    ensures Gone(s, id)
  {
    hide ClientInv, BroadcastInv, ChannelInv;
    forall u: Tid ensures s.Pc(u) != Closing(id) {
      OneWriter(s, t, u);
    }
  }

  lemma {:induction false} GoneForGood(steps: seq<Step>, k: nat, n: nat, id: nat)
    requires After(steps).Some? && k <= n <= |steps| && Gone(StateAt(steps, k), id)
    ensures Gone(StateAt(steps, n), id)
  {
    hide Enabled, Apply, Inv, StateAt, Gone;
    if k < n {
      GoneForGood(steps, k, n - 1, id);
      OneStep(steps, n - 1);
      GoneStays(StateAt(steps, n - 1), steps[n - 1], id);
    }
  }

  /** Cancelling is idempotent: once one cancel of an id has unlocked, no step of any other changes a client
      or a channel, or closes anything. */
  lemma CancelAgain(steps: seq<Step>, k: nat, m: nat, t: Tid, id: nat)
    requires After(steps).Some? && k < m < |steps|
    requires steps[k] == Unlock(t) && StateAt(steps, k).Pc(t) == Cancelled(id)
    requires OfCancel(StateAt(steps, m), steps[m], id)
    ensures StateAt(steps, m + 1).clients == StateAt(steps, m).clients
    ensures StateAt(steps, m + 1).channels == StateAt(steps, m).channels
    ensures id !in StateAt(steps, m).clients
  {
    hide Enabled, Apply, Inv, StateAt, OfCancel;
    OneStep(steps, k);
    CancelledIsGone(StateAt(steps, k), t, id);
    GoneForGood(steps, k, m, id);
    OneStep(steps, m);
    GoneStays(StateAt(steps, m), steps[m], id);
  }
}
