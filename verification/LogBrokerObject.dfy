/**
 internal/debugadmin/log_broker.go as an object: what each critical section does to the broker and its
 channels. Closing a closed channel and sending on one panic; both are preconditions here, and met.

 The object keeps, as a ghost, the run of the protocol in LogBroker that its calls so far make up, and
 always shows the state which that run leads to. What is proved there about all runs holds of the object.
 */
module LogBrokerObject {
  import opened Options
  import opened Sets
  import Protocol = LogBroker

  /** make(chan string, 256), with its queue of messages. */
  class Channel {
    var buffer: seq<string>
    var closed: bool

    constructor ()
      ensures buffer == [] && !closed
    {
      buffer, closed := [], false;
    }

    /** select { case ch <- message: default: } */
    method Offer(message: string)
      requires !closed
      modifies this`buffer
      ensures buffer == After(old(buffer), message)
    {
      if |buffer| < Protocol.CAPACITY {
        buffer := buffer + [message];
      }
    }

    method Close()
      requires !closed
      modifies this`closed
      ensures closed
    {
      closed := true;
    }
  }

  function After(buffer: seq<string>, message: string): seq<string> {
    if |buffer| < Protocol.CAPACITY then buffer + [message] else buffer
  }

  // ----- the object and the protocol

  type Buffers = map<nat, seq<string>>

  function Texts(items: seq<Protocol.Item>): (texts: seq<string>)
    ensures |texts| == |items| && forall i | 0 <= i < |items| :: texts[i] == items[i].text
  {
    seq(|items|, i requires 0 <= i < |items| => items[i].text)
  }

  /** What is in every channel there ever was, and which of them are clients', as in the protocol's state;
      the others are closed. */
  ghost predicate Shows(nextID: nat, buffers: Buffers, open: set<nat>, s: Protocol.State) {
    && nextID == s.nextId && open == s.clients
    && (forall id: nat :: id in buffers <==> id < nextID)
    && forall id <- buffers ::
         id in s.channels && buffers[id] == Texts(s.channels[id].buffer) && (s.channels[id].closed <==> id !in open)
  }

  /** Nobody has the lock. */
  ghost predicate Quiet(s: Protocol.State) {
    s.writer == None && s.readers == {} && forall t: Protocol.Tid :: s.Pc(t).Idle?
  }

  ghost predicate Leads(run: seq<Protocol.Step>, nextID: nat, buffers: Buffers, open: set<nat>) {
    && Protocol.After(run).Some?
    && Quiet(Protocol.After(run).value) && Shows(nextID, buffers, open, Protocol.After(run).value)
  }

  /** In the midst of a broadcast by goroutine t. */
  ghost predicate LeadsInto(
    run: seq<Protocol.Step>, nextID: nat, buffers: Buffers, open: set<nat>, t: Protocol.Tid, message: string,
    todo: set<nat>)
  {
    && Protocol.After(run).Some? && Shows(nextID, buffers, open, Protocol.After(run).value)
    && var s := Protocol.After(run).value;
    && s.writer == None && s.readers == {t}
    && s.Pc(t).Broadcasting? && s.Pc(t).item.text == message && s.Pc(t).todo == todo
    && forall u: Protocol.Tid | u != t :: s.Pc(u).Idle?
  }

  lemma Extend(run: seq<Protocol.Step>, step: Protocol.Step)
    requires Protocol.After(run).Some? && Protocol.Enabled(Protocol.After(run).value, step)
    ensures Protocol.After(run + [step]) == Some(Protocol.Apply(Protocol.After(run).value, step))
  {
    assert (run + [step])[..|run|] == run;
  }

  /** Goroutine t has moved, and no other. */
  lemma OthersIdle(s: Protocol.State, after: Protocol.State, t: Protocol.Tid)
    requires forall u: Protocol.Tid | u != t :: s.Pc(u).Idle?
    requires after.pcs == s.pcs[t := after.Pc(t)]
    ensures forall u: Protocol.Tid | u != t :: after.Pc(u).Idle?
  {
    forall u: Protocol.Tid | u != t ensures after.Pc(u).Idle? {
      assert s.Pc(u).Idle?;
    }
  }

  lemma NothingYet()
    ensures Leads([], 0, map[], {})
  {}

  function SubscribeRun(t: Protocol.Tid): seq<Protocol.Step> {
    [Protocol.LockToSubscribe(t)] + [Protocol.Register(t)] + [Protocol.Unlock(t)]
  }

  lemma Subscribes(run: seq<Protocol.Step>, nextID: nat, buffers: Buffers, open: set<nat>, t: Protocol.Tid)
    requires Leads(run, nextID, buffers, open)
    ensures Leads(run + SubscribeRun(t), nextID + 1, buffers[nextID := []], open + {nextID})
  {
    hide Protocol.After;
    NoPanicSoFar(run);
    var run1 := run + [Protocol.LockToSubscribe(t)];
    var run2 := run1 + [Protocol.Register(t)];
    Extend(run, Protocol.LockToSubscribe(t));
    Extend(run1, Protocol.Register(t));
    Extend(run2, Protocol.Unlock(t));
    assert run + SubscribeRun(t) == run2 + [Protocol.Unlock(t)];
    OthersIdle(Protocol.After(run).value, Protocol.After(run2 + [Protocol.Unlock(t)]).value, t);
  }

  function CancelRun(t: Protocol.Tid, id: nat, isClient: bool): seq<Protocol.Step> {
    [Protocol.LockToCancel(t, id)] + [Protocol.Delete(t)] + (if isClient then [Protocol.Close(t)] else []) +
    [Protocol.Unlock(t)]
  }

  lemma Cancels(run: seq<Protocol.Step>, nextID: nat, buffers: Buffers, open: set<nat>, t: Protocol.Tid, id: nat)
    requires Leads(run, nextID, buffers, open) && id < nextID
    ensures Leads(run + CancelRun(t, id, id in open), nextID, buffers, open - {id})
  {
    hide Protocol.After;
    NoPanicSoFar(run);
    var run1 := run + [Protocol.LockToCancel(t, id)];
    var run2 := run1 + [Protocol.Delete(t)];
    Extend(run, Protocol.LockToCancel(t, id));
    Extend(run1, Protocol.Delete(t));
    if id in open {
      var run3 := run2 + [Protocol.Close(t)];
      Extend(run2, Protocol.Close(t));
      Extend(run3, Protocol.Unlock(t));
      assert run + CancelRun(t, id, true) == run3 + [Protocol.Unlock(t)];
      OthersIdle(Protocol.After(run).value, Protocol.After(run3 + [Protocol.Unlock(t)]).value, t);
    } else {
      Extend(run2, Protocol.Unlock(t));
      assert run + CancelRun(t, id, false) == run2 + [Protocol.Unlock(t)];
      OthersIdle(Protocol.After(run).value, Protocol.After(run2 + [Protocol.Unlock(t)]).value, t);
    }
  }

  lemma NoPanicSoFar(run: seq<Protocol.Step>)
    requires Protocol.After(run).Some?
    ensures !Protocol.After(run).value.panicked
    ensures forall id <- Protocol.After(run).value.clients ::
              id in Protocol.After(run).value.channels && !Protocol.After(run).value.channels[id].closed
  {
    hide Protocol.After, Protocol.LockInv, Protocol.CancelInv, Protocol.ClosedInv, Protocol.BroadcastInv,
      Protocol.ChannelInv;
    Protocol.Safety(run);
  }

  function SendsTo(t: Protocol.Tid, message: string, ids: seq<nat>): seq<Protocol.Step> {
    [Protocol.LockToBroadcast(t, message)] + seq(|ids|, i requires 0 <= i < |ids| => Protocol.Send(t, ids[i]))
  }

  function BroadcastRun(t: Protocol.Tid, message: string, ids: seq<nat>): seq<Protocol.Step> {
    SendsTo(t, message, ids) + [Protocol.UnlockRead(t)]
  }

  /** The buffers when these channels have been sent the message. */
  function Sent(buffers: Buffers, message: string, to: set<nat>): Buffers {
    map id | id in buffers :: if id in to then After(buffers[id], message) else buffers[id]
  }

  lemma BroadcastBegins(
    run: seq<Protocol.Step>, nextID: nat, buffers: Buffers, open: set<nat>, t: Protocol.Tid, message: string)
    requires Leads(run, nextID, buffers, open)
    ensures LeadsInto(run + SendsTo(t, message, []), nextID, Sent(buffers, message, {}), open, t, message, open)
  {
    hide Protocol.After;
    NoPanicSoFar(run);
    Extend(run, Protocol.LockToBroadcast(t, message));
    assert run + SendsTo(t, message, []) == run + [Protocol.LockToBroadcast(t, message)];
    OthersIdle(Protocol.After(run).value, Protocol.After(run + [Protocol.LockToBroadcast(t, message)]).value, t);
    assert Sent(buffers, message, {}) == buffers;
  }

  lemma Sends(
    run: seq<Protocol.Step>, nextID: nat, buffers: Buffers, open: set<nat>, t: Protocol.Tid, message: string,
    ids: seq<nat>, done: set<nat>, id: nat)
    requires LeadsInto(run + SendsTo(t, message, ids), nextID, Sent(buffers, message, done), open, t, message,
                       open - done)
    requires id in open && id !in done && id in buffers
    ensures LeadsInto(run + SendsTo(t, message, ids + [id]), nextID, Sent(buffers, message, done + {id}), open, t,
                      message, open - (done + {id}))
  {
    hide Protocol.After, After;
    var run0, step := run + SendsTo(t, message, ids), Protocol.Send(t, id);
    assert run + SendsTo(t, message, ids + [id]) == run0 + [step];
    NoPanicSoFar(run0);
    Extend(run0, step);
    OthersIdle(Protocol.After(run0).value, Protocol.After(run0 + [step]).value, t);
    OfferedText(Protocol.After(run0).value.channels[id], Protocol.After(run0).value.Pc(t).item);
    assert open - (done + {id}) == (open - done) - {id};
  }

  lemma OfferedText(c: Protocol.Channel, item: Protocol.Item)
    ensures Texts(Protocol.Offer(c, item).buffer) == After(Texts(c.buffer), item.text)
  {}

  lemma BroadcastEnds(
    run: seq<Protocol.Step>, nextID: nat, buffers: Buffers, open: set<nat>, t: Protocol.Tid, message: string,
    ids: seq<nat>)
    requires LeadsInto(run + SendsTo(t, message, ids), nextID, buffers, open, t, message, {})
    ensures Leads(run + BroadcastRun(t, message, ids), nextID, buffers, open)
  {
    hide Protocol.After, After;
    var run0, step := run + SendsTo(t, message, ids), Protocol.UnlockRead(t);
    assert run + BroadcastRun(t, message, ids) == run0 + [step];
    NoPanicSoFar(run0);
    Extend(run0, step);
    OthersIdle(Protocol.After(run0).value, Protocol.After(run0 + [step]).value, t);
  }

  /** Each client once, in some order. */
  ghost predicate InSomeOrder(ids: seq<nat>, all: set<nat>) {
    (forall id :: id in ids <==> id in all) && forall i, j | 0 <= i < j < |ids| :: ids[i] != ids[j]
  }

  function SetOf(ids: seq<nat>): set<nat> {
    set id | id in ids
  }

  lemma {:induction false} SendsAll(
    run: seq<Protocol.Step>, nextID: nat, buffers: Buffers, open: set<nat>, t: Protocol.Tid, message: string,
    ids: seq<nat>, n: nat)
    requires Leads(run, nextID, buffers, open) && InSomeOrder(ids, open) && n <= |ids|
    requires forall id <- open :: id in buffers
    ensures var done := SetOf(ids[..n]);
            LeadsInto(run + SendsTo(t, message, ids[..n]), nextID, Sent(buffers, message, done), open, t, message,
                      open - done)
    decreases n
  {
    hide Leads, LeadsInto, SendsTo, Sent;
    if n == 0 {
      BroadcastBegins(run, nextID, buffers, open, t, message);
      assert ids[..0] == [] && SetOf([]) == {} && open - {} == open;
    } else {
      SendsAll(run, nextID, buffers, open, t, message, ids, n - 1);
      var done := SetOf(ids[..n - 1]);
      assert ids[n - 1] in ids;
      Sends(run, nextID, buffers, open, t, message, ids[..n - 1], done, ids[n - 1]);
      assert ids[..n - 1] + [ids[n - 1]] == ids[..n];
      assert done + {ids[n - 1]} == SetOf(ids[..n]);
    }
  }

  lemma Broadcasts(
    run: seq<Protocol.Step>, nextID: nat, buffers: Buffers, open: set<nat>, t: Protocol.Tid, message: string,
    ids: seq<nat>)
    requires Leads(run, nextID, buffers, open) && InSomeOrder(ids, open) && forall id <- open :: id in buffers
    ensures Leads(run + BroadcastRun(t, message, ids), nextID, Sent(buffers, message, open), open)
  {
    hide Leads, LeadsInto, SendsTo, Sent, BroadcastRun, After;
    SendsAll(run, nextID, buffers, open, t, message, ids, |ids|);
    assert ids[..|ids|] == ids;
    assert SetOf(ids) == open && open - open == {};
    BroadcastEnds(run, nextID, Sent(buffers, message, open), open, t, message, ids);
  }

  class LogBroker {
    var nextID: nat
    var clients: map<nat, Channel>

    /** Every channel that was ever given out, and the run of the protocol so far. */
    ghost var channels: map<nat, Channel>
    ghost var run: seq<Protocol.Step>

    ghost function Contents(): Buffers
      reads this, channels.Values
    {
      map id | id in channels :: channels[id].buffer
    }

    /** Channels of their own; those of clients are open, and all the others closed. */
    ghost predicate Proper()
      reads this, channels.Values
    {
      && (forall id: nat :: id in channels <==> id < nextID)
      && (forall id <- clients :: id in channels && clients[id] == channels[id])
      && (forall id <- channels :: channels[id].closed <==> id !in clients)
      && (forall id, other | id in channels && other in channels && id != other :: channels[id] != channels[other])
    }

    ghost predicate Valid()
      reads this, channels.Values
    {
      Proper() && Leads(run, nextID, Contents(), clients.Keys)
    }

    constructor ()
      ensures Valid() && clients == map[] && nextID == 0 && run == []
    {
      nextID, clients, channels, run := 0, map[], map[], [];
      new;
      NothingYet();
      assert Contents() == map[];
    }

    method Subscribe(ghost t: Protocol.Tid) returns (id: nat, ch: Channel)
      requires Valid()
      modifies this
      ensures Valid() && fresh(ch) && ch.buffer == [] && !ch.closed
      ensures id == old(nextID) && nextID == old(nextID) + 1 && clients == old(clients)[id := ch]
      ensures channels == old(channels)[id := ch] && run == old(run) + SubscribeRun(t)
    {
      hide Leads, SubscribeRun;
      Subscribes(run, nextID, Contents(), clients.Keys, t);
      ghost var was := Contents();
      id := nextID;
      nextID := nextID + 1;
      ch := new Channel();
      clients := clients[id := ch];
      channels := channels[id := ch];
      run := run + SubscribeRun(t);
      assert Contents() == was[id := []];
      assert clients.Keys == old(clients.Keys) + {id};
    }

    /** The function that Subscribe returns for an id; calling it again changes nothing. */
    method Cancel(ghost t: Protocol.Tid, id: nat)
      requires Valid() && id < nextID
      modifies this, clients.Values
      ensures Valid() && nextID == old(nextID) && clients == old(clients) - {id} && channels == old(channels)
      ensures id in channels && channels[id].closed && Contents() == old(Contents())
      ensures run == old(run) + CancelRun(t, id, id in old(clients))
    {
      hide Leads;
      Cancels(run, nextID, Contents(), clients.Keys, t, id);
      if id in clients {
        var client := clients[id];
        clients := clients - {id};
        client.Close();
      }
      run := run + CancelRun(t, id, id in old(clients));
      assert Contents() == old(Contents());
      assert clients.Keys == old(clients.Keys) - {id};
    }

    /** Clients are met in any order; each gets the message once if its buffer has room. */
    method Broadcast(ghost t: Protocol.Tid, message: string) returns (ghost ids: seq<nat>)
      requires Valid()
      modifies this`run, clients.Values
      ensures Valid() && clients == old(clients) && nextID == old(nextID) && channels == old(channels)
      ensures forall id <- clients :: clients[id].buffer == After(old(clients[id].buffer), message)
      ensures forall id <- channels | id !in clients :: channels[id].buffer == old(channels[id].buffer)
      ensures InSomeOrder(ids, clients.Keys) && run == old(run) + BroadcastRun(t, message, ids)
    {
      hide Leads, After, BroadcastRun;
      ghost var was := Contents();
      ids := SendToAll(message);
      Broadcasts(run, nextID, was, clients.Keys, t, message, ids);
      run := run + BroadcastRun(t, message, ids);
      assert Contents() == Sent(was, message, clients.Keys);
    }

    method SendToAll(message: string) returns (ghost ids: seq<nat>)
      requires Proper()
      modifies clients.Values
      ensures Proper() && InSomeOrder(ids, clients.Keys)
      ensures forall id <- clients :: clients[id].buffer == After(old(clients[id].buffer), message)
      ensures forall id <- channels | id !in clients :: channels[id].buffer == old(channels[id].buffer)
    {
      hide After;
      var todo := clients.Keys;
      ids := [];
      while todo != {}
        invariant todo <= clients.Keys && Proper()
        invariant InSomeOrder(ids, clients.Keys - todo)
        invariant forall id <- clients ::
                    clients[id].buffer
                    == if id in todo then old(clients[id].buffer) else After(old(clients[id].buffer), message)
        invariant forall id <- channels | id !in clients :: channels[id].buffer == old(channels[id].buffer)
        decreases todo
      {
        ghost var _ := Element(todo);
        var id :| id in todo;
        clients[id].Offer(message);
        todo, ids := todo - {id}, ids + [id];
      }
    }
  }
}
