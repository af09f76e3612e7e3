/** Status subscribers over IPC. The compositor publishes snapshots and wakes subscribers
    through bounded channels; every subscriber thread drains its channel and then reads the
    current snapshot. The steps of the threads interleave freely, except that a thread that
    holds a lock keeps the others from taking it. */
module Subscribers {
  import opened Collections

  const CAPACITY := 8
  const CONNECTIONS := 32

  /** `ui` is what subscribers are told at once; `serial` numbers the snapshots. */
  datatype Snapshot = Snapshot(ui: nat, counters: nat, serial: nat)

  datatype Phase = Waiting | Draining | Reading | Writing(read: Snapshot) | Gone

  /** `queue` counts the messages in the channel; `written` lists what was written
      to the client's socket. */
  datatype Subscriber = Subscriber(phase: Phase, queue: nat, written: seq<Snapshot>)

  /** The publisher holds the lock of the snapshot unless it is idle, and the lock of the
      list of subscribers while it is sending; `left` are the ones it has not sent to yet. */
  datatype Publisher = Idle | Updated | Sending(left: set<nat>)

  datatype State = State(
    current: Snapshot, publisher: Publisher, listed: set<nat>, subscribers: map<nat, Subscriber>)

  datatype Event =
    | Publish(ui: nat, counters: nat)
    | LockList
    | TrySend(id: nat)
    | Finish
    | Subscribe(id: nat)
    | Wake(id: nat)
    | Heartbeat(id: nat)
    | DrainOne(id: nat)
    | DrainEnd(id: nat)
    | Read(id: nat)
    | Write(id: nat)
    | Disconnect(id: nat)

  predicate At(s: State, id: nat, p: Phase) { id in s.subscribers && s.subscribers[id].phase == p }

  predicate Enabled(s: State, e: Event) {
    match e
    case Publish(_, _) => s.publisher.Idle?
    case LockList => s.publisher.Updated?
    case TrySend(id) => s.publisher.Sending? && id in s.publisher.left && id in s.subscribers
    case Finish => s.publisher == Sending({})
    case Subscribe(id) => id !in s.subscribers && !s.publisher.Sending?
    case Wake(id) => At(s, id, Waiting) && s.subscribers[id].queue > 0
    case Heartbeat(id) => At(s, id, Waiting) && s.subscribers[id].queue == 0
    case DrainOne(id) => At(s, id, Draining) && s.subscribers[id].queue > 0
    case DrainEnd(id) => At(s, id, Draining) && s.subscribers[id].queue == 0
    case Read(id) => At(s, id, Reading) && s.publisher.Idle?
    case Write(id) => id in s.subscribers && s.subscribers[id].phase.Writing?
    case Disconnect(id) => id in s.subscribers && s.subscribers[id].phase.Writing?
  }

  function Put(s: State, id: nat, u: Subscriber): State { s.(subscribers := s.subscribers[id := u]) }

  /** A full channel loses the message but keeps the subscriber. */
  function Sent(u: Subscriber): Subscriber { u.(queue := if u.queue < CAPACITY then u.queue + 1 else u.queue) }

  function Apply(s: State, e: Event): State
    requires Enabled(s, e)
  {
    match e
    case Publish(ui, counters) =>
      s.(current := Snapshot(ui, counters, s.current.serial + 1),
         publisher := if ui != s.current.ui then Updated else Idle)
    case LockList => s.(publisher := Sending(s.listed))
    case TrySend(id) =>
      var left := Sending(s.publisher.left - {id});
      if s.subscribers[id].phase.Gone? then s.(publisher := left, listed := s.listed - {id})
      else Put(s.(publisher := left), id, Sent(s.subscribers[id]))
    case Finish => s.(publisher := Idle)
    case Subscribe(id) => Put(s.(listed := s.listed + {id}), id, Subscriber(Reading, 0, []))
    case Wake(id) => Put(s, id, s.subscribers[id].(phase := Draining, queue := s.subscribers[id].queue - 1))
    case Heartbeat(id) => Put(s, id, s.subscribers[id].(phase := Draining))
    case DrainOne(id) => Put(s, id, s.subscribers[id].(queue := s.subscribers[id].queue - 1))
    case DrainEnd(id) => Put(s, id, s.subscribers[id].(phase := Reading))
    case Read(id) => Put(s, id, s.subscribers[id].(phase := Writing(s.current)))
    case Write(id) =>
      var u := s.subscribers[id];
      Put(s, id, u.(phase := Waiting, written := u.written + [u.phase.read]))
    case Disconnect(id) => Put(s, id, s.subscribers[id].(phase := Gone))
  }

  // ---- what every interleaving keeps ----

  /** A message for this subscriber is still to be sent. */
  predicate Owed(s: State, id: nat) {
    s.publisher.Updated? || (s.publisher.Sending? && id in s.publisher.left)
  }

  function Latest(u: Subscriber): Snapshot
    requires u.phase.Writing? || u.written != []
  {
    if u.phase.Writing? then u.phase.read else u.written[|u.written| - 1]
  }

  /** A subscriber about to wait has the current picture, or a message, or is owed one. */
  predicate Informed(s: State, id: nat, u: Subscriber) {
    u.phase.Waiting? || u.phase.Writing? ==>
      (u.phase.Writing? || u.written != []) && (Latest(u).ui == s.current.ui || u.queue > 0 || Owed(s, id))
  }

  predicate InOrder(s: State, u: Subscriber) {
    && (forall j, k :: 0 <= j < k < |u.written| ==> u.written[j].serial <= u.written[k].serial)
    && (forall k :: 0 <= k < |u.written| ==> u.written[k].serial <= s.current.serial)
    && (u.phase.Writing? ==>
          && u.phase.read.serial <= s.current.serial
          && forall k :: 0 <= k < |u.written| ==> u.written[k].serial <= u.phase.read.serial)
  }

  predicate SubscriberOk(s: State, id: nat)
    requires id in s.subscribers
  {
    var u := s.subscribers[id];
    && u.queue <= CAPACITY
    && (!u.phase.Gone? ==> id in s.listed)
    && Informed(s, id, u) && InOrder(s, u)
  }

  predicate Inv(s: State) {
    && (forall id :: id in s.listed ==> id in s.subscribers)
    && (s.publisher.Sending? ==> s.publisher.left <= s.listed)
    && (forall id :: id in s.subscribers ==> SubscriberOk(s, id))
  }

  lemma PublisherStep(s: State, e: Event)
    requires Inv(s) && Enabled(s, e) && (e.Publish? || e.LockList? || e.TrySend? || e.Finish?)
    ensures Inv(Apply(s, e))
  {
    var t := Apply(s, e);
    forall id | id in t.subscribers
      ensures SubscriberOk(t, id)
    {
      assert SubscriberOk(s, id);
    }
  }

  lemma SubscriberStep(s: State, e: Event)
    requires Inv(s) && Enabled(s, e) && !(e.Publish? || e.LockList? || e.TrySend? || e.Finish?)
    ensures Inv(Apply(s, e))
  {
    var t := Apply(s, e);
    forall id | id in t.subscribers
      ensures SubscriberOk(t, id)
    {
      if id in s.subscribers { assert SubscriberOk(s, id); }
    }
  }

  ghost predicate IsRun(trace: seq<State>) {
    Linked(trace) && trace[0].publisher.Idle? && trace[0].listed == {} && trace[0].subscribers == map[]
  }

  ghost predicate Stepped(s: State, t: State) { exists e :: Enabled(s, e) && t == Apply(s, e) }

  lemma {:induction false} RunKeepsInv(trace: seq<State>, n: nat)
    requires IsRun(trace) && n < |trace|
    ensures Inv(trace[n])
  {
    if n > 0 {
      RunKeepsInv(trace, n - 1);
      assert Stepped(trace[n - 1], trace[n - 1 + 1]);
      var e :| Enabled(trace[n - 1], e) && trace[n] == Apply(trace[n - 1], e);
      if e.Publish? || e.LockList? || e.TrySend? || e.Finish? {
        PublisherStep(trace[n - 1], e);
      } else {
        SubscriberStep(trace[n - 1], e);
      }
    }
  }

  /** No wakeup is lost: a subscriber that waits on an empty channel, while nothing is
      being published, has been sent the current user interface. */
  lemma NoLostWakeup(trace: seq<State>, n: nat, id: nat)
    requires IsRun(trace) && n < |trace| && At(trace[n], id, Waiting)
    requires trace[n].publisher.Idle? && trace[n].subscribers[id].queue == 0
    ensures var u := trace[n].subscribers[id];
            u.written != [] && u.written[|u.written| - 1].ui == trace[n].current.ui
  {
    RunKeepsInv(trace, n);
    assert SubscriberOk(trace[n], id);
  }

  /** A client is sent snapshots in the order in which they were published, and only a
      client that went away is ever dropped from the list. */
  lemma WrittenInOrder(trace: seq<State>, n: nat, id: nat, j: nat, k: nat)
    requires IsRun(trace) && n < |trace| && id in trace[n].subscribers
    ensures var u := trace[n].subscribers[id];
            && (j < k < |u.written| ==> u.written[j].serial <= u.written[k].serial)
            && (!u.phase.Gone? ==> id in trace[n].listed)
  {
    RunKeepsInv(trace, n);
    assert SubscriberOk(trace[n], id);
  }

  /** What the thread of subscriber `id` does next. */
  function OwnStep(s: State, id: nat): Event
    requires id in s.subscribers && !s.subscribers[id].phase.Gone?
  {
    var u := s.subscribers[id];
    match u.phase
    case Waiting => if u.queue > 0 then Wake(id) else Heartbeat(id)
    case Draining => if u.queue > 0 then DrainOne(id) else DrainEnd(id)
    case Reading => Read(id)
    case Writing(_) => Write(id)
  }

  function StepsLeft(u: Subscriber): nat {
    match u.phase
    case Waiting => if u.queue > 0 then u.queue + 4 else 0
    case Draining => u.queue + 3
    case Reading => u.queue * 6 + 2
    case Writing(_) => u.queue * 6 + 1
    case Gone => 0
  }

  ghost predicate Linked(trace: seq<State>) {
    trace != [] && forall k :: 0 <= k < |trace| - 1 ==> Stepped(trace[k], trace[k + 1])
  }

  lemma LinkedFirst(s: State, rest: seq<State>)
    requires Linked(rest) && Stepped(s, rest[0])
    ensures Linked([s] + rest)
  {
    var trace := [s] + rest;
    forall k | 0 <= k < |trace| - 1
      ensures Stepped(trace[k], trace[k + 1])
    {
      if k > 0 { assert trace[k] == rest[k - 1] && trace[k + 1] == rest[k - 1 + 1]; }
    }
  }

  /** The thread's next step is enabled while nothing is published, and leads nearer to its
      waiting on an empty channel. */
  lemma OwnStepAdvances(s: State, id: nat)
    requires s.publisher.Idle? && id in s.subscribers && !s.subscribers[id].phase.Gone?
    requires !(At(s, id, Waiting) && s.subscribers[id].queue == 0)
    ensures var e := OwnStep(s, id);
            && Enabled(s, e) && !(e.Publish? || e.LockList? || e.TrySend? || e.Finish?)
            && Apply(s, e).current == s.current && Apply(s, e).publisher.Idle?
            && id in Apply(s, e).subscribers && !Apply(s, e).subscribers[id].phase.Gone?
            && StepsLeft(Apply(s, e).subscribers[id]) < StepsLeft(s.subscribers[id])
  {
  }

  /** While nothing is published, the thread's own steps lead it to wait on an empty channel
      with the current user interface written: being woken, it catches up. */
  lemma {:induction false} CatchesUp(s: State, id: nat) returns (trace: seq<State>)
    requires Inv(s) && s.publisher.Idle? && id in s.subscribers && !s.subscribers[id].phase.Gone?
    ensures Linked(trace) && trace[0] == s
    ensures var t := trace[|trace| - 1];
            && t.current == s.current && At(t, id, Waiting) && t.subscribers[id].queue == 0
            && t.subscribers[id].written != [] && Latest(t.subscribers[id]).ui == s.current.ui
    decreases StepsLeft(s.subscribers[id])
  {
    if At(s, id, Waiting) && s.subscribers[id].queue == 0 {
      assert SubscriberOk(s, id);
      trace := [s];
    } else {
      OwnStepAdvances(s, id);
      var e := OwnStep(s, id);
      SubscriberStep(s, e);
      assert Stepped(s, Apply(s, e));
      var rest := CatchesUp(Apply(s, e), id);
      LinkedFirst(s, rest);
      trace := [s] + rest;
    }
  }

  // ---- publishing ----

  datatype Channel = Channel(open: bool, length: nat)

  function Woken(channels: seq<Channel>): seq<Channel> {
    if channels == [] then []
    else
      var c := channels[0];
      (if c.open then [Channel(true, if c.length < CAPACITY then c.length + 1 else c.length)] else []) +
      Woken(channels[1..])
  }

  lemma {:induction false} WokenAppend(s: seq<Channel>, t: seq<Channel>)
    ensures Woken(s + t) == Woken(s) + Woken(t)
  {
    if s == [] {
      assert s + t == t;
    } else {
      var u := s + t;
      assert u[0] == s[0] && u[1..] == s[1..] + t;
      WokenAppend(s[1..], t);
    }
  }

  function OpenOnes(channels: seq<Channel>): nat {
    if channels == [] then 0 else (if channels[0].open then 1 else 0) + OpenOnes(channels[1..])
  }

  /** The open channels remain, and none of them is left without a message. */
  lemma {:induction false} WokenHaveMessages(channels: seq<Channel>)
    ensures forall k :: 0 <= k < |Woken(channels)| ==> Woken(channels)[k].open && Woken(channels)[k].length > 0
    ensures |Woken(channels)| == OpenOnes(channels)
  {
    if channels != [] { WokenHaveMessages(channels[1..]); }
  }

  // ---- a publication is a run of the steps above ----

  function ChannelOf(s: State, id: nat): Channel
    requires id in s.subscribers
  {
    Channel(!s.subscribers[id].phase.Gone?, s.subscribers[id].queue)
  }

  function ChannelsOf(s: State, ids: seq<nat>): seq<Channel>
    requires forall id :: id in ids ==> id in s.subscribers
  {
    seq(|ids|, k requires 0 <= k < |ids| => ChannelOf(s, ids[k]))
  }

  /** The subscribers that are still there, in the order of the list. */
  function Remaining(s: State, ids: seq<nat>): (r: seq<nat>)
    requires forall id :: id in ids ==> id in s.subscribers
    ensures forall id :: id in r <==> id in ids && !s.subscribers[id].phase.Gone?
  {
    if ids == [] then []
    else (if s.subscribers[ids[0]].phase.Gone? then [] else [ids[0]]) + Remaining(s, ids[1..])
  }

  /** What the sends to the remaining subscribers of the list make of the state. */
  function SentAll(s: State, ids: seq<nat>): State
    requires s.publisher.Sending? && forall id :: id in ids ==> id in s.subscribers
    decreases |ids|
  {
    if ids == [] then s else SentAll(SentOne(s, ids[0]), ids[1..])
  }

  function SentOne(s: State, id: nat): State
    requires s.publisher.Sending? && id in s.subscribers
  {
    var left := Sending(s.publisher.left - {id});
    if s.subscribers[id].phase.Gone? then s.(publisher := left, listed := s.listed - {id})
    else Put(s.(publisher := left), id, Sent(s.subscribers[id]))
  }

  lemma {:induction false} SendsAreARun(s: State, ids: seq<nat>) returns (trace: seq<State>)
    requires s.publisher.Sending? && Distinct(ids)
    requires forall id :: id in ids ==> id in s.subscribers && id in s.publisher.left
    ensures Linked(trace) && trace[0] == s && trace[|trace| - 1] == SentAll(s, ids)
    decreases |ids|
  {
    if ids == [] {
      trace := [s];
    } else {
      var t := SentOne(s, ids[0]);
      assert Enabled(s, TrySend(ids[0])) && Apply(s, TrySend(ids[0])) == t;
      forall id | id in ids[1..]
        ensures id in t.subscribers && id in t.publisher.left
      {
        assert id in ids && id != ids[0];
      }
      var rest := SendsAreARun(t, ids[1..]);
      LinkedFirst(s, rest);
      trace := [s] + rest;
    }
  }

  /** After the sends, the listed subscribers that are still there have one more message, and
      the others are gone from the list. */
  lemma {:induction false} SentAllIs(s: State, ids: seq<nat>)
    requires s.publisher.Sending? && Distinct(ids) && forall id :: id in ids ==> id in s.subscribers
    ensures var t := SentAll(s, ids);
            && t.publisher == Sending(s.publisher.left - Members(ids)) && t.current == s.current
            && t.subscribers.Keys == s.subscribers.Keys
            && (forall id :: id in t.listed <==> id in s.listed && (id in ids ==> !s.subscribers[id].phase.Gone?))
            && (forall id :: id in s.subscribers ==>
                  t.subscribers[id] == if id in ids && !s.subscribers[id].phase.Gone? then Sent(s.subscribers[id]) else s.subscribers[id])
    decreases |ids|
  {
    if ids == [] {
      assert Members(ids) == {};
    } else {
      var t := SentOne(s, ids[0]);
      assert ids == [ids[0]] + ids[1..];
      assert Members(ids) == {ids[0]} + Members(ids[1..]);
      assert ids[0] !in ids[1..];
      assert t.subscribers.Keys == s.subscribers.Keys;
      SentAllIs(t, ids[1..]);
    }
  }

  lemma ChannelsFirst(s: State, id: nat, ids: seq<nat>)
    requires id in s.subscribers && forall x :: x in ids ==> x in s.subscribers
    ensures ChannelsOf(s, [id] + ids) == [ChannelOf(s, id)] + ChannelsOf(s, ids)
  {
  }

  lemma WokenFirst(c: Channel, channels: seq<Channel>)
    ensures Woken([c] + channels) ==
      (if c.open then [Channel(true, if c.length < CAPACITY then c.length + 1 else c.length)] else []) + Woken(channels)
  {
    assert ([c] + channels)[1..] == channels;
  }

  lemma RemainingFirst(s: State, id: nat, ids: seq<nat>)
    requires id in s.subscribers && forall x :: x in ids ==> x in s.subscribers
    ensures Remaining(s, [id] + ids) == (if s.subscribers[id].phase.Gone? then [] else [id]) + Remaining(s, ids)
  {
    assert ([id] + ids)[1..] == ids;
  }

  lemma ChannelsWokenFirst(s: State, t: State, id: nat, ids: seq<nat>)
    requires id in s.subscribers && id in t.subscribers
    requires forall x :: x in ids ==> x in s.subscribers && x in t.subscribers
    requires !s.subscribers[id].phase.Gone? ==> t.subscribers[id] == Sent(s.subscribers[id])
    requires ChannelsOf(t, Remaining(s, ids)) == Woken(ChannelsOf(s, ids))
    ensures ChannelsOf(t, Remaining(s, [id] + ids)) == Woken(ChannelsOf(s, [id] + ids))
  {
    RemainingFirst(s, id, ids);
    WokenChannelFirst(s, id, ids);
    RemainingChannelFirst(s, t, id, Remaining(s, ids));
  }

  lemma RemainingChannelFirst(s: State, t: State, id: nat, rest: seq<nat>)
    requires id in s.subscribers && id in t.subscribers && forall x :: x in rest ==> x in t.subscribers
    requires !s.subscribers[id].phase.Gone? ==> t.subscribers[id] == Sent(s.subscribers[id])
    ensures ChannelsOf(t, (if s.subscribers[id].phase.Gone? then [] else [id]) + rest) ==
      (if s.subscribers[id].phase.Gone? then [] else
         [Channel(true, if s.subscribers[id].queue < CAPACITY then s.subscribers[id].queue + 1 else s.subscribers[id].queue)])
      + ChannelsOf(t, rest)
  {
    if s.subscribers[id].phase.Gone? {
      assert [] + rest == rest;
    } else {
      ChannelsFirst(t, id, rest);
    }
  }

  lemma WokenChannelFirst(s: State, id: nat, ids: seq<nat>)
    requires id in s.subscribers && forall x :: x in ids ==> x in s.subscribers
    ensures Woken(ChannelsOf(s, [id] + ids)) ==
      (if s.subscribers[id].phase.Gone? then [] else
         [Channel(true, if s.subscribers[id].queue < CAPACITY then s.subscribers[id].queue + 1 else s.subscribers[id].queue)])
      + Woken(ChannelsOf(s, ids))
  {
    ChannelsFirst(s, id, ids);
    WokenFirst(ChannelOf(s, id), ChannelsOf(s, ids));
  }

  lemma {:induction false} ChannelsWoken(s: State, t: State, ids: seq<nat>)
    requires forall id :: id in ids ==> id in s.subscribers && id in t.subscribers
    requires forall id :: id in ids && !s.subscribers[id].phase.Gone? ==> t.subscribers[id] == Sent(s.subscribers[id])
    ensures ChannelsOf(t, Remaining(s, ids)) == Woken(ChannelsOf(s, ids))
    decreases |ids|
  {
    if ids != [] {
      assert ids == [ids[0]] + ids[1..];
      ChannelsWoken(s, t, ids[1..]);
      ChannelsWokenFirst(s, t, ids[0], ids[1..]);
    }
  }

  lemma LinkedJoin(first: seq<State>, rest: seq<State>)
    requires Linked(first) && Linked(rest) && first[|first| - 1] == rest[0]
    ensures Linked(first + rest[1..]) && (first + rest[1..])[|first + rest[1..]| - 1] == rest[|rest| - 1]
  {
    var trace := first + rest[1..];
    forall k | 0 <= k < |trace| - 1
      ensures Stepped(trace[k], trace[k + 1])
    {
      if k >= |first| - 1 {
        var j := k - (|first| - 1);
        assert trace[k] == rest[j] && trace[k + 1] == rest[j + 1];
      }
    }
  }

  lemma OneStep(s: State, e: Event)
    requires Enabled(s, e)
    ensures Linked([s, Apply(s, e)])
  {
    assert Stepped(s, Apply(s, e));
  }

  /** `publish_snapshot` as a run: the publisher's own steps, one after the other, lead from
      one list of channels to the other, as the loop over the senders does. */
  lemma PublicationIsARun(s: State, ids: seq<nat>, ui: nat, counters: nat) returns (trace: seq<State>)
    requires Inv(s) && s.publisher.Idle? && Distinct(ids) && forall id :: id in ids <==> id in s.listed
    ensures Linked(trace) && trace[0] == s
    ensures var t := trace[|trace| - 1];
            && t.publisher.Idle? && t.current == Snapshot(ui, counters, s.current.serial + 1)
            && (forall id :: id in ids ==> id in s.subscribers && id in t.subscribers)
            && (ui == s.current.ui ==> t.listed == s.listed && ChannelsOf(t, ids) == ChannelsOf(s, ids))
            && (ui != s.current.ui ==>
                  && (forall id :: id in t.listed <==> id in Remaining(s, ids))
                  && ChannelsOf(t, Remaining(s, ids)) == Woken(ChannelsOf(s, ids)))
  {
    var published := Apply(s, Publish(ui, counters));
    OneStep(s, Publish(ui, counters));
    trace := [s, published];
    if ui != s.current.ui {
      var sending := Apply(published, LockList);
      OneStep(published, LockList);
      LinkedJoin(trace, [published, sending]);
      trace := trace + [published, sending][1..];
      var sends := SendsAreARun(sending, ids);
      SentAllIs(sending, ids);
      LinkedJoin(trace, sends);
      trace := trace + sends[1..];
      var sent := SentAll(sending, ids);
      assert sent.publisher.left == {};
      OneStep(sent, Finish);
      LinkedJoin(trace, [sent, Apply(sent, Finish)]);
      trace := trace + [sent, Apply(sent, Finish)][1..];
      ChannelsWoken(s, Apply(sent, Finish), ids);
    }
  }

  class Desk {
    var current: Snapshot
    var channels: seq<Channel>

    constructor (current: Snapshot)
      ensures this.current == current && channels == []
    {
      this.current, channels := current, [];
    }

    method UpdateStatusSnapshot(latest: Snapshot) returns (uiChanged: bool)
      modifies this`current
      ensures current == latest && uiChanged == (latest.ui != old(current).ui)
    {
      uiChanged := latest.ui != current.ui;
      current := latest;
    }

    /** Counters alone wake nobody. */
    method PublishSnapshot(latest: Snapshot)
      modifies this
      ensures current == latest
      ensures channels == if latest.ui == old(current).ui then old(channels) else Woken(old(channels))
    {
      var uiChanged := UpdateStatusSnapshot(latest);
      if !uiChanged { return; }
      ghost var was := channels;
      var kept := [];
      var k := 0;
      while k < |channels|
        invariant k <= |channels| && channels == was && current == latest
        invariant kept == Woken(was[..k])
      {
        var c := channels[k];
        assert was[..k + 1] == was[..k] + [c];
        WokenAppend(was[..k], [c]);
        assert [c][1..] == [];
        if c.open { kept := kept + [if c.length < CAPACITY then Channel(true, c.length + 1) else c]; }
        k := k + 1;
      }
      assert was[..k] == was;
      channels := kept;
    }
  }

  // ---- the limit on connections ----

  /** The accepting thread checks the counter before it adds to it; connections end at any
      time in between. */
  datatype Server = Server(live: nat, handlers: nat, checked: bool)

  datatype ServerEvent = CheckLimit | Accept | HandlerEnds

  predicate ServerEnabled(s: Server, e: ServerEvent) {
    match e
    case CheckLimit => !s.checked
    case Accept => s.checked
    case HandlerEnds => s.handlers > 0
  }

  function ServerApply(s: Server, e: ServerEvent): Server
    requires ServerEnabled(s, e)
  {
    match e
    case CheckLimit => s.(checked := s.live < CONNECTIONS)
    case Accept => Server(s.live + 1, s.handlers + 1, false)
    case HandlerEnds => s.(live := if s.live > 0 then s.live - 1 else 0, handlers := s.handlers - 1)
  }

  ghost predicate IsServerRun(trace: seq<Server>) {
    && trace != [] && trace[0] == Server(0, 0, false)
    && forall k :: 0 <= k < |trace| - 1 ==> ServerStepped(trace[k], trace[k + 1])
  }

  ghost predicate ServerStepped(s: Server, t: Server) { exists e :: ServerEnabled(s, e) && t == ServerApply(s, e) }

  /** There are never more than 32 handlers, and the counter is their number. */
  lemma {:induction false} AtMost32(trace: seq<Server>, n: nat)
    requires IsServerRun(trace) && n < |trace|
    ensures trace[n].live == trace[n].handlers <= CONNECTIONS
    ensures trace[n].checked ==> trace[n].live < CONNECTIONS
  {
    if n > 0 {
      AtMost32(trace, n - 1);
      assert ServerStepped(trace[n - 1], trace[n - 1 + 1]);
    }
  }

  /** A connection is refused exactly if 32 handlers are running when it is checked. */
  lemma RefusedExactly(trace: seq<Server>, n: nat)
    requires IsServerRun(trace) && n < |trace| && ServerEnabled(trace[n], CheckLimit)
    ensures ServerEnabled(ServerApply(trace[n], CheckLimit), Accept) <==> trace[n].handlers < CONNECTIONS
  {
    AtMost32(trace, n);
  }
}
