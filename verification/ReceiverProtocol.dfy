/** The receiving process as a part of the protocol. Its own state is the phase of each
    receipt; it changes by moves. A world joins the layer, the two channels, the GPU and
    such a receiver, each keeping its own state, and every run of a world is a run of the
    protocol. */
module ReceiverProtocol {
  import opened CaptureProtocol
  import opened ExportRing
  import opened Options

  datatype Move =
    | Receive(r: nat)
    | Refuse(r: nat)     // acknowledged without a read
    | Issue(r: nat)      // the read is queued
    | Complete(r: nat)
    | Answer(r: nat)     // acknowledged after its read

  predicate Holds(p: map<nat, Phase>, r: nat, phase: Phase) { r in p && p[r] == phase }

  predicate CanMove(p: map<nat, Phase>, m: Move) {
    match m
    case Receive(r) => r !in p
    case Refuse(r) => Holds(p, r, InFlight)
    case Issue(r) => Holds(p, r, InFlight)
    case Complete(r) => Holds(p, r, Queued)
    case Answer(r) => Holds(p, r, Done)
  }

  function Moved(p: map<nat, Phase>, m: Move): map<nat, Phase> {
    match m
    case Receive(r) => p[r := InFlight]
    case Refuse(r) => p[r := Acking]
    case Issue(r) => p[r := Queued]
    case Complete(r) => p[r := Done]
    case Answer(r) => p[r := Acking]
  }

  ghost predicate Moves(p: map<nat, Phase>, q: map<nat, Phase>) { exists m :: CanMove(p, m) && q == Moved(p, m) }

  /** What a receiver may do: its phases follow from each other by moves. */
  ghost predicate Chain(h: seq<map<nat, Phase>>) {
    h != [] && forall k :: 0 < k < |h| ==> Moves(h[k - 1], h[k])
  }

  lemma ChainNext(h: seq<map<nat, Phase>>, m: Move)
    requires Chain(h) && CanMove(h[|h| - 1], m)
    ensures Chain(h + [Moved(h[|h| - 1], m)])
  {
    var next := h + [Moved(h[|h| - 1], m)];
    forall k | 0 < k < |next|
      ensures Moves(next[k - 1], next[k])
    {
      if k == |h| { assert CanMove(next[k - 1], m) && next[k] == Moved(next[k - 1], m); }
    }
  }

  function Completed(p: map<nat, Phase>, rs: set<nat>): map<nat, Phase> {
    map r | r in p :: if r in rs && p[r] == Queued then Done else p[r]
  }

  /** Any number of reads complete one after the other. */
  lemma {:induction false} ChainCompletes(h: seq<map<nat, Phase>>, rs: set<nat>) returns (next: seq<map<nat, Phase>>)
    requires Chain(h)
    ensures Chain(next) && h <= next && next[|next| - 1] == Completed(h[|h| - 1], rs)
    decreases rs
  {
    var p := h[|h| - 1];
    if r :| r in rs && Holds(p, r, Queued) {
      ChainNext(h, Complete(r));
      next := ChainCompletes(h + [Moved(p, Complete(r))], rs - {r});
      assert Completed(Moved(p, Complete(r)), rs - {r}) == Completed(p, rs);
    } else {
      assert Completed(p, rs) == p;
      next := h;
    }
  }

  // ---- worlds ----

  /** `inbound` and `outbound` are the exports and acknowledgements in the channels. An
      export that was received has a receipt; `names` and `receipts` relate the two.
      `reading` holds the receipts whose read the GPU has begun. */
  datatype World = World(
    layer: Layer, inbound: set<Export>, outbound: set<Export>,
    receiver: map<nat, Phase>, names: map<nat, Export>, receipts: map<Export, nat>, reading: set<nat>)

  const Beginning := World(Init.layer, {}, {}, map[], map[], map[], {})

  datatype Step =
    | Produce(ev: Event)       // the layer, the driver and the producer's GPU
    | DropExport(e: Export)
    | DropAck(e: Export)
    | DrainAck(e: Export)
    | StartRead(r: nat)
    | Arrive(r: nat, e: Export)
    | Proceed(m: Move)

  predicate Produces(ev: Event) {
    ev.Create? || ev.Destroy? || ev.PassOn? || ev.Snap? || ev.Offer? || ev.Copied?
  }

  predicate CopyDone(l: Layer, e: Export) {
    Live(l, e.stream) && e.slot < RING ==> SlotAt(l, e.stream, e.slot).content >= e.generation
  }

  predicate Possible(w: World, step: Step) {
    match step
    case Produce(ev) => Produces(ev) && Enabled(State(w.layer, map[]), ev)
    case DropExport(e) => e in w.inbound
    case DropAck(e) => e in w.outbound
    case DrainAck(e) => e in w.outbound
    case StartRead(r) => Holds(w.receiver, r, Queued) && r in w.names && r !in w.reading && CopyDone(w.layer, w.names[r])
    case Arrive(r, e) => CanMove(w.receiver, Receive(r)) && e in w.inbound
    case Proceed(m) => !m.Receive? && CanMove(w.receiver, m) && m.r in w.names && (m.Complete? ==> m.r in w.reading)
  }

  function After(w: World, step: Step): World
    requires Possible(w, step)
  {
    match step
    case Produce(ev) =>
      var l := Apply(State(w.layer, map[]), ev).layer;
      w.(layer := l, inbound := w.inbound + (if |l.sent| > |w.layer.sent| then {l.sent[|l.sent| - 1]} else {}))
    case DropExport(e) => w.(inbound := w.inbound - {e})
    case DropAck(e) => w.(outbound := w.outbound - {e})
    case DrainAck(e) => w.(layer := Drain(w.layer, AckOf(e)), outbound := w.outbound - {e})
    case StartRead(r) => w.(reading := w.reading + {r})
    case Arrive(r, e) =>
      w.(inbound := w.inbound - {e}, receiver := Moved(w.receiver, Receive(r)),
         names := w.names[r := e], receipts := w.receipts[e := r])
    case Proceed(m) =>
      w.(receiver := Moved(w.receiver, m), reading := w.reading - (if m.Complete? then {m.r} else {}),
         outbound := w.outbound + (if m.Refuse? || m.Answer? then {w.names[m.r]} else {}))
  }

  predicate PossibleRun(w: World, steps: seq<Step>)
    decreases |steps|
  {
    steps == [] || (Possible(w, steps[0]) && PossibleRun(After(w, steps[0]), steps[1..]))
  }

  function End(w: World, steps: seq<Step>): World
    requires PossibleRun(w, steps)
    decreases |steps|
  {
    if steps == [] then w else End(After(w, steps[0]), steps[1..])
  }

  // ---- a world as a state of the protocol ----

  function PhaseOf(w: World, e: Export): Phase {
    if e in w.inbound then InFlight
    else if e !in w.receipts || w.receipts[e] !in w.receiver then Finished
    else
      var r := w.receipts[e];
      if w.receiver[r] == Queued && r in w.reading then Reading
      else if w.receiver[r] == Acking && e !in w.outbound then Finished
      else w.receiver[r]
  }

  function Seen(w: World): State {
    State(w.layer, map e | e in w.layer.sent :: PhaseOf(w, e))
  }

  /** Receipts and received exports correspond one to one. */
  ghost predicate Named(w: World) {
    && (forall r :: r in w.names <==> r in w.receiver)
    && (forall e :: e in w.receipts ==> w.receipts[e] in w.names && w.names[w.receipts[e]] == e)
    && (forall r :: r in w.names ==> w.names[r] in w.receipts && w.receipts[w.names[r]] == r)
  }

  /** Exports in the channel and exports received were sent, and are apart. */
  ghost predicate Channelled(w: World) {
    && (forall e :: e in w.inbound ==> e in w.layer.sent && e !in w.receipts)
    && (forall e :: e in w.receipts ==> e in w.layer.sent)
    && (forall e :: e in w.outbound ==> e in w.receipts && Holds(w.receiver, w.receipts[e], Acking))
  }

  ghost predicate Phased(w: World) {
    && (forall r :: r in w.reading ==> Holds(w.receiver, r, Queued))
    && (forall r :: r in w.receiver ==>
          w.receiver[r] == InFlight || w.receiver[r] == Queued || w.receiver[r] == Done || w.receiver[r] == Acking)
  }

  ghost predicate Apart(w: World) { Named(w) && Channelled(w) && Phased(w) }

  ghost predicate Sound(w: World) { Apart(w) && Logged(Seen(w)) }

  /** The event of the protocol that a step is; an arrival is none, because the protocol does
      not tell an export in the channel from one that is received but not yet handled. */
  function EventOf(w: World, step: Step): Event
    requires Possible(w, step) && !step.Arrive?
  {
    match step
    case Produce(ev) => ev
    case DropExport(e) => LoseExport(e)
    case DropAck(e) => LoseAck(e)
    case DrainAck(e) => Drain1(e)
    case StartRead(r) => BeginRead(w.names[r])
    case Proceed(m) =>
      if m.Refuse? then Reject(w.names[m.r])
      else if m.Issue? then Accept(w.names[m.r])
      else if m.Complete? then EndRead(w.names[m.r])
      else AckRead(w.names[m.r])
  }

  /** An export that the layer sends was never sent before. */
  lemma OfferIsNew(w: World, ev: Event)
    requires Sound(w) && Possible(w, Produce(ev)) && ev.Offer? && After(w, Produce(ev)).layer.sent != w.layer.sent
    ensures var e := Export(ev.s, ev.i, SlotAt(w.layer, ev.s, ev.i).generation);
            After(w, Produce(ev)).layer.sent == w.layer.sent + [e] && e !in w.layer.sent
  {
  }

  /** The protocol sees the phase of one export change. */
  lemma OnePhaseChanges(w: World, t: World, e: Export)
    requires t.layer.sent == w.layer.sent && e in w.layer.sent
    requires forall x :: x in w.layer.sent && x != e ==> PhaseOf(t, x) == PhaseOf(w, x)
    ensures Seen(t).phase == Seen(w).phase[e := PhaseOf(t, e)]
  {
  }

  /** The layer's events do not depend on the phases. */
  lemma LayerAlone(l: Layer, phase: map<Export, Phase>, ev: Event)
    requires Produces(ev) && Enabled(State(l, map[]), ev)
    ensures Enabled(State(l, phase), ev)
    ensures Apply(State(l, phase), ev).layer == Apply(State(l, map[]), ev).layer
    ensures Apply(State(l, map[]), ev).layer.sent == l.sent ==> Apply(State(l, phase), ev).phase == phase
  {
  }

  lemma QuietIsAnEvent(w: World, ev: Event)
    requires Apart(w) && Possible(w, Produce(ev)) && After(w, Produce(ev)).layer.sent == w.layer.sent
    ensures Enabled(Seen(w), ev) && Seen(After(w, Produce(ev))) == Apply(Seen(w), ev)
  {
    var t := After(w, Produce(ev));
    LayerAlone(w.layer, Seen(w).phase, ev);
    assert t == w.(layer := t.layer) by { assert t.inbound == w.inbound; }
    forall x | x in w.layer.sent
      ensures PhaseOf(t, x) == PhaseOf(w, x)
    {
    }
    assert Seen(t).phase == Seen(w).phase;
  }

  lemma OfferPhases(w: World, t: World, e: Export)
    requires Apart(w) && e !in w.layer.sent && t.layer.sent == w.layer.sent + [e]
    requires t == w.(layer := t.layer, inbound := w.inbound + {e})
    ensures Seen(t).phase == Seen(w).phase[e := InFlight]
  {
    forall x | x in w.layer.sent
      ensures PhaseOf(t, x) == PhaseOf(w, x)
    {
    }
  }

  lemma OfferApplies(l: Layer, phase: map<Export, Phase>, ev: Event)
    requires ev.Offer? && Enabled(State(l, map[]), ev)
    requires Apply(State(l, map[]), ev).layer.sent != l.sent
    ensures Enabled(State(l, phase), ev)
    ensures Apply(State(l, phase), ev) ==
              State(Apply(State(l, map[]), ev).layer, phase[Export(ev.s, ev.i, SlotAt(l, ev.s, ev.i).generation) := InFlight])
  {
  }

  lemma OfferIsAnEvent(w: World, ev: Event)
    requires Sound(w) && Possible(w, Produce(ev)) && ev.Offer? && After(w, Produce(ev)).layer.sent != w.layer.sent
    ensures Enabled(Seen(w), ev) && Seen(After(w, Produce(ev))) == Apply(Seen(w), ev)
  {
    OfferIsNew(w, ev);
    OfferApplies(w.layer, Seen(w).phase, ev);
    OfferPhases(w, After(w, Produce(ev)), Export(ev.s, ev.i, SlotAt(w.layer, ev.s, ev.i).generation));
  }

  lemma OnlyOffersSend(w: World, ev: Event)
    requires Possible(w, Produce(ev)) && !ev.Offer?
    ensures After(w, Produce(ev)).layer.sent == w.layer.sent
  {
  }

  lemma ProduceIsAnEvent(w: World, ev: Event)
    requires Sound(w) && Possible(w, Produce(ev))
    ensures Enabled(Seen(w), ev) && Seen(After(w, Produce(ev))) == Apply(Seen(w), ev)
  {
    if !ev.Offer? { OnlyOffersSend(w, ev); }
    if After(w, Produce(ev)).layer.sent == w.layer.sent {
      QuietIsAnEvent(w, ev);
    } else {
      OfferIsAnEvent(w, ev);
    }
  }

  lemma DropIsAnEvent(w: World, e: Export)
    requires Apart(w) && e in w.inbound
    ensures Enabled(Seen(w), LoseExport(e)) && Seen(After(w, DropExport(e))) == Apply(Seen(w), LoseExport(e))
  {
    assert In(Seen(w), e, InFlight);
    OnePhaseChanges(w, After(w, DropExport(e)), e);
  }

  /** An acknowledgement leaves the channel, read or lost. */
  lemma AckLeaves(w: World, l: Layer, e: Export)
    requires Apart(w) && e in w.outbound && l.sent == w.layer.sent
    ensures In(Seen(w), e, Acking)
    ensures Seen(w.(layer := l, outbound := w.outbound - {e})).phase == Seen(w).phase[e := Finished]
  {
    OnePhaseChanges(w, w.(layer := l, outbound := w.outbound - {e}), e);
  }

  lemma ChannelIsAnEvent(w: World, step: Step)
    requires Apart(w) && Possible(w, step) && (step.DropExport? || step.DropAck? || step.DrainAck?)
    ensures Enabled(Seen(w), EventOf(w, step)) && Seen(After(w, step)) == Apply(Seen(w), EventOf(w, step))
  {
    match step
    case DropExport(e) => DropIsAnEvent(w, e);
    case DropAck(e) => AckLeaves(w, w.layer, e);
    case DrainAck(e) => AckLeaves(w, Drain(w.layer, AckOf(e)), e);
  }

  /** What the export of receipt `r` and all others are for the protocol after a step that
      concerns this receipt alone. */
  lemma ReceiptChanges(w: World, t: World, r: nat)
    requires Apart(w) && r in w.names && t.layer == w.layer && t.inbound == w.inbound && t.receipts == w.receipts
    requires t.receiver.Keys == w.receiver.Keys && forall q :: q in w.receiver && q != r ==> t.receiver[q] == w.receiver[q]
    requires forall q :: q != r ==> (q in t.reading <==> q in w.reading)
    requires forall e :: e != w.names[r] ==> (e in t.outbound <==> e in w.outbound)
    ensures w.names[r] in w.layer.sent && Seen(t).phase == Seen(w).phase[w.names[r] := PhaseOf(t, w.names[r])]
  {
    var e := w.names[r];
    forall x | x in w.layer.sent && x != e
      ensures PhaseOf(t, x) == PhaseOf(w, x)
    {
      if x in w.receipts { assert w.receipts[x] != r; }
    }
    OnePhaseChanges(w, t, e);
  }

  lemma StartIsAnEvent(w: World, r: nat)
    requires Apart(w) && Possible(w, StartRead(r))
    ensures var ev := BeginRead(w.names[r]); Enabled(Seen(w), ev) && Seen(After(w, StartRead(r))) == Apply(Seen(w), ev)
  {
    assert w.receipts[w.names[r]] == r && w.names[r] in w.layer.sent;
    ReceiptChanges(w, After(w, StartRead(r)), r);
  }

  /** The phase of a received export is that of its receipt. */
  lemma ReceiptPhase(w: World, r: nat)
    requires Apart(w) && r in w.names
    ensures var e := w.names[r];
            && r in w.receiver && e in w.layer.sent && e in Seen(w).phase
            && (w.receiver[r] == InFlight || w.receiver[r] == Done ==> Seen(w).phase[e] == w.receiver[r])
            && (w.receiver[r] == Queued ==> Seen(w).phase[e] == if r in w.reading then Reading else Queued)
  {
    assert w.receipts[w.names[r]] == r && w.names[r] in w.receipts;
  }

  lemma ProceedPhase(w: World, m: Move)
    requires Apart(w) && Possible(w, Proceed(m))
    ensures PhaseOf(After(w, Proceed(m)), w.names[m.r]) == if m.Issue? then Queued else if m.Complete? then Done else Acking
  {
    assert w.receipts[w.names[m.r]] == m.r && w.names[m.r] in w.receipts;
  }

  lemma ProceedIsAnEvent(w: World, m: Move)
    requires Apart(w) && Possible(w, Proceed(m))
    ensures var ev := EventOf(w, Proceed(m)); Enabled(Seen(w), ev) && Seen(After(w, Proceed(m))) == Apply(Seen(w), ev)
  {
    ReceiptPhase(w, m.r);
    ProceedPhase(w, m);
    ReceiptChanges(w, After(w, Proceed(m)), m.r);
  }

  lemma ArrivalPhase(w: World, r: nat, e: Export, x: Export)
    requires Named(w) && Channelled(w) && Possible(w, Arrive(r, e))
    ensures PhaseOf(After(w, Arrive(r, e)), x) == PhaseOf(w, x)
  {
    if x != e && x in w.receipts {
      assert w.receipts[x] in w.names && w.receipts[x] != r;
    }
  }

  lemma ArrivalIsUnseen(w: World, r: nat, e: Export)
    requires Apart(w) && Possible(w, Arrive(r, e))
    ensures Seen(After(w, Arrive(r, e))) == Seen(w)
  {
    var t := After(w, Arrive(r, e));
    forall x | x in w.layer.sent
      ensures PhaseOf(t, x) == PhaseOf(w, x)
    {
      ArrivalPhase(w, r, e, x);
    }
    assert Seen(t).phase == Seen(w).phase;
  }

  /** Each step of a world is an event of the protocol, or changes nothing the protocol sees. */
  lemma StepIsAnEvent(w: World, step: Step)
    requires Sound(w) && Possible(w, step)
    ensures step.Arrive? ==> Seen(After(w, step)) == Seen(w)
    ensures !step.Arrive? ==>
              Enabled(Seen(w), EventOf(w, step)) && Seen(After(w, step)) == Apply(Seen(w), EventOf(w, step))
  {
    match step
    case Produce(ev) => ProduceIsAnEvent(w, ev);
    case Arrive(r, e) => ArrivalIsUnseen(w, r, e);
    case StartRead(r) => StartIsAnEvent(w, r);
    case Proceed(m) => ProceedIsAnEvent(w, m);
    case _ => ChannelIsAnEvent(w, step);
  }

  lemma ApartAfterProduce(w: World, ev: Event)
    requires Sound(w) && Possible(w, Produce(ev))
    ensures Apart(After(w, Produce(ev)))
  {
    var t := After(w, Produce(ev));
    if !ev.Offer? { OnlyOffersSend(w, ev); }
    if t.layer.sent == w.layer.sent {
      assert t.inbound == w.inbound;
    } else {
      OfferIsNew(w, ev);
      assert t.layer.sent[|t.layer.sent| - 1] in t.layer.sent;
    }
  }

  lemma ApartAfterArrival(w: World, r: nat, e: Export)
    requires Apart(w) && Possible(w, Arrive(r, e))
    ensures Apart(After(w, Arrive(r, e)))
  {
    ArrivalNames(w, r, e);
    var t := After(w, Arrive(r, e));
    assert t.reading == w.reading && t.outbound == w.outbound && t.layer == w.layer;
    assert forall x :: x in t.inbound ==> x in w.inbound && x != e;
  }

  lemma ArrivalNames(w: World, r: nat, e: Export)
    requires Apart(w) && Possible(w, Arrive(r, e))
    ensures Named(After(w, Arrive(r, e)))
  {
    assert forall x :: x in w.receipts ==> w.receipts[x] != r;
    assert forall q :: q in w.names ==> w.names[q] != e;
  }

  lemma ApartAfterMove(w: World, m: Move)
    requires Apart(w) && Possible(w, Proceed(m))
    ensures Apart(After(w, Proceed(m)))
  {
    var t := After(w, Proceed(m));
    assert t.names == w.names && t.receipts == w.receipts && t.receiver.Keys == w.receiver.Keys;
    forall e | e in t.outbound
      ensures e in t.receipts && Holds(t.receiver, t.receipts[e], Acking)
    {
      if e in w.outbound { assert w.receipts[e] != m.r; }
    }
  }

  lemma ApartAfter(w: World, step: Step)
    requires Apart(w) && Possible(w, step) && !step.Produce?
    ensures Apart(After(w, step))
  {
    match step
    case Arrive(r, e) => ApartAfterArrival(w, r, e);
    case Proceed(m) => ApartAfterMove(w, m);
    case DrainAck(e) => assert After(w, step).layer.sent == w.layer.sent;
    case _ =>
  }

  lemma SoundAfter(w: World, step: Step)
    requires Sound(w) && Possible(w, step)
    ensures Sound(After(w, step))
  {
    StepIsAnEvent(w, step);
    if !step.Arrive? { LoggedStep(Seen(w), EventOf(w, step)); }
    if step.Produce? { ApartAfterProduce(w, step.ev); } else { ApartAfter(w, step); }
  }

  lemma BeginningIsSound()
    ensures Sound(Beginning) && Seen(Beginning) == Init
  {
    assert Seen(Beginning).phase == map[];
  }

  function Rings(steps: seq<Step>): nat {
    if steps == [] then 0 else (if steps[0] == Produce(Create) then 1 else 0) + Rings(steps[1..])
  }

  /** Every run of a world, with any interleaving of the layer, the channels, the GPU and
      the receiver's moves, is a run of the protocol. */
  lemma {:induction false} WorldIsARun(w: World, steps: seq<Step>) returns (evs: seq<Event>)
    requires Sound(w) && PossibleRun(w, steps)
    ensures Sound(End(w, steps))
    ensures CaptureProtocol.Valid(Seen(w), evs) && Run(Seen(w), evs) == Seen(End(w, steps)) && Creates(evs) == Rings(steps)
    decreases |steps|
  {
    if steps == [] {
      evs := [];
    } else {
      StepIsAnEvent(w, steps[0]);
      SoundAfter(w, steps[0]);
      var rest := WorldIsARun(After(w, steps[0]), steps[1..]);
      if steps[0].Arrive? {
        evs := rest;
      } else {
        evs := [EventOf(w, steps[0])] + rest;
        assert evs[1..] == rest;
      }
    }
  }

  /** The frame is still in the channel, or with the receiver and not yet read. */
  predicate Unread(w: World, e: Export) {
    || e in w.inbound
    || (e in w.receipts && w.receipts[e] in w.receiver
        && (w.receiver[w.receipts[e]] == InFlight || w.receiver[w.receipts[e]] == Queued))
  }

  /** A capture is submitted into a slot that holds an unread frame. */
  ghost predicate Tramples(w: World, step: Step)
    requires Possible(w, step)
  {
    && step.Produce? && step.ev.Snap?
    && exists e: Export ::
         e.stream == step.ev.s && Some(e.slot) == PickFrom(w.layer.swaps[step.ev.s], 0) && Unread(w, e)
  }

  lemma TramplingOverwrites(w: World, step: Step)
    requires Sound(w) && Possible(w, step) && Tramples(w, step)
    ensures Enabled(Seen(w), step.ev) && Overwrites(Seen(w), step.ev)
  {
    StepIsAnEvent(w, step);
    var e: Export :|
      e.stream == step.ev.s && Some(e.slot) == PickFrom(w.layer.swaps[step.ev.s], 0) && Unread(w, e);
    assert e in Seen(w).phase;
  }

  /** The receiver composed with the layer: in every run of a world with one ring, no capture
      is submitted into a slot that the receiver may still read. */
  lemma WorldIsSafe(steps: seq<Step>, step: Step)
    requires PossibleRun(Beginning, steps) && Possible(End(Beginning, steps), step)
    requires Rings(steps) <= 1
    ensures !Tramples(End(Beginning, steps), step)
  {
    BeginningIsSound();
    var evs := WorldIsARun(Beginning, steps);
    var w := End(Beginning, steps);
    if Tramples(w, step) {
      TramplingOverwrites(w, step);
      var next := Then(Init, evs, step.ev);
      OneStreamIsSafe(next);
    }
  }

  // ---- the receiver's own history as a part of a world ----

  lemma {:induction false} ChainGrows(h: seq<map<nat, Phase>>, k: nat)
    requires Chain(h) && k < |h|
    ensures h[k].Keys <= h[|h| - 1].Keys
    decreases |h| - k
  {
    if k + 1 < |h| {
      ChainGrows(h, k + 1);
      assert Moves(h[k + 1 - 1], h[k + 1]);
    }
  }

  /** The surroundings that a part of the receiver's history needs: its new receipts are of
      different exports in the channel, and the copies of the frames it reads are done. */
  ghost predicate Provided(w: World, last: map<nat, Phase>, names: map<nat, Export>) {
    && (forall r :: r in last ==> r in names && CopyDone(w.layer, names[r]))
    && (forall r :: r in w.receiver ==> r in w.names && r in names && names[r] == w.names[r])
    && (forall r :: r in last && r !in w.receiver ==> names[r] in w.inbound)
    && (forall q, r :: q in last && r in last && q != r ==> names[q] != names[r])
  }

  lemma OneStep(w: World, step: Step)
    requires Possible(w, step)
    ensures PossibleRun(w, [step]) && End(w, [step]) == After(w, step)
  {
    assert [step][1..] == [];
    assert PossibleRun(After(w, step), []) && End(After(w, step), []) == After(w, step);
  }

  lemma {:induction false} StepsAppend(w: World, steps: seq<Step>, more: seq<Step>)
    requires PossibleRun(w, steps) && PossibleRun(End(w, steps), more)
    ensures PossibleRun(w, steps + more) && End(w, steps + more) == End(End(w, steps), more)
    decreases |steps|
  {
    if steps == [] {
      assert steps + more == more;
    } else {
      assert (steps + more)[1..] == steps[1..] + more;
      StepsAppend(After(w, steps[0]), steps[1..], more);
    }
  }

  lemma MoveIsAWorldRun(w: World, m: Move, names: map<nat, Export>) returns (steps: seq<Step>)
    requires CanMove(w.receiver, m) && Provided(w, Moved(w.receiver, m), names)
    ensures PossibleRun(w, steps) && End(w, steps).receiver == Moved(w.receiver, m) && End(w, steps).layer == w.layer
    ensures End(w, steps).inbound == if m.Receive? then w.inbound - {names[m.r]} else w.inbound
    ensures End(w, steps).names == if m.Receive? then w.names[m.r := names[m.r]] else w.names
  {
    if m.Receive? {
      steps := [Arrive(m.r, names[m.r])];
      OneStep(w, steps[0]);
    } else if m.Complete? && m.r !in w.reading {
      var start := StartRead(m.r);
      OneStep(w, start);
      OneStep(After(w, start), Proceed(m));
      StepsAppend(w, [start], [Proceed(m)]);
      steps := [start] + [Proceed(m)];
    } else {
      steps := [Proceed(m)];
      OneStep(w, steps[0]);
    }
  }

  lemma ChainTail(h: seq<map<nat, Phase>>)
    requires Chain(h) && |h| > 1
    ensures Chain(h[1..]) && h[1..][0] == h[1] && h[1..][|h| - 2] == h[|h| - 1]
  {
    forall k | 0 < k < |h[1..]|
      ensures Moves(h[1..][k - 1], h[1..][k])
    {
      assert Moves(h[k + 1 - 1], h[k + 1]);
    }
  }

  lemma ProvidedAfter(w: World, t: World, last: map<nat, Phase>, m: Move, names: map<nat, Export>)
    requires Provided(w, last, names) && CanMove(w.receiver, m)
    requires t.receiver == Moved(w.receiver, m) && t.receiver.Keys <= last.Keys && t.layer == w.layer
    requires t.inbound == if m.Receive? then w.inbound - {names[m.r]} else w.inbound
    requires t.names == if m.Receive? then w.names[m.r := names[m.r]] else w.names
    ensures Provided(t, last, names)
  {
    forall r | r in t.receiver
      ensures r in last && (r in w.receiver || (m.Receive? && r == m.r))
    {
      assert r in t.receiver.Keys;
    }
    forall r | r in last && r !in t.receiver
      ensures names[r] in t.inbound
    {
      if m.Receive? { assert m.r in t.receiver && names[r] != names[m.r]; }
    }
  }

  /** The counterpart of the layer's hook: whatever part of its history a receiver goes
      through, it is a run of the world, and so of the protocol. */
  lemma {:induction false} HistoryIsAWorldRun(w: World, h: seq<map<nat, Phase>>, names: map<nat, Export>)
    returns (steps: seq<Step>)
    requires Sound(w) && Chain(h) && h[0] == w.receiver && Provided(w, h[|h| - 1], names)
    ensures PossibleRun(w, steps) && End(w, steps).receiver == h[|h| - 1] && End(w, steps).layer == w.layer
    decreases |h|
  {
    if |h| == 1 {
      steps := [];
    } else {
      assert Moves(h[1 - 1], h[1]);
      var m :| CanMove(h[0], m) && h[1] == Moved(h[0], m);
      ChainGrows(h, 1);
      var first := MoveIsAWorldRun(w, m, names);
      var t := End(w, first);
      var _ := WorldIsARun(w, first);
      ChainTail(h);
      ProvidedAfter(w, t, h[|h| - 1], m, names);
      var rest := HistoryIsAWorldRun(t, h[1..], names);
      StepsAppend(w, first, rest);
      steps := first + rest;
    }
  }
}
