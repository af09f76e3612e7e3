/** The handoff of captured frames: the layer's rings, the two lossy datagram channels,
    the receiver, and the GPU work of both sides. A run is any sequence of enabled events,
    so it contains every interleaving of the two processes. */
module CaptureProtocol {
  import opened Options
  import opened RingScan
  import opened ExportRing

  /** The life of one export after the socket accepted it. The receiver may read the
      image in the first three phases; `Done` is read but not yet acknowledged. */
  datatype Phase = InFlight | Queued | Reading | Done | Acking | Finished

  datatype State = State(layer: Layer, phase: map<Export, Phase>)

  datatype Event =
    | Create
    | Destroy(s: nat)
    | PassOn                                            // present forwarded unchanged
    | Snap(s: nat, enqueued: bool, fence: Option<int>)  // present captured into a free slot
    | Offer(s: nat, i: nat, delivered: bool)            // emit_slot on a busy unsent slot
    | Drain1(e: Export)                                 // an acknowledgement reaches the layer
    | LoseExport(e: Export)
    | LoseAck(e: Export)
    | Copied(s: nat, i: nat)                            // the GPU finishes the next copy into a slot
    | Reject(e: Export)                                 // acknowledged without a read
    | Accept(e: Export)                                 // read queued behind the export's fence
    | BeginRead(e: Export)
    | EndRead(e: Export)
    | AckRead(e: Export)

  const Init := State(Layer([], {}, [], 0, 0, 0), map[])

  function AckOf(e: Export): Ack { Ack(e.slot, e.generation) }

  predicate In(st: State, e: Export, p: Phase) { e in st.phase && st.phase[e] == p }

  predicate Live(l: Layer, s: nat) { s < |l.swaps| && l.swaps[s].live }

  predicate Enabled(st: State, ev: Event) {
    var l := st.layer;
    match ev
    case Create => true
    case Destroy(s) => Live(l, s)
    case PassOn => true
    case Snap(s, _, fence) =>
      && Live(l, s) && PickFrom(l.swaps[s], 0).Some?
      && (fence.Some? ==> fence.value >= -1 && fence.value !in l.fences)
    case Offer(s, i, _) => Live(l, s) && i < RING && SlotAt(l, s, i).busy && !SlotAt(l, s, i).sent
    case Drain1(e) => In(st, e, Acking)
    case LoseAck(e) => In(st, e, Acking)
    case LoseExport(e) => In(st, e, InFlight)
    case Copied(s, i) => Live(l, s) && i < RING && SlotAt(l, s, i).content < SlotAt(l, s, i).generation
    case Reject(e) => In(st, e, InFlight)
    case Accept(e) => In(st, e, InFlight)
    case BeginRead(e) =>
      In(st, e, Queued) && (Live(l, e.stream) && e.slot < RING ==> SlotAt(l, e.stream, e.slot).content >= e.generation)
    case EndRead(e) => In(st, e, Reading)
    case AckRead(e) => In(st, e, Done)
  }

  function Apply(st: State, ev: Event): State
    requires Enabled(st, ev)
  {
    var l := st.layer;
    match ev
    case Create => st.(layer := Created(l))
    case Destroy(s) => st.(layer := Destroyed(l, s))
    case PassOn => st.(layer := PassThrough(l))
    case Snap(s, enqueued, fence) => st.(layer := Capture(l, s, PickFrom(l.swaps[s], 0).value, enqueued, fence))
    case Offer(s, i, delivered) =>
      var slot := SlotAt(l, s, i);
      State(Emit(l, s, i, delivered),
            if slot.fenceFd >= 0 && delivered then st.phase[Export(s, i, slot.generation) := InFlight] else st.phase)
    case Drain1(e) => State(Drain(l, AckOf(e)), st.phase[e := Finished])
    case LoseAck(e) => st.(phase := st.phase[e := Finished])
    case LoseExport(e) => st.(phase := st.phase[e := Finished])
    case Copied(s, i) =>
      var slot := SlotAt(l, s, i);
      st.(layer := PutSlot(l, s, i, slot.(content := slot.content + 1)))
    case Reject(e) => st.(phase := st.phase[e := Acking])
    case Accept(e) => st.(phase := st.phase[e := Queued])
    case BeginRead(e) => st.(phase := st.phase[e := Reading])
    case EndRead(e) => st.(phase := st.phase[e := Done])
    case AckRead(e) => st.(phase := st.phase[e := Acking])
  }

  predicate Valid(st: State, evs: seq<Event>)
    decreases |evs|
  {
    evs == [] || (Enabled(st, evs[0]) && Valid(Apply(st, evs[0]), evs[1..]))
  }

  function Run(st: State, evs: seq<Event>): State
    requires Valid(st, evs)
    decreases |evs|
  {
    if evs == [] then st else Run(Apply(st, evs[0]), evs[1..])
  }

  /** A capture is submitted into a slot that the receiver may still read. */
  ghost predicate Overwrites(st: State, ev: Event)
    requires Enabled(st, ev)
  {
    && ev.Snap?
    && (exists e :: e in st.phase && e.stream == ev.s
                    && Some(e.slot) == PickFrom(st.layer.swaps[ev.s], 0)
                    && (st.phase[e].InFlight? || st.phase[e].Queued? || st.phase[e].Reading?))
  }

  /** No ring semaphore is signalled while it is signalled already. */
  predicate Resignals(st: State, ev: Event)
    requires Enabled(st, ev)
  {
    Apply(st, ev).layer.resignals > st.layer.resignals
  }

  ghost predicate SafeRun(st: State, evs: seq<Event>)
    requires Valid(st, evs)
    decreases |evs|
  {
    evs == [] || (!Overwrites(st, evs[0]) && SafeRun(Apply(st, evs[0]), evs[1..]))
  }

  /** Every acknowledgement that frees a slot belongs to an export of that very ring. */
  predicate Genuine(st: State, ev: Event) {
    ev.Drain1? ==> forall t :: 0 <= t < |st.layer.swaps| && t != ev.e.stream && ev.e.slot < RING ==>
      !Matches(SlotAt(st.layer, t, ev.e.slot), ev.e.slot, AckOf(ev.e))
  }

  predicate GenuineRun(st: State, evs: seq<Event>)
    requires Valid(st, evs)
    decreases |evs|
  {
    evs == [] || (Genuine(st, evs[0]) && GenuineRun(Apply(st, evs[0]), evs[1..]))
  }

  // ---- invariant ----

  /** Descriptor and semaphore ownership of one slot: a free slot holds neither a fence
      descriptor nor a signalled exportable semaphore, and a sent slot has given both away. */
  predicate SlotOk(slot: CaptureSlot) {
    && slot.content <= slot.generation
    && slot.fenceFd >= -1
    && (!slot.busy ==> !slot.sent)
    && (!slot.busy || slot.sent ==> slot.fenceFd == -1 && !slot.captureSignalled)
    && (slot.captureSignalled ==> slot.fenceFd == -1)
  }

  /** An outstanding export pins its slot: busy, sent and still at its generation. */
  predicate ExportOk(st: State, e: Export)
    requires e in st.phase
  {
    var l := st.layer;
    && InRing(l, e.stream, e.slot)
    && (Live(l, e.stream) ==>
          var slot := SlotAt(l, e.stream, e.slot);
          && e.generation <= slot.generation
          && (e.generation == slot.generation && slot.busy ==> slot.sent)
          && (st.phase[e] != Finished ==> slot.busy && slot.sent && slot.generation == e.generation)
          && (st.phase[e] == Reading ==> slot.content == e.generation))
  }

  predicate Owns(l: Layer, s: nat, i: nat, fd: int) {
    InRing(l, s, i) && SlotAt(l, s, i).fenceFd == fd
  }

  /** Every open fence descriptor belongs to exactly one slot, so none leaks and none is
      closed twice. */
  ghost predicate FencesOwned(l: Layer) {
    && (forall fd :: fd in l.fences ==> fd >= 0 && exists s, i :: Owns(l, s, i, fd))
    && (forall s, i, fd :: Owns(l, s, i, fd) && fd >= 0 ==> fd in l.fences)
    && (forall s, i, t, j, fd :: Owns(l, s, i, fd) && Owns(l, t, j, fd) && fd >= 0 ==> s == t && i == j)
  }

  ghost predicate Inv(st: State) {
    && (forall s, i {:trigger SlotAt(st.layer, s, i)} :: InRing(st.layer, s, i) ==> SlotOk(SlotAt(st.layer, s, i)))
    && (forall s, i {:trigger SlotAt(st.layer, s, i)} ::
          InRing(st.layer, s, i) && !Live(st.layer, s) ==> SlotAt(st.layer, s, i) == Blank)
    && (forall e :: e in st.phase ==> ExportOk(st, e))
    && FencesOwned(st.layer)
  }

  /** Descriptor ownership after a step that leaves every descriptor where it was, or that
      gives slot `(s, i)` a new one in place of the one it held. */
  lemma FencesAfter(l: Layer, r: Layer, s: nat, i: nat, was: int, now: int)
    requires FencesOwned(l)
    requires now != was ==> Owns(l, s, i, was) && now !in l.fences
    requires forall t, j, fd {:trigger Owns(r, t, j, fd)} {:trigger Owns(l, t, j, fd)} :: fd >= 0 ==>
      (Owns(r, t, j, fd) <==> if t == s && j == i && now != was then fd == now else Owns(l, t, j, fd))
    requires now == was ==> r.fences == l.fences
    requires now != was ==> r.fences == l.fences - {was} + (if now >= 0 then {now} else {})
    ensures FencesOwned(r)
  {
    forall fd | fd in r.fences
      ensures fd >= 0 && exists t, j :: Owns(r, t, j, fd)
    {
      if fd in l.fences {
        var t, j :| Owns(l, t, j, fd);
        assert Owns(r, t, j, fd);
      } else {
        assert Owns(r, s, i, fd);
      }
    }
  }

  lemma FencesDestroyed(l: Layer, s: nat)
    requires FencesOwned(l) && s < |l.swaps|
    ensures FencesOwned(Destroyed(l, s))
  {
    var r := Destroyed(l, s);
    forall t: nat, j: nat, fd | fd >= 0
      ensures Owns(r, t, j, fd) <==> t != s && Owns(l, t, j, fd)
    {
      if t != s && InRing(l, t, j) { assert r.swaps[t] == l.swaps[t]; }
    }
    forall j, fd | fd >= 0 && Owns(l, s, j, fd)
      ensures fd in FencesOf(l.swaps[s])
    {
    }
    forall fd | fd in r.fences
      ensures fd >= 0 && exists t, j :: Owns(r, t, j, fd)
    {
      var t, j :| Owns(l, t, j, fd);
      assert Owns(r, t, j, fd);
    }
    forall t, j, fd | Owns(r, t, j, fd) && fd >= 0
      ensures fd in r.fences
    {
      assert t != s && Owns(l, t, j, fd);
      if fd in FencesOf(l.swaps[s]) {
        var k :| 0 <= k < RING && l.swaps[s].slots[k].fenceFd == fd && Owns(l, s, k, fd);
        assert false;
      }
    }
  }

  lemma FencesSnapped(st: State, ev: Event)
    requires Inv(st) && Enabled(st, ev) && ev.Snap?
    ensures FencesOwned(Apply(st, ev).layer)
  {
    var i := PickFrom(st.layer.swaps[ev.s], 0).value;
    assert SlotOk(SlotAt(st.layer, ev.s, i));
    assert Owns(st.layer, ev.s, i, -1);
    FencesAfter(st.layer, Apply(st, ev).layer, ev.s, i, -1, if ev.fence.Some? then ev.fence.value else -1);
  }

  lemma FencesOffered(st: State, ev: Event)
    requires Inv(st) && Enabled(st, ev) && ev.Offer?
    ensures FencesOwned(Apply(st, ev).layer)
  {
    var fd := SlotAt(st.layer, ev.s, ev.i).fenceFd;
    assert Owns(st.layer, ev.s, ev.i, fd);
    FencesAfter(st.layer, Apply(st, ev).layer, ev.s, ev.i, fd, if fd >= 0 && ev.delivered then -1 else fd);
  }

  lemma FencesStep(st: State, ev: Event)
    requires Inv(st) && Enabled(st, ev)
    ensures FencesOwned(Apply(st, ev).layer)
  {
    match ev
    case Destroy(s) => FencesDestroyed(st.layer, s);
    case Snap(_, _, _) => FencesSnapped(st, ev);
    case Offer(_, _, _) => FencesOffered(st, ev);
    case _ => FencesAfter(st.layer, Apply(st, ev).layer, 0, 0, -1, -1);
  }

  lemma SlotsStep(st: State, ev: Event, s: nat, i: nat)
    requires Inv(st) && Enabled(st, ev) && Genuine(st, ev) && InRing(Apply(st, ev).layer, s, i)
    ensures SlotOk(SlotAt(Apply(st, ev).layer, s, i))
    ensures !Live(Apply(st, ev).layer, s) ==> SlotAt(Apply(st, ev).layer, s, i) == Blank
  {
    var l := st.layer;
    if ev.Drain1? { assert ExportOk(st, ev.e); }
    if InRing(l, s, i) { assert SlotOk(SlotAt(l, s, i)); }
  }

  lemma ExportsStep(st: State, ev: Event, e: Export)
    requires Inv(st) && Enabled(st, ev) && Genuine(st, ev) && e in Apply(st, ev).phase
    ensures ExportOk(Apply(st, ev), e)
  {
    if e in st.phase { assert ExportOk(st, e) && SlotOk(SlotAt(st.layer, e.stream, e.slot)); }
    if ev.Drain1? { assert ExportOk(st, ev.e); }
  }

  lemma InvStep(st: State, ev: Event)
    requires Inv(st) && Enabled(st, ev) && Genuine(st, ev)
    ensures Inv(Apply(st, ev))
  {
    var r := Apply(st, ev);
    forall s, i {:trigger SlotAt(r.layer, s, i)} | InRing(r.layer, s, i)
      ensures SlotOk(SlotAt(r.layer, s, i))
      ensures !Live(r.layer, s) ==> SlotAt(r.layer, s, i) == Blank
    {
      SlotsStep(st, ev, s, i);
    }
    forall e | e in r.phase
      ensures ExportOk(r, e)
    {
      ExportsStep(st, ev, e);
    }
    FencesStep(st, ev);
  }

  // ---- safety over whole runs ----

  /** While every acknowledgement is genuine, no capture is submitted into a slot that the
      receiver may still read, and the invariant holds at the end of the run. */
  lemma {:induction false} GenuineRunIsSafe(st: State, evs: seq<Event>)
    requires Inv(st) && Valid(st, evs) && GenuineRun(st, evs)
    ensures SafeRun(st, evs) && Inv(Run(st, evs))
    decreases |evs|
  {
    if evs != [] {
      if Overwrites(st, evs[0]) {
        var e :| e in st.phase && e.stream == evs[0].s && Some(e.slot) == PickFrom(st.layer.swaps[evs[0].s], 0)
          && (st.phase[e].InFlight? || st.phase[e].Queued? || st.phase[e].Reading?);
        assert false;
      }
      InvStep(st, evs[0]);
      GenuineRunIsSafe(Apply(st, evs[0]), evs[1..]);
    }
  }

  function Creates(evs: seq<Event>): nat {
    if evs == [] then 0 else (if evs[0].Create? then 1 else 0) + Creates(evs[1..])
  }

  lemma {:induction false} OneStreamIsGenuine(st: State, evs: seq<Event>)
    requires Valid(st, evs) && |st.layer.swaps| + Creates(evs) <= 1
    requires Inv(st)
    ensures GenuineRun(st, evs)
    decreases |evs|
  {
    if evs != [] {
      if evs[0].Drain1? { assert ExportOk(st, evs[0].e); }
      InvStep(st, evs[0]);
      OneStreamIsGenuine(Apply(st, evs[0]), evs[1..]);
    }
  }

  lemma InvInit()
    ensures Inv(Init)
  {
  }

  lemma {:induction false} RunAppend(st: State, evs: seq<Event>, more: seq<Event>)
    requires Valid(st, evs) && Valid(Run(st, evs), more)
    ensures Valid(st, evs + more) && Run(st, evs + more) == Run(Run(st, evs), more)
    ensures SafeRun(st, evs + more) ==> SafeRun(Run(st, evs), more)
    ensures Creates(evs + more) == Creates(evs) + Creates(more)
    decreases |evs|
  {
    if evs == [] {
      assert evs + more == more;
    } else {
      assert (evs + more)[1..] == evs[1..] + more;
      RunAppend(Apply(st, evs[0]), evs[1..], more);
    }
  }

  /** The driver enqueues every captured present. */
  predicate AllEnqueued(evs: seq<Event>) {
    forall k :: 0 <= k < |evs| && evs[k].Snap? ==> evs[k].enqueued
  }

  /** Extends a run by one event. */
  lemma Then(st: State, evs: seq<Event>, ev: Event) returns (next: seq<Event>)
    requires Valid(st, evs) && Enabled(Run(st, evs), ev)
    ensures next == evs + [ev] && Valid(st, next) && Run(st, next) == Apply(Run(st, evs), ev)
    ensures Overwrites(Run(st, evs), ev) ==> !SafeRun(st, next)
    ensures Creates(next) == Creates(evs) + (if ev.Create? then 1 else 0)
    ensures AllEnqueued(evs) && (ev.Snap? ==> ev.enqueued) ==> AllEnqueued(next)
  {
    assert [ev][1..] == [];
    var after := Apply(Run(st, evs), ev);
    assert Valid(after, []) && Run(after, []) == after;
    RunAppend(st, evs, [ev]);
    next := evs + [ev];
  }

  /** Ring `s` holds `slot` at index 0, its next `more` slots are busy, and its cursor is
      behind them. */
  ghost predicate Filling(st: State, s: nat, slot: CaptureSlot, more: nat, fences: set<int>, phase: map<Export, Phase>) {
    var l := st.layer;
    && Live(l, s) && SlotAt(l, s, 0) == slot
    && SlotAt(l, s, 1).busy == (1 <= more) && SlotAt(l, s, 2).busy == (2 <= more) && SlotAt(l, s, 3).busy == (3 <= more)
    && more < RING && l.swaps[s].cursor == (more + 1) % RING
    && l.fences == fences && st.phase == phase
  }

  lemma FillNext(evs: seq<Event>, s: nat, slot: CaptureSlot, more: nat, phase: map<Export, Phase>) returns (next: seq<Event>)
    requires Valid(Init, evs) && more + 1 < RING && Filling(Run(Init, evs), s, slot, more, {}, phase)
    ensures Valid(Init, next) && Creates(next) == Creates(evs) && (AllEnqueued(evs) ==> AllEnqueued(next))
    ensures Filling(Run(Init, next), s, slot, more + 1, {}, phase)
    ensures |Run(Init, next).layer.swaps| == |Run(Init, evs).layer.swaps|
  {
    var swap := Run(Init, evs).layer.swaps[s];
    assert At(swap.cursor, 0, RING) == more + 1;
    assert !SlotAt(Run(Init, evs).layer, s, more + 1).busy;
    assert PickFrom(swap, 0) == Some(more + 1);
    next := Then(Init, evs, Snap(s, true, None));
  }

  /** A free slot 0 is reused after the other three have been filled. */
  lemma FillRing(evs: seq<Event>, s: nat, slot: CaptureSlot, phase: map<Export, Phase>) returns (next: seq<Event>)
    requires Valid(Init, evs) && !slot.busy && Filling(Run(Init, evs), s, slot, 0, {}, phase)
    ensures Valid(Init, next) && Creates(next) == Creates(evs) && (AllEnqueued(evs) ==> AllEnqueued(next))
    ensures Filling(Run(Init, next), s, slot, 3, {}, phase) && PickFrom(Run(Init, next).layer.swaps[s], 0) == Some(0)
  {
    next := FillNext(evs, s, slot, 0, phase);
    next := FillNext(next, s, slot, 1, phase);
    next := FillNext(next, s, slot, 2, phase);
    assert !SlotAt(Run(Init, next).layer, s, 0).busy;
  }

  // Two rings reach the same slot and generation. The acknowledgement of the first ring's
  // frame then frees the second ring's slot while the receiver reads it.

  const First := Export(0, 0, 1)
  const Second := Export(1, 0, 1)

  ghost predicate Duel(st: State, first: CaptureSlot, second: CaptureSlot, fences: set<int>, phase: map<Export, Phase>) {
    && |st.layer.swaps| == 2 && Live(st.layer, 0) && SlotAt(st.layer, 0, 0) == first
    && Filling(st, 1, second, 0, fences, phase)
  }

  lemma DuelCreated() returns (evs: seq<Event>)
    ensures Valid(Init, evs) && Creates(evs) == 2 && AllEnqueued(evs)
    ensures Run(Init, evs) == State(Created(Created(Init.layer)), map[])
  {
    evs := [];
    evs := Then(Init, evs, Create);
    evs := Then(Init, evs, Create);
  }

  /** The second ring takes a fence descriptor along if it `exports` its frame. */
  lemma DuelSnapped(exports: bool) returns (evs: seq<Event>)
    ensures Valid(Init, evs) && Creates(evs) == 2 && AllEnqueued(evs)
    ensures Duel(Run(Init, evs), CaptureSlot(true, false, 1, 10, false, false, 0),
                 CaptureSlot(true, false, 1, if exports then 11 else -1, false, !exports, 0),
                 if exports then {10, 11} else {10}, map[])
  {
    evs := DuelCreated();
    evs := Then(Init, evs, Snap(0, true, Some(10)));
    evs := Then(Init, evs, Snap(1, true, if exports then Some(11) else None));
  }

  lemma DuelOffered() returns (evs: seq<Event>)
    ensures Valid(Init, evs) && Creates(evs) == 2
    ensures Duel(Run(Init, evs), CaptureSlot(true, true, 1, -1, false, false, 0),
                 CaptureSlot(true, true, 1, -1, false, false, 0), {}, map[First := InFlight, Second := InFlight])
  {
    evs := DuelSnapped(true);
    evs := Then(Init, evs, Offer(0, 0, true));
    evs := Then(Init, evs, Offer(1, 0, true));
  }

  lemma DuelReading() returns (evs: seq<Event>)
    ensures Valid(Init, evs) && Creates(evs) == 2
    ensures Duel(Run(Init, evs), CaptureSlot(true, true, 1, -1, false, false, 0),
                 CaptureSlot(true, true, 1, -1, false, false, 1), {}, map[First := Acking, Second := Reading])
  {
    evs := DuelOffered();
    evs := Then(Init, evs, Copied(1, 0));
    evs := Then(Init, evs, Accept(Second));
    evs := Then(Init, evs, BeginRead(Second));
    evs := Then(Init, evs, Reject(First));
  }

  lemma DuelFreed() returns (evs: seq<Event>)
    ensures Valid(Init, evs) && Creates(evs) == 2
    ensures Filling(Run(Init, evs), 1, CaptureSlot(false, false, 1, -1, false, false, 1), 3, {},
                    map[First := Finished, Second := Reading])
    ensures PickFrom(Run(Init, evs).layer.swaps[1], 0) == Some(0)
  {
    evs := DuelReading();
    evs := Then(Init, evs, Drain1(First));
    var freed := CaptureSlot(false, false, 1, -1, false, false, 1);
    var phase := map[First := Finished, Second := Reading];
    assert Duel(Run(Init, evs), freed.(content := 0), freed, {}, phase);
    evs := FillRing(evs, 1, freed, phase);
  }

  /** The acknowledgement of one ring's frame frees another ring's slot, and the next
      capture overwrites the image that is being read. */
  lemma ForeignAckOverwrites() returns (evs: seq<Event>)
    ensures Valid(Init, evs) && Creates(evs) == 2 && !SafeRun(Init, evs) && !Untorn(Run(Init, evs))
  {
    evs := DuelFreed();
    assert Second in Run(Init, evs).phase;
    evs := Then(Init, evs, Snap(1, true, None));
    assert In(Run(Init, evs), Second, Reading) && SlotAt(Run(Init, evs).layer, 1, 0).generation == 2;
  }

  /** The same acknowledgement frees a slot whose export was not accepted yet, and which
      therefore still holds its fence descriptor. */
  lemma ForeignAckFreesDescriptor() returns (evs: seq<Event>)
    ensures Valid(Init, evs) && Creates(evs) == 2 && !Bare(Run(Init, evs).layer)
  {
    evs := DuelSnapped(true);
    evs := Then(Init, evs, Offer(0, 0, true));
    evs := Then(Init, evs, Reject(First));
    evs := Then(Init, evs, Drain1(First));
    var slot := SlotAt(Run(Init, evs).layer, 1, 0);
    assert !slot.busy && slot.fenceFd == 11;
  }

  /** The next capture into such a slot puts its own descriptor over the one held, which no
      slot owns any more. */
  lemma OverwrittenDescriptorLeaks(st: State, ev: Event)
    requires FencesOwned(st.layer) && Enabled(st, ev) && ev.Snap? && ev.fence.Some?
    requires SlotAt(st.layer, ev.s, PickFrom(st.layer.swaps[ev.s], 0).value).fenceFd >= 0
    ensures !FencesOwned(Apply(st, ev).layer)
  {
    var l, r, i := st.layer, Apply(st, ev).layer, PickFrom(st.layer.swaps[ev.s], 0).value;
    var fd := SlotAt(l, ev.s, i).fenceFd;
    assert Owns(l, ev.s, i, fd);
    assert fd in r.fences;
    forall s, j
      ensures !Owns(r, s, j, fd)
    {
      if Owns(r, s, j, fd) && (s != ev.s || j != i) { assert Owns(l, s, j, fd); }
    }
  }

  lemma OneStreamIsSafe(evs: seq<Event>)
    requires Valid(Init, evs) && Creates(evs) <= 1
    ensures GenuineRun(Init, evs) && SafeRun(Init, evs) && Inv(Run(Init, evs))
  {
    InvInit();
    OneStreamIsGenuine(Init, evs);
    GenuineRunIsSafe(Init, evs);
  }

  /** The protocol is safe exactly for layers that create at most one swapchain. */
  lemma SafeExactlyWithOneStream(limit: nat)
    ensures (forall evs :: Valid(Init, evs) && Creates(evs) <= limit ==> SafeRun(Init, evs)) <==> limit <= 1
  {
    if limit <= 1 {
      forall evs | Valid(Init, evs) && Creates(evs) <= limit
        ensures SafeRun(Init, evs)
      {
        OneStreamIsSafe(evs);
      }
    } else {
      var evs := ForeignAckOverwrites();
    }
  }

  // ---- what the runs guarantee, and how far ----

  /** While the receiver reads a live ring's image, the image holds exactly the frame whose
      export the receiver is handling, and no other copy into it has been submitted. */
  ghost predicate Untorn(st: State) {
    forall e :: In(st, e, Reading) && Live(st.layer, e.stream) ==>
      && InRing(st.layer, e.stream, e.slot) && SlotAt(st.layer, e.stream, e.slot).busy
      && SlotAt(st.layer, e.stream, e.slot).content == SlotAt(st.layer, e.stream, e.slot).generation == e.generation
  }

  lemma ReadsAreUntorn(evs: seq<Event>)
    requires Valid(Init, evs) && GenuineRun(Init, evs)
    ensures Untorn(Run(Init, evs))
  {
    InvInit();
    GenuineRunIsSafe(Init, evs);
    var st := Run(Init, evs);
    forall e | In(st, e, Reading)
      ensures ExportOk(st, e)
    {
    }
  }

  lemma UntornExactlyWithOneStream(limit: nat)
    ensures (forall evs :: Valid(Init, evs) && Creates(evs) <= limit ==> Untorn(Run(Init, evs))) <==> limit <= 1
  {
    if limit <= 1 {
      forall evs | Valid(Init, evs) && Creates(evs) <= limit
        ensures Untorn(Run(Init, evs))
      {
        OneStreamIsSafe(evs);
        ReadsAreUntorn(evs);
      }
    } else {
      var evs := ForeignAckOverwrites();
    }
  }

  /** A free slot holds no fence descriptor, and its exportable semaphore is unsignalled. */
  ghost predicate Bare(l: Layer) {
    forall s, i {:trigger SlotAt(l, s, i)} :: InRing(l, s, i) && !SlotAt(l, s, i).busy ==>
      SlotAt(l, s, i).fenceFd == -1 && !SlotAt(l, s, i).captureSignalled
  }

  /** The open fence descriptors are exactly those held by slots, each by one slot, and a
      free slot holds none. */
  lemma DescriptorsAreOwned(evs: seq<Event>)
    requires Valid(Init, evs) && GenuineRun(Init, evs)
    ensures FencesOwned(Run(Init, evs).layer) && Bare(Run(Init, evs).layer)
  {
    InvInit();
    GenuineRunIsSafe(Init, evs);
  }

  lemma DescriptorsOwnedExactlyWithOneStream(limit: nat)
    ensures (forall evs :: Valid(Init, evs) && Creates(evs) <= limit ==>
               FencesOwned(Run(Init, evs).layer) && Bare(Run(Init, evs).layer)) <==> limit <= 1
  {
    if limit <= 1 {
      forall evs | Valid(Init, evs) && Creates(evs) <= limit
        ensures FencesOwned(Run(Init, evs).layer) && Bare(Run(Init, evs).layer)
      {
        OneStreamIsSafe(evs);
        DescriptorsAreOwned(evs);
      }
    } else {
      var evs := ForeignAckFreesDescriptor();
    }
  }

  /** A slot becomes free exactly if its swapchain is destroyed or an acknowledgement of its
      index and its present generation arrives. */
  lemma BusyClearsExactly(st: State, ev: Event, s: nat, i: nat)
    requires Enabled(st, ev) && InRing(st.layer, s, i) && SlotAt(st.layer, s, i).busy
    ensures InRing(Apply(st, ev).layer, s, i)
    ensures !SlotAt(Apply(st, ev).layer, s, i).busy <==>
              || (ev.Destroy? && ev.s == s)
              || (ev.Drain1? && ev.e.slot == i && ev.e.generation == SlotAt(st.layer, s, i).generation)
  {
    if ev.Snap? { assert PickFrom(st.layer.swaps[ev.s], 0).value != i || ev.s != s; }
  }

  // ---- every generation is exported at most once, with any number of streams ----

  predicate Known(st: State, e: Export) {
    && e in st.phase && InRing(st.layer, e.stream, e.slot)
    && (Live(st.layer, e.stream) ==>
          var slot := SlotAt(st.layer, e.stream, e.slot);
          e.generation <= slot.generation && (e.generation == slot.generation && slot.busy ==> slot.sent))
  }

  ghost predicate Logged(st: State) {
    && (forall k :: 0 <= k < |st.layer.sent| ==> Known(st, st.layer.sent[k]))
    && (forall j, k :: 0 <= j < k < |st.layer.sent| ==> st.layer.sent[j] != st.layer.sent[k])
  }

  lemma LoggedStep(st: State, ev: Event)
    requires Logged(st) && Enabled(st, ev)
    ensures Logged(Apply(st, ev))
  {
    var r := Apply(st, ev);
    forall k | 0 <= k < |st.layer.sent|
      ensures Known(r, st.layer.sent[k])
    {
      var e := st.layer.sent[k];
      assert Known(st, e);
    }
    if ev.Offer? && |r.layer.sent| > |st.layer.sent| {
      var e := Export(ev.s, ev.i, SlotAt(st.layer, ev.s, ev.i).generation);
      if e in st.layer.sent {
        assert false;
      }
    }
  }

  lemma {:induction false} ExportedOnce(st: State, evs: seq<Event>)
    requires Logged(st) && Valid(st, evs)
    ensures Logged(Run(st, evs))
    decreases |evs|
  {
    if evs != [] {
      LoggedStep(st, evs[0]);
      ExportedOnce(Apply(st, evs[0]), evs[1..]);
    }
  }

  // ---- ring semaphores ----

  /** What became of a capture: whether the driver enqueued its present, and whether its
      fence was exported. */
  datatype Outcome = Outcome(enqueued: bool, exported: bool)

  const Smooth := Outcome(true, true)

  predicate SnapsInto(st: State, ev: Event, s: nat, i: nat)
    requires Enabled(st, ev)
  {
    ev.Snap? && ev.s == s && PickFrom(st.layer.swaps[s], 0) == Some(i)
  }

  /** The outcome of the last capture into slot `i` of ring `s` since the ring was created;
      `was` is the outcome before the run. */
  function LastOutcome(st: State, evs: seq<Event>, s: nat, i: nat, was: Outcome): Outcome
    requires Valid(st, evs)
    decreases |evs|
  {
    if evs == [] then was
    else LastOutcome(Apply(st, evs[0]), evs[1..], s, i, OutcomeAfter(st, evs[0], s, i, was))
  }

  function OutcomeAfter(st: State, ev: Event, s: nat, i: nat, was: Outcome): Outcome
    requires Enabled(st, ev)
  {
    if SnapsInto(st, ev, s, i) then Outcome(ev.enqueued, ev.fence.Some?)
    else if ev == Destroy(s) then Smooth
    else was
  }

  /** The two semaphores of a slot tell the outcome of its last capture. */
  predicate Tells(l: Layer, s: nat, i: nat, last: Outcome) {
    if InRing(l, s, i) then SlotAt(l, s, i).presentSignalled == !last.enqueued && SlotAt(l, s, i).captureSignalled == !last.exported
    else last == Smooth
  }

  lemma TellsStep(st: State, ev: Event, s: nat, i: nat, was: Outcome)
    requires Enabled(st, ev) && Tells(st.layer, s, i, was)
    ensures Tells(Apply(st, ev).layer, s, i, OutcomeAfter(st, ev, s, i, was))
  {
  }

  lemma {:induction false} SemaphoresTell(st: State, evs: seq<Event>, s: nat, i: nat, was: Outcome)
    requires Valid(st, evs) && Tells(st.layer, s, i, was)
    ensures Tells(Run(st, evs).layer, s, i, LastOutcome(st, evs, s, i, was))
    decreases |evs|
  {
    if evs != [] {
      TellsStep(st, evs[0], s, i, was);
      SemaphoresTell(Apply(st, evs[0]), evs[1..], s, i, OutcomeAfter(st, evs[0], s, i, was));
    }
  }

  /** In every run, the next event signals a signalled ring semaphore exactly if it captures
      into a slot whose last capture was not enqueued, or whose fence was not exported. */
  lemma ResignalsExactly(evs: seq<Event>, ev: Event)
    requires Valid(Init, evs) && Enabled(Run(Init, evs), ev)
    ensures Resignals(Run(Init, evs), ev) <==>
      ev.Snap? && LastOutcome(Init, evs, ev.s, PickFrom(Run(Init, evs).layer.swaps[ev.s], 0).value, Smooth) != Smooth
  {
    if ev.Snap? { SemaphoresTell(Init, evs, ev.s, PickFrom(Run(Init, evs).layer.swaps[ev.s], 0).value, Smooth); }
  }

  /** While acknowledgements are genuine, a slot whose fence was not exported stays busy, so
      only a present that was not enqueued has this effect. */
  lemma GenuineResignalsExactly(evs: seq<Event>, ev: Event)
    requires Valid(Init, evs) && GenuineRun(Init, evs) && Enabled(Run(Init, evs), ev)
    ensures Resignals(Run(Init, evs), ev) <==>
      ev.Snap? && !LastOutcome(Init, evs, ev.s, PickFrom(Run(Init, evs).layer.swaps[ev.s], 0).value, Smooth).enqueued
  {
    InvInit();
    GenuineRunIsSafe(Init, evs);
    ResignalsExactly(evs, ev);
    if ev.Snap? {
      var i := PickFrom(Run(Init, evs).layer.swaps[ev.s], 0).value;
      SemaphoresTell(Init, evs, ev.s, i, Smooth);
      assert SlotOk(SlotAt(Run(Init, evs).layer, ev.s, i));
    }
  }

  lemma ForeignAckFreesUnexported() returns (evs: seq<Event>)
    ensures Valid(Init, evs) && Creates(evs) == 2 && AllEnqueued(evs)
    ensures Filling(Run(Init, evs), 1, CaptureSlot(false, false, 1, -1, false, true, 0), 0, {}, map[First := Finished])
  {
    evs := DuelSnapped(false);
    evs := Then(Init, evs, Offer(0, 0, true));
    evs := Then(Init, evs, Reject(First));
    evs := Then(Init, evs, Drain1(First));
  }

  /** With two rings every present may be enqueued, and still a semaphore is signalled twice:
      a foreign acknowledgement frees a slot whose fence was never exported. */
  lemma ForeignAckResignals() returns (evs: seq<Event>)
    ensures Valid(Init, evs) && Creates(evs) == 2 && AllEnqueued(evs) && Run(Init, evs).layer.resignals > 0
  {
    evs := ForeignAckFreesUnexported();
    evs := FillRing(evs, 1, CaptureSlot(false, false, 1, -1, false, true, 0), map[First := Finished]);
    evs := Then(Init, evs, Snap(1, true, None));
  }

  lemma RejectedSnap() returns (evs: seq<Event>)
    ensures Valid(Init, evs) && Creates(evs) == 1
    ensures Filling(Run(Init, evs), 0, CaptureSlot(true, true, 1, -1, true, false, 0), 0, {}, map[First := InFlight])
  {
    evs := [];
    evs := Then(Init, evs, Create);
    evs := Then(Init, evs, Snap(0, false, Some(10)));
    evs := Then(Init, evs, Offer(0, 0, true));
  }

  lemma RejectedPresentResignals() returns (evs: seq<Event>, last: Event)
    ensures Valid(Init, evs) && Creates(evs) == 1
    ensures Enabled(Run(Init, evs), last) && Resignals(Run(Init, evs), last)
  {
    evs := RejectedSnap();
    evs := Then(Init, evs, Reject(First));
    evs := Then(Init, evs, Drain1(First));
    var freed := CaptureSlot(false, false, 1, -1, true, false, 0);
    evs := FillRing(evs, 0, freed, map[First := Finished]);
    last := Snap(0, true, None);
  }

  predicate Settled(l: Layer) {
    forall s, i {:trigger SlotAt(l, s, i)} :: 0 <= s < |l.swaps| && 0 <= i < RING ==> !SlotAt(l, s, i).presentSignalled
  }

  lemma SettledStep(st: State, ev: Event)
    requires Inv(st) && Enabled(st, ev) && Settled(st.layer) && (ev.Snap? ==> ev.enqueued)
    ensures Settled(Apply(st, ev).layer) && Apply(st, ev).layer.resignals == st.layer.resignals
  {
    var l, r := st.layer, Apply(st, ev).layer;
    forall s, i {:trigger SlotAt(r, s, i)} | 0 <= s < |r.swaps| && 0 <= i < RING
      ensures !SlotAt(r, s, i).presentSignalled
    {
      if InRing(l, s, i) { assert !SlotAt(l, s, i).presentSignalled; }
    }
    if ev.Snap? { assert SlotOk(SlotAt(l, ev.s, PickFrom(l.swaps[ev.s], 0).value)); }
  }

  lemma {:induction false} EnqueuedRunNeverResignals(st: State, evs: seq<Event>)
    requires Inv(st) && Valid(st, evs) && GenuineRun(st, evs) && Settled(st.layer)
    requires AllEnqueued(evs)
    ensures Run(st, evs).layer.resignals == st.layer.resignals
    decreases |evs|
  {
    if evs != [] {
      SettledStep(st, evs[0]);
      InvStep(st, evs[0]);
      EnqueuedRunNeverResignals(Apply(st, evs[0]), evs[1..]);
    }
  }

  /** Enqueued presents never signal a semaphore twice exactly for layers that create at most
      one swapchain. */
  lemma EnqueuedExactlyWithOneStream(limit: nat)
    ensures (forall evs :: Valid(Init, evs) && Creates(evs) <= limit && AllEnqueued(evs) ==>
               Run(Init, evs).layer.resignals == 0) <==> limit <= 1
  {
    if limit <= 1 {
      forall evs | Valid(Init, evs) && Creates(evs) <= limit && AllEnqueued(evs)
        ensures Run(Init, evs).layer.resignals == 0
      {
        InvInit();
        OneStreamIsGenuine(Init, evs);
        EnqueuedRunNeverResignals(Init, evs);
      }
    } else {
      var evs := ForeignAckResignals();
    }
  }

  // ---- one intercepted present is a run of these events ----

  predicate DeadIdle(l: Layer) {
    forall s, i {:trigger SlotAt(l, s, i)} :: 0 <= s < |l.swaps| && 0 <= i < RING && !Live(l, s) ==> !SlotAt(l, s, i).busy
  }

  lemma {:induction false} DrainsAreARun(st: State, origins: seq<Export>, acks: seq<Ack>)
    requires |origins| == |acks|
    requires forall k :: 0 <= k < |acks| ==> In(st, origins[k], Acking) && AckOf(origins[k]) == acks[k]
    requires forall j, k :: 0 <= j < k < |acks| ==> origins[j] != origins[k]
    requires DeadIdle(st.layer)
    ensures var evs := seq(|origins|, k requires 0 <= k < |origins| => Drain1(origins[k]));
            && Valid(st, evs) && Run(st, evs).layer == DrainAll(st.layer, acks)
            && DeadIdle(Run(st, evs).layer) && Run(st, evs).layer.fences == st.layer.fences
    decreases |acks|
  {
    if acks != [] {
      var evs := seq(|origins|, k requires 0 <= k < |origins| => Drain1(origins[k]));
      var next := Apply(st, evs[0]);
      assert evs[1..] == seq(|origins| - 1, k requires 0 <= k < |origins| - 1 => Drain1(origins[1..][k]));
      forall s, i {:trigger SlotAt(next.layer, s, i)} | 0 <= s < |next.layer.swaps| && 0 <= i < RING && !Live(next.layer, s)
        ensures !SlotAt(next.layer, s, i).busy
      {
        assert !SlotAt(st.layer, s, i).busy;
      }
      DrainsAreARun(next, origins[1..], acks[1..]);
    }
  }

  lemma {:induction false} RetriesAreARun(st: State, s: nat, i: nat, deliverable: set<(nat, nat)>) returns (evs: seq<Event>)
    requires i <= RING && DeadIdle(st.layer)
    ensures Valid(st, evs) && Run(st, evs).layer == EmitFrom(st.layer, s, i, deliverable)
    ensures Run(st, evs).layer.fences <= st.layer.fences
    decreases |st.layer.swaps| - s, RING - i
  {
    if s >= |st.layer.swaps| {
      evs := [];
    } else if i == RING {
      evs := RetriesAreARun(st, s + 1, 0, deliverable);
    } else if SlotAt(st.layer, s, i).busy && !SlotAt(st.layer, s, i).sent {
      var ev := Offer(s, i, (s, i) in deliverable);
      var next := Apply(st, ev);
      forall t, j {:trigger SlotAt(next.layer, t, j)} | 0 <= t < |next.layer.swaps| && 0 <= j < RING && !Live(next.layer, t)
        ensures !SlotAt(next.layer, t, j).busy
      {
        assert !SlotAt(st.layer, t, j).busy;
      }
      var rest := RetriesAreARun(next, s, i + 1, deliverable);
      evs := [ev] + rest;
      assert evs[1..] == rest;
    } else {
      evs := RetriesAreARun(st, s, i + 1, deliverable);
    }
  }

  lemma ForwardIsARun(st: State, q: Request) returns (evs: seq<Event>)
    requires q.fence.Some? ==> q.fence.value >= -1 && q.fence.value !in st.layer.fences
    ensures Valid(st, evs) && Run(st, evs).layer == Forwarded(st.layer, q)
  {
    var pick := CapturedSlot(st.layer, q);
    if pick.None? {
      evs := [PassOn];
      assert evs[1..] == [];
    } else {
      var snap := Snap(q.stream, q.enqueued, q.fence);
      if q.fence.Some? {
        var offer := Offer(q.stream, pick.value, q.delivered);
        evs := [snap, offer];
        assert evs[1..] == [offer] && [offer][1..] == [];
        var middle := Apply(st, snap);
        var after := Apply(middle, offer);
        assert Valid(after, []) && Run(after, []) == after;
        assert Valid(middle, [offer]) && Run(middle, [offer]) == after;
      } else {
        evs := [snap];
        assert evs[1..] == [];
      }
    }
  }

  /** The hook refines the protocol: whatever acknowledgements it reads and whatever the
      driver and the socket answer, its effect on the layer is that of a run. */
  lemma PresentIsARun(st: State, datagrams: seq<Datagram>, origins: seq<Export>, q: Request) returns (evs: seq<Event>)
    requires DeadIdle(st.layer)
    requires var acks := Readable(datagrams);
             && |origins| == |acks|
             && (forall k :: 0 <= k < |acks| ==> In(st, origins[k], Acking) && AckOf(origins[k]) == acks[k])
             && (forall j, k :: 0 <= j < k < |acks| ==> origins[j] != origins[k])
    requires q.fence.Some? ==>
               && q.fence.value >= -1
               && q.fence.value !in EmitFrom(DrainAll(st.layer, Readable(datagrams)), 0, 0, q.deliverable).fences
    ensures Valid(st, evs) && Run(st, evs).layer == Presented(st.layer, datagrams, q)
  {
    DrainsAreARun(st, origins, Readable(datagrams));
    var drains := seq(|origins|, k requires 0 <= k < |origins| => Drain1(origins[k]));
    var retries := RetriesAreARun(Run(st, drains), 0, 0, q.deliverable);
    RunAppend(st, drains, retries);
    var last := ForwardIsARun(Run(st, drains + retries), q);
    RunAppend(st, drains + retries, last);
    evs := drains + retries + last;
  }
}
