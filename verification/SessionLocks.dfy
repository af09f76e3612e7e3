/** Session locking: the compositor confirms a lock only after every output has presented
    lock content. Outputs are numbered in the order in which they are created: a connector
    that comes back is a new output. Each confirmation object is identified by the number of
    its lock request. */
module SessionLocks {
  import opened Options

  const WORD := 0x1_0000_0000_0000_0000

  datatype LockOutput = LockOutput(locked: bool, surface: bool, generation: nat, presentations: nat)

  const DefaultOutput := LockOutput(false, false, 0, 0)

  /** `outputs` are those of the space, and `made` counts all that were ever created. */
  datatype Session = Session(
    locked: bool, generation: nat, confirmation: Option<nat>,
    outputs: seq<nat>, made: nat, records: map<nat, LockOutput>,
    requests: nat, confirmed: seq<nat>)

  const Start := Session(false, 0, None, [], 0, map[], 0, [])

  datatype Event =
    | Lock(allowed: bool)
    | Unlock
    | NewSurface(o: nat)
    | Presented(o: nat, generation: nat)
    | Connect
    | Disconnect(o: nat)
    | Maintain

  function Recorded(r: LockOutput, generation: nat): LockOutput {
    if !r.locked || r.generation != generation then r
    else r.(presentations := if r.presentations < 255 then r.presentations + 1 else 255)
  }

  predicate Ready(r: LockOutput, generation: nat) {
    r.locked && r.generation == generation && r.presentations >= 2
  }

  function Locked(s: Session): Session {
    var g := (s.generation + 1) % WORD;
    s.(locked := true, generation := g, confirmation := Some(s.requests), records := s.records + FreshRecords(s.outputs, g))
  }

  function FreshRecord(generation: nat): LockOutput { LockOutput(true, false, generation, 0) }

  function FreshRecords(outputs: seq<nat>, generation: nat): map<nat, LockOutput> {
    map o | o in outputs :: FreshRecord(generation)
  }

  function Unlocked(s: Session): Session {
    s.(locked := false, confirmation := None,
       records := map o | o in s.records :: if o in s.outputs then DefaultOutput else s.records[o])
  }

  function RecordOf(s: Session, o: nat): LockOutput {
    if o in s.records then s.records[o] else DefaultOutput
  }

  function Retagged(s: Session, o: nat): Session {
    s.(records := s.records[o := RecordOf(s, o).(locked := true, generation := s.generation, surface := true)])
  }

  predicate AllReady(s: Session, generation: nat) {
    forall o :: o in s.outputs ==> o in s.records && Ready(s.records[o], generation)
  }

  function FramePresented(s: Session, o: nat, generation: nat): Session {
    if !s.locked || s.generation != generation then s
    else
      var r := s.(records := if o in s.records then s.records[o := Recorded(s.records[o], generation)] else s.records);
      if AllReady(r, generation) && r.confirmation.Some?
      then r.(confirmation := None, confirmed := r.confirmed + [r.confirmation.value])
      else r
  }

  /** A connected output is new; during a lock it comes with a fresh record. */
  function Connected(s: Session): Session {
    s.(outputs := s.outputs + [s.made], made := s.made + 1,
       records := if s.locked then s.records[s.made := FreshRecord(s.generation)] else s.records)
  }

  predicate Enabled(s: Session, ev: Event) {
    match ev
    case NewSurface(o) => o < s.made
    case Presented(o, _) => o < s.made
    case Disconnect(o) => o in s.outputs
    case _ => true
  }

  function Apply(s: Session, ev: Event): Session
    requires Enabled(s, ev)
  {
    match ev
    case Lock(allowed) =>
      var r := if s.locked || !allowed then s else Locked(s);
      r.(requests := s.requests + 1)
    case Unlock => Unlocked(s)
    case NewSurface(o) => Retagged(s, o)
    case Presented(o, generation) => FramePresented(s, o, generation)
    case Connect => Connected(s)
    case Disconnect(o) => s.(outputs := Without(s.outputs, o))
    case Maintain =>
      if !s.locked then s
      else s.(records := FreshRecords(s.outputs, s.generation) + s.records)
  }

  function Without(s: seq<nat>, o: nat): (r: seq<nat>)
    ensures forall p :: p in r <==> p in s && p != o
  {
    if s == [] then [] else (if s[0] == o then [] else [s[0]]) + Without(s[1..], o)
  }

  // ---- runs ----

  predicate ValidRun(evs: seq<Event>)
    decreases |evs|, 0
  {
    evs == [] || (ValidRun(evs[..|evs| - 1]) && Enabled(Run(evs[..|evs| - 1]), evs[|evs| - 1]))
  }

  function Run(evs: seq<Event>): Session
    requires ValidRun(evs)
    decreases |evs|, 1
  {
    if evs == [] then Start else Apply(Run(evs[..|evs| - 1]), evs[|evs| - 1])
  }

  // ---- what the events say ----

  /** How many lock requests there were, how many of them were granted, and how many outputs
      were connected. */
  function Requests(evs: seq<Event>): nat {
    if evs == [] then 0 else Requests(evs[..|evs| - 1]) + if evs[|evs| - 1].Lock? then 1 else 0
  }

  function Grants(evs: seq<Event>): nat {
    if evs == [] then 0
    else
      var before, ev := evs[..|evs| - 1], evs[|evs| - 1];
      Grants(before) + if ev.Lock? && ev.allowed && Holder(before).None? then 1 else 0
  }

  function Connects(evs: seq<Event>): nat {
    if evs == [] then 0 else Connects(evs[..|evs| - 1]) + if evs[|evs| - 1].Connect? then 1 else 0
  }

  /** The request that took the present lock, if the session is locked: the first allowed
      one since the last unlock. */
  function Holder(evs: seq<Event>): Option<nat> {
    if evs == [] then None
    else
      var before, ev := evs[..|evs| - 1], evs[|evs| - 1];
      if ev.Unlock? then None
      else if ev.Lock? && ev.allowed && Holder(before).None? then Some(Requests(before))
      else Holder(before)
  }

  /** The generation of the present lock, or of the last one: locks are numbered in words. */
  function LockGeneration(evs: seq<Event>): nat { Grants(evs) % WORD }

  predicate InSpace(evs: seq<Event>, o: nat) {
    evs != [] &&
    var before, ev := evs[..|evs| - 1], evs[|evs| - 1];
    if ev.Connect? && o == Connects(before) then true
    else if ev == Disconnect(o) then false
    else InSpace(before, o)
  }

  /** How many frames of the present lock output `o` has presented: frames that carry the
      lock's generation, since the session was locked. */
  function FramesOfLock(evs: seq<Event>, o: nat): nat {
    if evs == [] then 0
    else
      var before, ev := evs[..|evs| - 1], evs[|evs| - 1];
      match ev
      case Lock(allowed) => if allowed && Holder(before).None? then 0 else FramesOfLock(before, o)
      case Unlock => 0
      case Presented(p, g) =>
        FramesOfLock(before, o) + if Holder(before).Some? && g == LockGeneration(before) && p == o then 1 else 0
      case _ => FramesOfLock(before, o)
  }

  /** The session is what the events say. */
  lemma {:induction false} RunTells(evs: seq<Event>)
    requires ValidRun(evs)
    ensures var s := Run(evs);
            && s.requests == Requests(evs) && s.made == Connects(evs)
            && s.locked == Holder(evs).Some? && s.generation == LockGeneration(evs)
    decreases |evs|
  {
    if evs != [] {
      RunTells(evs[..|evs| - 1]);
      WordNext(Grants(evs[..|evs| - 1]));
    }
  }

  lemma WordNext(n: nat)
    ensures (n % WORD + 1) % WORD == (n + 1) % WORD
  {
  }

  lemma {:induction false} SpaceTells(evs: seq<Event>, o: nat)
    requires ValidRun(evs)
    ensures o in Run(evs).outputs <==> InSpace(evs, o)
    decreases |evs|
  {
    if evs != [] {
      RunTells(evs[..|evs| - 1]);
      RunKeepsInv(evs[..|evs| - 1]);
      SpaceTells(evs[..|evs| - 1], o);
    }
  }

  lemma {:induction false} HolderIsRequest(evs: seq<Event>)
    ensures Holder(evs).Some? ==> Holder(evs).value < Requests(evs)
    decreases |evs|
  {
    if evs != [] { HolderIsRequest(evs[..|evs| - 1]); }
  }

  lemma {:induction false} ConfirmedRequests(evs: seq<Event>, n: nat)
    requires ValidRun(evs) && n in Run(evs).confirmed
    ensures n < Requests(evs)
    decreases |evs|
  {
    RunKeepsInv(evs);
    RunTells(evs);
  }

  /** A confirmation is pending exactly from the granting of a lock until it is given or the
      session is unlocked, and it is that of the request that took the lock. */
  lemma {:induction false} PendingExactly(evs: seq<Event>, n: nat)
    requires ValidRun(evs)
    ensures Run(evs).confirmation == Some(n) <==> Holder(evs) == Some(n) && n !in Run(evs).confirmed
    decreases |evs|
  {
    if evs != [] {
      var before, ev := evs[..|evs| - 1], evs[|evs| - 1];
      PendingExactly(before, n);
      RunTells(before);
      RunKeepsInv(before);
      HolderIsRequest(before);
      PendingStep(Run(before), ev);
      if Run(before).confirmation.Some? { PendingExactly(before, Run(before).confirmation.value); }
    }
  }

  /** Which confirmation an event leaves pending, and which one it gives. */
  lemma PendingStep(s: Session, ev: Event)
    requires Enabled(s, ev)
    ensures var r := Apply(s, ev);
            && (ev.Lock? && ev.allowed && !s.locked ==> r.confirmation == Some(s.requests) && r.confirmed == s.confirmed)
            && (ev.Lock? && !(ev.allowed && !s.locked) ==> r.confirmation == s.confirmation && r.confirmed == s.confirmed)
            && (ev.Unlock? ==> r.confirmation == None && r.confirmed == s.confirmed)
            && (!ev.Lock? && !ev.Unlock? ==>
                  || (r.confirmation == s.confirmation && r.confirmed == s.confirmed)
                  || (s.confirmation.Some? && r.confirmation == None && r.confirmed == s.confirmed + [s.confirmation.value]))
  {
  }

  lemma RunNext(evs: seq<Event>, ev: Event)
    requires ValidRun(evs) && Enabled(Run(evs), ev)
    ensures ValidRun(evs + [ev]) && Run(evs + [ev]) == Apply(Run(evs), ev)
  {
    assert (evs + [ev])[..|evs|] == evs;
  }

  // ---- invariant ----

  /** An output of the space holds a record of the present lock, with the number of frames
      of this lock that it presented. */
  predicate Truthful(s: Session, o: nat, frames: nat) {
    && o in s.records && s.records[o].locked && s.records[o].generation == s.generation
    && s.records[o].presentations == if frames < 255 then frames else 255
  }

  ghost predicate Inv(s: Session) {
    && (forall o :: o in s.outputs ==> o < s.made)
    && (s.confirmation.Some? ==> s.locked && s.confirmation.value < s.requests && s.confirmation.value !in s.confirmed)
    && (forall k :: 0 <= k < |s.confirmed| ==> s.confirmed[k] < s.requests)
    && (forall j, k :: 0 <= j < k < |s.confirmed| ==> s.confirmed[j] != s.confirmed[k])
  }

  lemma InvStep(s: Session, ev: Event)
    requires Inv(s) && Enabled(s, ev)
    ensures Inv(Apply(s, ev))
  {
  }

  lemma {:induction false} RunKeepsInv(evs: seq<Event>)
    requires ValidRun(evs)
    ensures Inv(Run(evs))
    decreases |evs|
  {
    if evs != [] {
      RunKeepsInv(evs[..|evs| - 1]);
      InvStep(Run(evs[..|evs| - 1]), evs[|evs| - 1]);
    }
  }

  lemma {:induction false} NotYetMade(evs: seq<Event>, o: nat)
    requires ValidRun(evs) && Run(evs).made <= o
    ensures FramesOfLock(evs, o) == 0
    decreases |evs|
  {
    if evs != [] { NotYetMade(evs[..|evs| - 1], o); }
  }

  /** In every run, the records of the outputs of a locked space tell exactly how many
      frames of this lock each of them presented. */
  lemma {:induction false} RecordsAreTruthful(evs: seq<Event>, o: nat)
    requires ValidRun(evs) && Run(evs).locked && o in Run(evs).outputs
    ensures Truthful(Run(evs), o, FramesOfLock(evs, o))
    decreases |evs|
  {
    var before, ev := evs[..|evs| - 1], evs[|evs| - 1];
    var s := Run(before);
    RunKeepsInv(before);
    RunTells(before);
    if s.locked && o in s.outputs {
      RecordsAreTruthful(before, o);
    } else if ev.Connect? {
      NotYetMade(before, o);
    }
  }

  // ---- results ----

  /** Every output in the space has presented two frames of the lock. */
  ghost predicate AllShown(evs: seq<Event>, next: seq<Event>) {
    forall p :: InSpace(evs, p) ==> FramesOfLock(next, p) >= 2
  }

  lemma ReadyIsShown(evs: seq<Event>, ev: Event)
    requires ValidRun(evs) && Enabled(Run(evs), ev) && ev.Presented? && Run(evs).locked
    ensures var next := evs + [ev];
            ValidRun(next) && (AllReady(Run(next), Run(evs).generation) <==> AllShown(evs, next))
  {
    RunNext(evs, ev);
    var s, next := Run(evs), evs + [ev];
    assert Run(next).outputs == s.outputs && Run(next).locked && Run(next).generation == s.generation;
    forall p
      ensures InSpace(evs, p) <==> p in s.outputs
      ensures p in s.outputs ==>
                (FramesOfLock(next, p) >= 2 <==> p in Run(next).records && Ready(Run(next).records[p], s.generation))
    {
      SpaceTells(evs, p);
      if p in s.outputs { RecordsAreTruthful(next, p); }
    }
  }

  /** A frame of the present lock confirms it exactly if all outputs have shown it. */
  lemma FrameConfirms(evs: seq<Event>, ev: Event)
    requires ValidRun(evs) && Enabled(Run(evs), ev)
    requires ev.Presented? && Run(evs).locked && Run(evs).confirmation.Some? && ev.generation == Run(evs).generation
    ensures var s, next := Run(evs), evs + [ev];
            ValidRun(next) && Run(next).confirmed ==
              if AllShown(evs, next) then s.confirmed + [s.confirmation.value] else s.confirmed
  {
    RunNext(evs, ev);
    ReadyIsShown(evs, ev);
    var s := Run(evs);
    var records := if ev.o in s.records then s.records[ev.o := Recorded(s.records[ev.o], ev.generation)] else s.records;
    assert Run(evs + [ev]).records == records;
    assert AllReady(s.(records := records), s.generation) <==> AllReady(Run(evs + [ev]), s.generation);
  }

  /** In every run, the next event confirms request `n` exactly if `n` took the present lock
      and was not confirmed before, the event is a frame of this lock, and every output in the
      space has by then presented at least two frames of this lock. */
  lemma ConfirmsExactly(evs: seq<Event>, ev: Event, n: nat)
    requires ValidRun(evs) && Enabled(Run(evs), ev)
    ensures var next := evs + [ev];
            && ValidRun(next)
            && (Run(next).confirmed == Run(evs).confirmed + [n] <==>
                  && Holder(evs) == Some(n) && n !in Run(evs).confirmed
                  && ev.Presented? && ev.generation == LockGeneration(evs) && AllShown(evs, next))
            && (Run(next).confirmed == Run(evs).confirmed || exists m :: Run(next).confirmed == Run(evs).confirmed + [m])
  {
    RunNext(evs, ev);
    RunTells(evs);
    PendingExactly(evs, n);
    PendingStep(Run(evs), ev);
    var s := Run(evs);
    if s.confirmation.Some? {
      var m := s.confirmation.value;
      PendingExactly(evs, m);
      if ev.Presented? && ev.generation == s.generation { FrameConfirms(evs, ev); }
      assert (s.confirmed + [m])[|s.confirmed|] == m && (s.confirmed + [n])[|s.confirmed|] == n;
    }
  }

  /** Every confirmation belongs to a lock request and is given at most once. */
  lemma ConfirmedAtMostOnce(evs: seq<Event>)
    requires ValidRun(evs)
    ensures var s := Run(evs);
            && (forall k :: 0 <= k < |s.confirmed| ==> s.confirmed[k] < s.requests)
            && (forall j, k :: 0 <= j < k < |s.confirmed| ==> s.confirmed[j] != s.confirmed[k])
  {
    RunKeepsInv(evs);
  }

  /** Two runs in the same state, whose outputs have presented as many frames of the lock,
      stay so when the same event follows. */
  lemma SameNext(one: seq<Event>, two: seq<Event>, ev: Event, p: nat)
    requires ValidRun(one) && ValidRun(two) && Run(one) == Run(two) && FramesOfLock(one, p) == FramesOfLock(two, p)
    requires Enabled(Run(one), ev)
    ensures ValidRun(one + [ev]) && ValidRun(two + [ev]) && Run(one + [ev]) == Run(two + [ev])
    ensures FramesOfLock(one + [ev], p) == FramesOfLock(two + [ev], p)
  {
    RunNext(one, ev);
    RunNext(two, ev);
    RunTells(one);
    RunTells(two);
    assert (one + [ev])[..|one|] == one && (two + [ev])[..|two|] == two;
  }

  lemma StaleFrame(before: seq<Event>, o: nat, generation: nat, p: nat)
    requires ValidRun(before) && o < Run(before).made
    requires !Run(before).locked || generation != Run(before).generation
    ensures var frame := before + [Presented(o, generation)];
            ValidRun(frame) && Run(frame) == Run(before) && FramesOfLock(frame, p) == FramesOfLock(before, p)
  {
    RunNext(before, Presented(o, generation));
    RunTells(before);
    assert (before + [Presented(o, generation)])[..|before|] == before;
  }

  /** A frame of another generation, or one presented while unlocked, makes no difference
      to anything that follows: the run without it ends in the same state, and every output
      has presented as many frames of the lock. */
  lemma {:induction false} StaleFrameChangesNothing(
      before: seq<Event>, o: nat, generation: nat, after: seq<Event>, p: nat)
    requires ValidRun(before) && o < Run(before).made
    requires !Run(before).locked || generation != Run(before).generation
    requires ValidRun(before + after)
    ensures ValidRun(before + [Presented(o, generation)] + after)
    ensures Run(before + [Presented(o, generation)] + after) == Run(before + after)
    ensures FramesOfLock(before + [Presented(o, generation)] + after, p) == FramesOfLock(before + after, p)
    decreases |after|
  {
    var frame := before + [Presented(o, generation)];
    StaleFrame(before, o, generation, p);
    if after == [] {
      assert frame + after == frame && before + after == before;
    } else {
      var n := |after| - 1;
      var shorter := before + after[..n];
      assert (before + after)[..|before + after| - 1] == shorter;
      StaleFrameChangesNothing(before, o, generation, after[..n], p);
      assert frame + after == frame + after[..n] + [after[n]] && before + after == shorter + [after[n]];
      SameNext(frame + after[..n], shorter, after[n], p);
    }
  }

  /** In the space of a locked session every record is of the present lock, so a new lock
      surface only marks its record: it makes no output count as presented. */
  lemma NewSurfaceOnlyMarks(evs: seq<Event>, o: nat)
    requires ValidRun(evs) && Run(evs).locked && o in Run(evs).outputs
    ensures var s := Run(evs); o in s.records && Retagged(s, o) == s.(records := s.records[o := s.records[o].(surface := true)])
  {
    RecordsAreTruthful(evs, o);
  }

  /** The boundary of `new_surface` itself, for sessions that no run reaches: if the space
      held an output with a record of another lock, the surface would let the next frame of
      another output confirm the lock exactly if the old record had two presentations. */
  lemma OldRecordWouldConfirmExactly(s: Session, o: nat, p: nat)
    requires s.locked && s.confirmation.Some? && o in s.outputs && p in s.outputs && p != o
    requires forall q :: q in s.outputs && q != o ==> q in s.records && Ready(s.records[q], s.generation)
    ensures FramePresented(Retagged(s, o), p, s.generation).confirmed != s.confirmed <==> RecordOf(s, o).presentations >= 2
  {
    var r := Retagged(s, o);
    var t := r.(records := r.records[p := Recorded(r.records[p], s.generation)]);
    assert AllReady(t, s.generation) <==> Ready(t.records[o], s.generation);
  }

  // ---- the handler as it is written ----

  class SessionLock {
    var locked: bool
    var generation: nat
    var confirmation: Option<nat>
    var outputs: seq<nat>
    var made: nat
    var records: map<nat, LockOutput>
    var requests: nat
    var confirmed: seq<nat>

    function Model(): Session
      reads this
    {
      Session(locked, generation, confirmation, outputs, made, records, requests, confirmed)
    }

    constructor ()
      ensures Model() == Start
    {
      locked, generation, confirmation, outputs, made := false, 0, None, [], 0;
      records, requests, confirmed := map[], 0, [];
    }

    method LockSession(allowed: bool)
      modifies this
      ensures Model() == Apply(old(Model()), Lock(allowed))
      ensures !old(locked) && allowed ==>
                && locked && confirmation == Some(old(requests)) && generation == (old(generation) + 1) % WORD
                && (forall o :: o in outputs ==> o in records && records[o] == LockOutput(true, false, generation, 0))
                && (forall o :: o in old(records) && o !in outputs ==> o in records && records[o] == old(records)[o])
      ensures old(locked) || !allowed ==> Model() == old(Model()).(requests := requests)
    {
      requests := requests + 1;
      if locked || !allowed { return; }
      locked := true;
      generation := (generation + 1) % WORD;
      confirmation := Some(requests - 1);
      ResetRecords();
    }

    /** Every output of the space starts over. */
    method ResetRecords()
      modifies this`records
      ensures records == old(records) + FreshRecords(outputs, generation)
    {
      for k := 0 to |outputs|
        invariant records == old(records) + FreshRecords(outputs[..k], generation)
      {
        records := records[outputs[k] := LockOutput(true, false, generation, 0)];
        assert outputs[..k + 1] == outputs[..k] + [outputs[k]];
      }
      assert outputs[..|outputs|] == outputs;
    }

    method UnlockSession()
      modifies this
      ensures Model() == Apply(old(Model()), Unlock)
      ensures !locked && confirmation == None && records.Keys == old(records).Keys
      ensures forall o :: o in records ==> records[o] == if o in outputs then LockOutput(false, false, 0, 0) else old(records)[o]
    {
      locked := false;
      confirmation := None;
      for k := 0 to |outputs|
        invariant outputs == old(outputs)
        invariant records == map o | o in old(records) :: if o in outputs[..k] then DefaultOutput else old(records)[o]
        invariant Model() == Unlocked(old(Model())).(records := records)
      {
        if outputs[k] in records { records := records[outputs[k] := DefaultOutput]; }
        assert outputs[..k + 1] == outputs[..k] + [outputs[k]];
      }
      assert outputs[..|outputs|] == outputs;
    }

    method NewLockSurface(o: nat)
      modifies this
      ensures Model() == Retagged(old(Model()), o)
      ensures o in records && records[o].locked && records[o].surface && records[o].generation == generation
      ensures o in old(records) ==> records[o].presentations == old(records)[o].presentations
    {
      if o !in records { records := records[o := DefaultOutput]; }
      records := records[o := records[o].(locked := true, generation := generation, surface := true)];
    }

    /** `record_presented`; true asks for another frame. */
    method RecordPresented(o: nat, frame: nat) returns (again: bool)
      requires o in records
      modifies this`records
      ensures records == old(records)[o := Recorded(old(records)[o], frame)]
      ensures again <==> old(records)[o].locked && old(records)[o].generation == frame && records[o].presentations < 2
    {
      var r := records[o];
      if !r.locked || r.generation != frame {
        records := records[o := r];
        return false;
      }
      r := r.(presentations := if r.presentations < 255 then r.presentations + 1 else 255);
      records := records[o := r];
      again := r.presentations < 2;
    }

    method LockPresented(o: nat, frame: nat)
      modifies this
      ensures Model() == FramePresented(old(Model()), o, frame)
    {
      if !locked || generation != frame { return; }
      if o in records { var _ := RecordPresented(o, frame); }
      var k := 0;
      while k < |outputs| && outputs[k] in records && Ready(records[outputs[k]], frame)
        invariant k <= |outputs|
        invariant forall j :: 0 <= j < k ==> outputs[j] in records && Ready(records[outputs[j]], frame)
      {
        k := k + 1;
      }
      assert k == |outputs| <==> AllReady(Model(), frame);
      if k == |outputs| && confirmation.Some? {
        confirmed := confirmed + [confirmation.value];
        confirmation := None;
      }
    }

    /** A connector appears: a new output is created, recorded if the session is locked, and
        mapped. */
    method ConnectOutput() returns (o: nat)
      modifies this
      ensures Model() == Apply(old(Model()), Connect) && o == old(made)
    {
      o := made;
      made := made + 1;
      if locked { records := records[o := LockOutput(true, false, generation, 0)]; }
      outputs := outputs + [o];
    }

    /** The part of `maintain_desktop` that gives joined outputs a record during a lock. */
    method MaintainOutputs()
      modifies this
      ensures Model() == Apply(old(Model()), Maintain)
      ensures forall o :: o in old(records) ==> o in records && records[o] == old(records)[o]
      ensures locked ==> forall o :: o in outputs && o !in old(records) ==>
                o in records && records[o] == LockOutput(true, false, generation, 0)
    {
      if locked { InsertMissingRecords(); }
    }

    method InsertMissingRecords()
      modifies this`records
      ensures records == FreshRecords(outputs, generation) + old(records)
    {
      for k := 0 to |outputs|
        invariant records == FreshRecords(outputs[..k], generation) + old(records)
      {
        if outputs[k] !in records { records := records[outputs[k] := LockOutput(true, false, generation, 0)]; }
        assert outputs[..k + 1] == outputs[..k] + [outputs[k]];
      }
      assert outputs[..|outputs|] == outputs;
    }
  }
}
