/** The NVENC encoder's texture ring: submitted pictures wait in `pending` until their
    bitstream can be locked. Submitted pictures are numbered, and NVENC carries number and
    time stamp from the picture to its packet. Mappings are numbered too; `unmapped` lists
    the mappings for which unmapping was attempted, in order. */
module NvencRing {
  import opened Collections
  import opened Options

  datatype Packet = Packet(serial: nat, stamp: nat)

  datatype Slot = Slot(mapped: Option<nat>, inFlight: bool, output: Packet)

  /** `retired` counts the pictures taken off `pending` by `poll`; `redone` counts the
      polls that failed after the packet was delivered, and `stuck` those of them in which
      it was the unmapping that failed. */
  datatype Ring = Ring(
    open: bool, slots: seq<Slot>, pending: seq<nat>, submitted: seq<nat>, delivered: seq<Packet>,
    retired: nat, redone: nat, stuck: nat, maps: nat, unmapped: seq<nat>)

  /** What NVENC answers for the bitstream at the front. */
  datatype Lock = Busy | LockFails | Locked(unlockOk: bool, unmapOk: bool)

  datatype Event =
    | Poll(locks: seq<Lock>)
    | Submit(index: nat, stamp: nat, locks: seq<Lock>, mapOk: bool, encodeOk: bool)
    | Shutdown

  datatype Result = Result(ring: Ring, ok: bool)

  const Idle := Slot(None, false, Packet(0, 0))

  function Opened(n: nat): Ring { Ring(true, seq(n, _ => Idle), [], [], [], 0, 0, 0, 0, []) }

  // ---- what the code computes ----

  /** The front packet was delivered; its buffer is unlocked and its texture unmapped. */
  function Finished(r: Ring, lock: Lock): Result
    requires r.pending != [] && r.pending[0] < |r.slots| && lock.Locked?
  {
    var i := r.pending[0];
    var d := r.(delivered := r.delivered + [r.slots[i].output]);
    if !lock.unlockOk then Result(d.(redone := r.redone + 1), false)
    else
      var u := if r.slots[i].mapped.Some? then d.(unmapped := r.unmapped + [r.slots[i].mapped.value]) else d;
      if !lock.unmapOk then Result(u.(redone := r.redone + 1, stuck := r.stuck + 1), false)
      else
        Result(u.(slots := r.slots[i := r.slots[i].(mapped := None, inFlight := false)],
                  pending := r.pending[1..], retired := r.retired + 1),
               true)
  }

  function Polled(r: Ring, locks: seq<Lock>): Result
    requires forall k :: 0 <= k < |r.pending| ==> r.pending[k] < |r.slots|
    decreases |locks|
  {
    if r.pending == [] || locks == [] || locks[0].Busy? then Result(r, true)
    else if locks[0].LockFails? then Result(r, false)
    else
      var f := Finished(r, locks[0]);
      if f.ok then Polled(f.ring, locks[1..]) else f
  }

  function Submitted(r: Ring, index: nat, stamp: nat, mapOk: bool, encodeOk: bool): Result {
    if index >= |r.slots| || r.slots[index].inFlight || !mapOk then Result(r, false)
    else if !encodeOk then
      Result(r.(slots := r.slots[index := r.slots[index].(mapped := None)],
                maps := r.maps + 1, unmapped := r.unmapped + [r.maps]),
             false)
    else
      Result(r.(slots := r.slots[index := Slot(Some(r.maps), true, Packet(|r.submitted|, stamp))],
                pending := r.pending + [index], submitted := r.submitted + [stamp], maps := r.maps + 1),
             true)
  }

  function Mappings(slots: seq<Slot>): seq<nat> {
    if slots == [] then []
    else (if slots[0].mapped.Some? then [slots[0].mapped.value] else []) + Mappings(slots[1..])
  }

  function Closed(r: Ring): Ring {
    if !r.open then r
    else r.(open := false, unmapped := r.unmapped + Mappings(r.slots), slots := [], pending := [])
  }

  function Apply(r: Ring, e: Event): Result
    requires forall k :: 0 <= k < |r.pending| ==> r.pending[k] < |r.slots|
  {
    match e
    case Poll(locks) => Polled(r, locks)
    case Submit(index, stamp, locks, mapOk, encodeOk) =>
      var p := Polled(r, locks);
      if p.ok then Submitted(p.ring, index, stamp, mapOk, encodeOk) else p
    case Shutdown => Result(Closed(r), true)
  }

  // ---- what every run keeps ----

  /** A slot is mapped, and in flight, exactly while its index is pending. */
  ghost predicate RingOk(r: Ring) {
    && Distinct(r.pending)
    && (forall k :: 0 <= k < |r.pending| ==> r.pending[k] < |r.slots|)
    && (forall i :: 0 <= i < |r.slots| ==> (r.slots[i].inFlight <==> i in r.pending))
    && (forall i :: 0 <= i < |r.slots| ==> (r.slots[i].mapped.Some? <==> i in r.pending))
  }

  /** The pending pictures are the last ones submitted, in the order of their submission. */
  predicate OrderOk(r: Ring)
    requires forall k :: 0 <= k < |r.pending| ==> r.pending[k] < |r.slots|
  {
    && (r.open ==> |r.submitted| == r.retired + |r.pending|)
    && r.retired + |r.pending| <= |r.submitted|
    && (forall k :: 0 <= k < |r.pending| ==>
          r.slots[r.pending[k]].output == Packet(r.retired + k, r.submitted[r.retired + k]))
  }

  /** Packets come in the order of submission: without gaps, and repeated only after an
      error. All retired pictures were delivered, and at most the front besides. */
  predicate DeliveryOk(r: Ring) { Deliveries(r.delivered, r.submitted, r.retired, r.redone) }

  predicate Deliveries(delivered: seq<Packet>, submitted: seq<nat>, retired: nat, redone: nat) {
    && |delivered| == retired + redone
    && (forall k :: 0 <= k < |delivered| ==>
          && delivered[k].serial <= k && delivered[k].serial <= retired
          && delivered[k].serial < |submitted| && delivered[k].stamp == submitted[delivered[k].serial])
    && (forall k :: 0 <= k < |delivered| - 1 ==>
          delivered[k].serial <= delivered[k + 1].serial <= delivered[k].serial + 1)
    && (retired > 0 ==> |delivered| > 0 && delivered[|delivered| - 1].serial >= retired - 1)
    && (redone == 0 ==> forall k :: 0 <= k < |delivered| ==> delivered[k].serial == k)
  }

  ghost predicate Held(slots: seq<Slot>, h: nat) { exists i :: 0 <= i < |slots| && slots[i].mapped == Some(h) }

  /** Every mapping is held by one slot, or its unmapping was attempted. */
  ghost predicate MapsOk(slots: seq<Slot>, maps: nat, unmapped: seq<nat>, stuck: nat) {
    && (forall h :: h in unmapped ==> h < maps)
    && (forall i :: 0 <= i < |slots| && slots[i].mapped.Some? ==> slots[i].mapped.value < maps)
    && (forall i, j :: 0 <= i < j < |slots| && slots[i].mapped.Some? ==> slots[i].mapped != slots[j].mapped)
    && (forall h :: 0 <= h < maps ==> h in unmapped || Held(slots, h))
    && (stuck == 0 ==> Distinct(unmapped) && forall h :: h in unmapped ==> !Held(slots, h))
  }

  ghost predicate Inv(r: Ring) {
    && RingOk(r) && OrderOk(r) && DeliveryOk(r)
    && MapsOk(r.slots, r.maps, r.unmapped, r.stuck)
    && |r.unmapped| + |r.pending| == r.maps + r.stuck
    && r.stuck <= r.redone
    && (!r.open ==> r.slots == [] && r.pending == [])
  }

  lemma FinishedRing(r: Ring, lock: Lock)
    requires RingOk(r) && r.pending != [] && lock.Locked?
    ensures RingOk(Finished(r, lock).ring)
  {
    if Finished(r, lock).ok {
      var tail := r.pending[1..];
      assert forall i :: i in r.pending <==> i == r.pending[0] || i in tail by {
        assert r.pending == [r.pending[0]] + tail;
      }
      assert r.pending[0] !in tail;
    }
  }

  lemma FinishedOrder(r: Ring, lock: Lock)
    requires RingOk(r) && OrderOk(r) && r.pending != [] && lock.Locked? && RingOk(Finished(r, lock).ring)
    ensures OrderOk(Finished(r, lock).ring)
  {
    var f := Finished(r, lock).ring;
    forall k | 0 <= k < |f.pending|
      ensures f.slots[f.pending[k]].output == Packet(f.retired + k, f.submitted[f.retired + k])
    {
      if Finished(r, lock).ok { assert f.pending[k] == r.pending[k + 1]; }
    }
  }

  lemma NextSerial(delivered: seq<Packet>, submitted: seq<nat>, retired: nat, redone: nat)
    requires Deliveries(delivered, submitted, retired, redone) && retired < |submitted|
    ensures var next := delivered + [Packet(retired, submitted[retired])];
            forall k :: 0 <= k < |next| - 1 ==> next[k].serial <= next[k + 1].serial <= next[k].serial + 1
  {
    var next, n := delivered + [Packet(retired, submitted[retired])], |delivered|;
    forall k | 0 <= k < n
      ensures next[k].serial <= next[k + 1].serial <= next[k].serial + 1
    {
      if k + 1 == n {
        assert delivered[n - 1].serial <= retired;
      } else {
        assert next[k] == delivered[k] && next[k + 1] == delivered[k + 1];
      }
    }
  }

  /** Delivering the next packet, with and without an error afterwards. */
  lemma DeliverNext(delivered: seq<Packet>, submitted: seq<nat>, retired: nat, redone: nat)
    requires Deliveries(delivered, submitted, retired, redone) && retired < |submitted|
    ensures var next := delivered + [Packet(retired, submitted[retired])];
            Deliveries(next, submitted, retired + 1, redone) && Deliveries(next, submitted, retired, redone + 1)
  {
    NextSerial(delivered, submitted, retired, redone);
    assert (delivered + [Packet(retired, submitted[retired])])[|delivered|].serial == retired;
  }

  lemma FinishedDelivery(r: Ring, lock: Lock)
    requires Inv(r) && r.pending != [] && lock.Locked?
    ensures DeliveryOk(Finished(r, lock).ring)
  {
    DeliverNext(r.delivered, r.submitted, r.retired, r.redone);
    assert r.slots[r.pending[0]].output == Packet(r.retired, r.submitted[r.retired]);
  }

  lemma FinishedMaps(r: Ring, lock: Lock)
    requires Inv(r) && r.pending != [] && lock.Locked?
    ensures var f := Finished(r, lock).ring;
            MapsOk(f.slots, f.maps, f.unmapped, f.stuck) && |f.unmapped| + |f.pending| == f.maps + f.stuck
  {
    var f, i := Finished(r, lock).ring, r.pending[0];
    assert i in r.pending;
    forall h | 0 <= h < f.maps
      ensures h in f.unmapped || Held(f.slots, h)
    {
      if Held(r.slots, h) {
        var k :| 0 <= k < |r.slots| && r.slots[k].mapped == Some(h);
        assert k != i ==> f.slots[k].mapped == Some(h);
        if k == i && lock.unlockOk { assert h == f.unmapped[|f.unmapped| - 1]; }
      }
    }
    if f.stuck == 0 && lock.unlockOk {
      var h := r.slots[i].mapped.value;
      assert Held(r.slots, h);
      DistinctJoin(r.unmapped, [h]);
      forall g: nat | Held(f.slots, g)
        ensures Held(r.slots, g) && (lock.unmapOk ==> g != h)
      {
        var k :| 0 <= k < |f.slots| && f.slots[k].mapped == Some(g);
        assert r.slots[k].mapped == Some(g);
      }
    }
  }

  lemma FinishedKeepsInv(r: Ring, lock: Lock)
    requires Inv(r) && r.pending != [] && lock.Locked?
    ensures Inv(Finished(r, lock).ring)
  {
    FinishedRing(r, lock);
    FinishedOrder(r, lock);
    FinishedDelivery(r, lock);
    FinishedMaps(r, lock);
  }

  lemma {:induction false} PolledKeepsInv(r: Ring, locks: seq<Lock>)
    requires Inv(r)
    ensures Inv(Polled(r, locks).ring)
    decreases |locks|
  {
    if r.pending != [] && locks != [] && locks[0].Locked? {
      FinishedKeepsInv(r, locks[0]);
      if Finished(r, locks[0]).ok { PolledKeepsInv(Finished(r, locks[0]).ring, locks[1..]); }
    }
  }

  lemma SubmittedRing(r: Ring, index: nat, stamp: nat, mapOk: bool, encodeOk: bool)
    requires RingOk(r)
    ensures RingOk(Submitted(r, index, stamp, mapOk, encodeOk).ring)
  {
    var s := Submitted(r, index, stamp, mapOk, encodeOk);
    if s.ok {
      assert index !in r.pending;
      assert forall i :: i in s.ring.pending <==> i in r.pending || i == index;
    }
  }

  lemma SubmittedOrder(r: Ring, index: nat, stamp: nat, mapOk: bool, encodeOk: bool)
    requires RingOk(r) && OrderOk(r) && (r.open || r.slots == [])
    requires RingOk(Submitted(r, index, stamp, mapOk, encodeOk).ring)
    ensures OrderOk(Submitted(r, index, stamp, mapOk, encodeOk).ring)
  {
    var s := Submitted(r, index, stamp, mapOk, encodeOk);
    if s.ok {
      assert index !in r.pending;
      assert forall k :: 0 <= k < |r.pending| ==> r.pending[k] != index;
    }
  }

  lemma SubmittedDelivery(r: Ring, index: nat, stamp: nat, mapOk: bool, encodeOk: bool)
    requires DeliveryOk(r)
    ensures DeliveryOk(Submitted(r, index, stamp, mapOk, encodeOk).ring)
  {
  }

  /** A new mapping that is given up at once. */
  lemma RefusedMaps(r: Ring)
    requires MapsOk(r.slots, r.maps, r.unmapped, r.stuck)
    ensures MapsOk(r.slots, r.maps + 1, r.unmapped + [r.maps], r.stuck)
  {
    if r.stuck == 0 { DistinctJoin(r.unmapped, [r.maps]); }
  }

  /** A new mapping for a slot that holds none. */
  lemma AcceptedMaps(r: Ring, index: nat, slot: Slot)
    requires MapsOk(r.slots, r.maps, r.unmapped, r.stuck)
    requires index < |r.slots| && r.slots[index].mapped == None && slot.mapped == Some(r.maps)
    ensures MapsOk(r.slots[index := slot], r.maps + 1, r.unmapped, r.stuck)
  {
    var slots := r.slots[index := slot];
    assert slots[index].mapped == Some(r.maps);
    forall h: nat | h < r.maps
      ensures Held(r.slots, h) <==> Held(slots, h)
    {
      if Held(r.slots, h) {
        var k :| 0 <= k < |r.slots| && r.slots[k].mapped == Some(h);
        assert slots[k].mapped == Some(h);
      }
      if Held(slots, h) {
        var k :| 0 <= k < |slots| && slots[k].mapped == Some(h);
        assert r.slots[k].mapped == Some(h);
      }
    }
  }

  lemma SubmittedKeepsInv(r: Ring, index: nat, stamp: nat, mapOk: bool, encodeOk: bool)
    requires Inv(r)
    ensures Inv(Submitted(r, index, stamp, mapOk, encodeOk).ring)
  {
    SubmittedRing(r, index, stamp, mapOk, encodeOk);
    SubmittedOrder(r, index, stamp, mapOk, encodeOk);
    SubmittedDelivery(r, index, stamp, mapOk, encodeOk);
    if index < |r.slots| && !r.slots[index].inFlight && mapOk {
      if encodeOk {
        AcceptedMaps(r, index, Slot(Some(r.maps), true, Packet(|r.submitted|, stamp)));
      } else {
        RefusedMaps(r);
        assert r.slots[index := r.slots[index].(mapped := None)] == r.slots;
      }
    }
  }

  lemma {:induction false} MappingsHeld(slots: seq<Slot>, h: nat)
    ensures h in Mappings(slots) <==> Held(slots, h)
  {
    if slots != [] {
      MappingsHeld(slots[1..], h);
      if Held(slots, h) {
        var k :| 0 <= k < |slots| && slots[k].mapped == Some(h);
        if k > 0 { assert slots[1..][k - 1].mapped == Some(h); }
      }
    }
  }

  lemma {:induction false} MappingsDistinct(slots: seq<Slot>)
    requires forall i, j :: 0 <= i < j < |slots| && slots[i].mapped.Some? ==> slots[i].mapped != slots[j].mapped
    ensures Distinct(Mappings(slots))
  {
    if slots != [] {
      MappingsDistinct(slots[1..]);
      if slots[0].mapped.Some? { MappingsHeld(slots[1..], slots[0].mapped.value); }
    }
  }

  /** There are as many mapped slots as pending pictures. */
  lemma {:induction false} MappingsCount(slots: seq<Slot>, pending: set<nat>)
    requires forall i :: i in pending ==> i < |slots|
    requires forall i :: 0 <= i < |slots| ==> (slots[i].mapped.Some? <==> i in pending)
    ensures |Mappings(slots)| == |pending|
    decreases |slots|
  {
    if slots == [] {
      assert pending == {};
    } else {
      var n := |slots| - 1;
      var rest := slots[..n];
      MappingsCount(rest, pending - {n});
      assert slots == rest + [slots[n]];
      MappingsAppend(rest, slots[n]);
      assert n !in pending ==> pending - {n} == pending;
    }
  }

  lemma {:induction false} MappingsAppend(slots: seq<Slot>, last: Slot)
    ensures Mappings(slots + [last]) == Mappings(slots) + if last.mapped.Some? then [last.mapped.value] else []
  {
    if slots == [] {
      assert slots + [last] == [last] && [last][1..] == [];
    } else {
      var u := slots + [last];
      assert u[0] == slots[0] && u[1..] == slots[1..] + [last];
      MappingsAppend(slots[1..], last);
      assert Mappings(u) == (if slots[0].mapped.Some? then [slots[0].mapped.value] else []) + Mappings(u[1..]);
    }
  }

  lemma ClosedMaps(r: Ring)
    requires Inv(r) && r.open
    ensures var c := Closed(r);
            MapsOk(c.slots, c.maps, c.unmapped, c.stuck) && |c.unmapped| == c.maps + c.stuck
  {
    var more := Mappings(r.slots);
    MappingsDistinct(r.slots);
    MappingsCount(r.slots, Members(r.pending));
    DistinctSize(r.pending);
    forall h: nat ensures h in more <==> Held(r.slots, h) { MappingsHeld(r.slots, h); }
    if r.stuck == 0 { DistinctJoin(r.unmapped, more); }
  }

  lemma ApplyKeepsInv(r: Ring, e: Event)
    requires Inv(r)
    ensures Inv(Apply(r, e).ring)
  {
    match e
    case Poll(locks) => PolledKeepsInv(r, locks);
    case Submit(index, stamp, locks, mapOk, encodeOk) =>
      PolledKeepsInv(r, locks);
      var p := Polled(r, locks);
      if p.ok { SubmittedKeepsInv(p.ring, index, stamp, mapOk, encodeOk); }
    case Shutdown => if r.open { ClosedMaps(r); }
  }

  ghost function Run(n: nat, events: seq<Event>): (r: Ring)
    ensures Inv(r)
    decreases |events|
  {
    if events == [] then OpenedInv(n); Opened(n)
    else
      var r := Run(n, events[..|events| - 1]);
      ApplyKeepsInv(r, events[|events| - 1]);
      Apply(r, events[|events| - 1]).ring
  }

  lemma OpenedInv(n: nat)
    ensures Inv(Opened(n))
  {
  }

  /** The answer with which a poll fails after delivering a packet, if it does: with
      `waiting` pictures pending, the first answer that is not a success. */
  function FailedAnswer(waiting: nat, locks: seq<Lock>): Option<Lock>
    decreases |locks|
  {
    if waiting == 0 || locks == [] || !locks[0].Locked? then None
    else if !locks[0].unlockOk || !locks[0].unmapOk then Some(locks[0])
    else FailedAnswer(waiting - 1, locks[1..])
  }

  function PollOf(e: Event): seq<Lock> {
    match e
    case Poll(locks) => locks
    case Submit(_, _, locks, _, _) => locks
    case Shutdown => []
  }

  /** In how many of the events a poll fails after delivering a packet, and in how many of
      these it is the unmapping that fails. */
  ghost function Failures(n: nat, events: seq<Event>): nat
    decreases |events|
  {
    if events == [] then 0
    else
      var before := events[..|events| - 1];
      Failures(n, before) + if FailedAnswer(|Run(n, before).pending|, PollOf(events[|events| - 1])).Some? then 1 else 0
  }

  ghost function UnmapFailures(n: nat, events: seq<Event>): nat
    decreases |events|
  {
    if events == [] then 0
    else
      var before := events[..|events| - 1];
      var f := FailedAnswer(|Run(n, before).pending|, PollOf(events[|events| - 1]));
      UnmapFailures(n, before) + if f == Some(Locked(true, false)) then 1 else 0
  }

  /** How many pictures a poll retires: as many as succeed in a row before it must stop. */
  function Successes(waiting: nat, locks: seq<Lock>): nat
    decreases |locks|
  {
    if waiting == 0 || locks == [] || locks[0] != Locked(true, true) then 0 else 1 + Successes(waiting - 1, locks[1..])
  }

  /** A poll retires the leading pictures that succeed and leaves the others pending; it
      fails exactly if locking, unlocking or unmapping the next one fails. */
  lemma {:induction false} PolledExactly(r: Ring, locks: seq<Lock>)
    requires forall k :: 0 <= k < |r.pending| ==> r.pending[k] < |r.slots|
    ensures var n, p := Successes(|r.pending|, locks), Polled(r, locks);
            && n <= |r.pending| && n <= |locks|
            && p.ring.retired == r.retired + n && p.ring.pending == r.pending[n..]
            && |p.ring.slots| == |r.slots| && p.ring.submitted == r.submitted && p.ring.maps == r.maps
            && (p.ok <==> n == |r.pending| || n == |locks| || locks[n].Busy?)
    decreases |locks|
  {
    if r.pending != [] && locks != [] && locks[0] == Locked(true, true) {
      PolledExactly(Finished(r, locks[0]).ring, locks[1..]);
    }
  }

  lemma SubmittedExactly(r: Ring, index: nat, stamp: nat, mapOk: bool, encodeOk: bool)
    requires RingOk(r)
    ensures var s := Submitted(r, index, stamp, mapOk, encodeOk);
            && (s.ok <==> index < |r.slots| && index !in r.pending && mapOk && encodeOk)
            && s.ring.pending == r.pending + (if s.ok then [index] else [])
            && s.ring.submitted == r.submitted + if s.ok then [stamp] else []
  {
  }

  lemma {:induction false} PolledKeepsRing(r: Ring, locks: seq<Lock>)
    requires RingOk(r)
    ensures RingOk(Polled(r, locks).ring)
    decreases |locks|
  {
    if r.pending != [] && locks != [] && locks[0].Locked? {
      FinishedRing(r, locks[0]);
      if Finished(r, locks[0]).ok { PolledKeepsRing(Finished(r, locks[0]).ring, locks[1..]); }
    }
  }

  lemma SubmitsAfter(r: Ring, p: Result, index: nat, stamp: nat, mapOk: bool, encodeOk: bool)
    requires RingOk(p.ring) && |p.ring.slots| == |r.slots| && p.ring.submitted == r.submitted
    ensures var a := if p.ok then Submitted(p.ring, index, stamp, mapOk, encodeOk) else p;
            && (a.ok <==> p.ok && index < |r.slots| && index !in p.ring.pending && mapOk && encodeOk)
            && a.ring.pending == p.ring.pending + (if a.ok then [index] else [])
            && a.ring.submitted == r.submitted + if a.ok then [stamp] else []
  {
    if p.ok { SubmittedExactly(p.ring, index, stamp, mapOk, encodeOk); }
  }

  /** A submission is accepted exactly if its poll succeeds, the texture exists and is not in
      flight any more, and mapping and encoding succeed; it is then the last one pending. */
  lemma SubmitExactly(r: Ring, index: nat, stamp: nat, locks: seq<Lock>, mapOk: bool, encodeOk: bool)
    requires RingOk(r)
    ensures var n, a := Successes(|r.pending|, locks), Apply(r, Submit(index, stamp, locks, mapOk, encodeOk));
            && n <= |r.pending| && n <= |locks|
            && (a.ok <==>
                  && (n == |r.pending| || n == |locks| || locks[n].Busy?)
                  && index < |r.slots| && index !in r.pending[n..] && mapOk && encodeOk)
            && a.ring.pending == r.pending[n..] + (if a.ok then [index] else [])
            && a.ring.submitted == r.submitted + if a.ok then [stamp] else []
  {
    PolledExactly(r, locks);
    PolledKeepsRing(r, locks);
    SubmitsAfter(r, Polled(r, locks), index, stamp, mapOk, encodeOk);
  }

  lemma {:induction false} PolledFails(r: Ring, locks: seq<Lock>)
    requires forall k :: 0 <= k < |r.pending| ==> r.pending[k] < |r.slots|
    ensures var p, f := Polled(r, locks).ring, FailedAnswer(|r.pending|, locks);
            && p.redone == r.redone + (if f.Some? then 1 else 0)
            && p.stuck == r.stuck + if f == Some(Locked(true, false)) then 1 else 0
    decreases |locks|
  {
    if r.pending != [] && locks != [] && locks[0].Locked? && locks[0].unlockOk && locks[0].unmapOk {
      PolledFails(Finished(r, locks[0]).ring, locks[1..]);
    }
  }

  lemma ApplyFails(r: Ring, e: Event)
    requires forall k :: 0 <= k < |r.pending| ==> r.pending[k] < |r.slots|
    ensures var p, f := Apply(r, e).ring, FailedAnswer(|r.pending|, PollOf(e));
            && p.redone == r.redone + (if f.Some? then 1 else 0)
            && p.stuck == r.stuck + if f == Some(Locked(true, false)) then 1 else 0
  {
    PolledFails(r, PollOf(e));
  }

  lemma {:induction false} CountersTell(n: nat, events: seq<Event>)
    ensures Run(n, events).redone == Failures(n, events) && Run(n, events).stuck == UnmapFailures(n, events)
    decreases |events|
  {
    if events != [] {
      var before := events[..|events| - 1];
      CountersTell(n, before);
      ApplyFails(Run(n, before), events[|events| - 1]);
    }
  }

  /** Packets are delivered once each, and in order, exactly if no poll failed after a
      delivery; every such failure delivers one packet once more. */
  lemma DeliveredExactly(n: nat, events: seq<Event>)
    ensures var r := Run(n, events);
            && |r.delivered| == r.retired + Failures(n, events)
            && (Failures(n, events) == 0 ==> forall k :: 0 <= k < r.retired ==> r.delivered[k] == Packet(k, r.submitted[k]))
  {
    CountersTell(n, events);
    var r := Run(n, events);
    if r.redone == 0 {
      forall k | 0 <= k < r.retired
        ensures r.delivered[k] == Packet(k, r.submitted[k])
      {
        assert r.delivered[k].serial == k;
      }
    }
  }

  /** One picture is in flight, and its packet was delivered `times` times by polls that
      failed to unlock it. */
  function InFlight(stamp: nat, times: nat): Ring {
    Ring(true, [Slot(Some(0), true, Packet(0, stamp)), Idle], [0], [stamp],
         seq(times, _ => Packet(0, stamp)), 0, times, 0, 1, [])
  }

  lemma SubmitFirst(stamp: nat)
    ensures Apply(Opened(2), Submit(0, stamp, [], true, true)).ring == InFlight(stamp, 0)
  {
    assert Submitted(Opened(2), 0, stamp, true, true).ring.slots == InFlight(stamp, 0).slots;
  }

  lemma UnlockFails(stamp: nat)
    ensures Polled(InFlight(stamp, 0), [Locked(false, true)]).ring == InFlight(stamp, 1)
  {
  }

  lemma UnlockPasses(stamp: nat)
    ensures var r := Polled(InFlight(stamp, 1), [Locked(true, true)]).ring;
            r.delivered == [Packet(0, stamp), Packet(0, stamp)] && r.retired == 1
  {
    assert [Locked(true, true)][1..] == [];
    assert InFlight(stamp, 1).delivered == [Packet(0, stamp)];
  }

  lemma RunNext(n: nat, events: seq<Event>, e: Event, was: Ring)
    requires Run(n, events) == was && forall k :: 0 <= k < |was.pending| ==> was.pending[k] < |was.slots|
    ensures Run(n, events + [e]) == Apply(was, e).ring
  {
    assert (events + [e])[..|events|] == events;
  }

  lemma DeliveredOnce(stamp: nat) returns (events: seq<Event>)
    ensures Run(2, events) == InFlight(stamp, 1)
  {
    SubmitFirst(stamp);
    UnlockFails(stamp);
    RunNext(2, [], Submit(0, stamp, [], true, true), Opened(2));
    events := [] + [Submit(0, stamp, [], true, true)];
    RunNext(2, events, Poll([Locked(false, true)]), InFlight(stamp, 0));
    events := events + [Poll([Locked(false, true)])];
  }

  /** A picture is submitted; unlocking its bitstream fails once, and succeeds at the next
      poll: its packet is delivered twice. */
  lemma DeliveredTwice(stamp: nat) returns (events: seq<Event>)
    ensures Run(2, events).delivered == [Packet(0, stamp), Packet(0, stamp)] && Run(2, events).retired == 1
  {
    UnlockPasses(stamp);
    var before := DeliveredOnce(stamp);
    RunNext(2, before, Poll([Locked(true, true)]), InFlight(stamp, 1));
    events := before + [Poll([Locked(true, true)])];
  }

  /** After a shutdown unmapping was attempted for every mapping: once each exactly if no
      poll failed to unmap. What was pending is discarded. */
  lemma ShutdownUnmapsAll(n: nat, events: seq<Event>)
    ensures var r := Closed(Run(n, events));
            && (forall h :: 0 <= h < r.maps <==> h in r.unmapped)
            && |r.unmapped| == r.maps + UnmapFailures(n, events)
            && (Distinct(r.unmapped) <==> UnmapFailures(n, events) == 0)
            && r.pending == [] && r.delivered == Run(n, events).delivered
  {
    var before := Run(n, events);
    CountersTell(n, events);
    ApplyKeepsInv(before, Shutdown);
    var r := Closed(before);
    if Distinct(r.unmapped) {
      DistinctSize(r.unmapped);
      SubsetSize(Members(r.unmapped), Range(0, r.maps));
    }
  }

  // ---- the code ----

  class Encoder {
    var open: bool
    var slots: seq<Slot>
    var pending: seq<nat>
    var submitted: seq<nat>
    var delivered: seq<Packet>
    var maps: nat
    var unmapped: seq<nat>
    ghost var retired: nat
    ghost var redone: nat
    ghost var stuck: nat

    constructor (n: nat)
      ensures Value() == Opened(n)
    {
      open, slots, pending, submitted, delivered := true, seq(n, _ => Idle), [], [], [];
      maps, unmapped, retired, redone, stuck := 0, [], 0, 0, 0;
    }

    ghost function Value(): Ring
      reads this
    {
      Ring(open, slots, pending, submitted, delivered, retired, redone, stuck, maps, unmapped)
    }

    /** Unlocks and unmaps the front after its packet was handed over. */
    method FinishFront(lock: Lock) returns (ok: bool)
      requires Inv(Value()) && pending != [] && lock.Locked?
      modifies this
      ensures Value() == Finished(old(Value()), lock).ring && ok == Finished(old(Value()), lock).ok
    {
      var i := pending[0];
      delivered := delivered + [slots[i].output];
      if !lock.unlockOk {
        redone := redone + 1;
        return false;
      }
      assert i in pending;
      unmapped := unmapped + [slots[i].mapped.value];
      if !lock.unmapOk {
        redone, stuck := redone + 1, stuck + 1;
        return false;
      }
      slots := slots[i := slots[i].(mapped := None, inFlight := false)];
      pending := pending[1..];
      retired := retired + 1;
      ok := true;
    }

    /** `locks` answers the calls of this poll in turn; after the last one, it is busy. */
    method PollFront(locks: seq<Lock>) returns (ok: bool)
      requires Inv(Value())
      modifies this
      ensures Inv(Value())
      ensures Value() == Polled(old(Value()), locks).ring && ok == Polled(old(Value()), locks).ok
    {
      ghost var was := Value();
      var k := 0;
      while pending != []
        invariant k <= |locks| && Inv(Value())
        invariant Polled(was, locks) == Polled(Value(), locks[k..])
        decreases |pending|
      {
        if k == |locks| || locks[k].Busy? { return true; }
        if locks[k].LockFails? { return false; }
        FinishedKeepsInv(Value(), locks[k]);
        assert locks[k..][0] == locks[k] && locks[k..][1..] == locks[k + 1..];
        ok := FinishFront(locks[k]);
        if !ok { return; }
        k := k + 1;
      }
      ok := true;
    }

    method MapAndEncode(index: nat, stamp: nat, mapOk: bool, encodeOk: bool) returns (ok: bool)
      requires Inv(Value())
      modifies this
      ensures var e := Submitted(old(Value()), index, stamp, mapOk, encodeOk); Value() == e.ring && ok == e.ok
    {
      if index >= |slots| || slots[index].inFlight || !mapOk { return false; }
      slots := slots[index := slots[index].(mapped := Some(maps))];
      maps := maps + 1;
      if !encodeOk {
        unmapped := unmapped + [slots[index].mapped.value];
        slots := slots[index := slots[index].(mapped := None)];
        return false;
      }
      slots := slots[index := slots[index].(inFlight := true, output := Packet(|submitted|, stamp))];
      submitted := submitted + [stamp];
      pending := pending + [index];
      ok := true;
    }

    method SubmitTexture(index: nat, stamp: nat, locks: seq<Lock>, mapOk: bool, encodeOk: bool) returns (ok: bool)
      requires Inv(Value())
      modifies this
      ensures Inv(Value())
      ensures var e := Apply(old(Value()), Submit(index, stamp, locks, mapOk, encodeOk)); Value() == e.ring && ok == e.ok
    {
      ok := PollFront(locks);
      if ok {
        SubmittedKeepsInv(Value(), index, stamp, mapOk, encodeOk);
        ok := MapAndEncode(index, stamp, mapOk, encodeOk);
      }
    }

    method UnmapAll()
      modifies this`unmapped
      ensures unmapped == old(unmapped) + Mappings(slots)
    {
      var i := 0;
      while i < |slots|
        invariant i <= |slots|
        invariant unmapped + Mappings(slots[i..]) == old(unmapped) + Mappings(slots)
      {
        assert slots[i..][0] == slots[i] && slots[i..][1..] == slots[i + 1..];
        if slots[i].mapped.Some? { unmapped := unmapped + [slots[i].mapped.value]; }
        i := i + 1;
      }
    }

    method Close()
      requires Inv(Value())
      modifies this
      ensures Value() == Closed(old(Value())) && Inv(Value())
    {
      ApplyKeepsInv(Value(), Shutdown);
      if open {
        UnmapAll();
        open, slots, pending := false, [], [];
      }
    }
  }
}
