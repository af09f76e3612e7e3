/** What one call of the present hook leaves behind, slot by slot and export by export, in
    terms of the layer before the call, the datagrams read and the answers of the socket and
    the driver. */
module PresentHook {
  import opened Collections
  import opened ExportRing
  import opened Options
  import opened RingScan

  /** The layer reads this acknowledgement: it comes before any datagram of the wrong size. */
  predicate Heard(datagrams: seq<Datagram>, ack: Ack) {
    exists k :: 0 <= k < |datagrams| && datagrams[k] == Valid(ack) && forall j :: 0 <= j < k ==> !datagrams[j].WrongSize?
  }

  lemma {:induction false} ReadableExactly(datagrams: seq<Datagram>, ack: Ack)
    ensures ack in Readable(datagrams) <==> Heard(datagrams, ack)
    decreases |datagrams|
  {
    if datagrams != [] && !datagrams[0].WrongSize? {
      var rest := datagrams[1..];
      ReadableExactly(rest, ack);
      if Heard(rest, ack) {
        var k :| 0 <= k < |rest| && rest[k] == Valid(ack) && forall j :: 0 <= j < k ==> !rest[j].WrongSize?;
        assert datagrams[k + 1] == Valid(ack) && forall j :: 0 <= j < k + 1 ==> !datagrams[j].WrongSize?;
      }
      if Heard(datagrams, ack) {
        var k :| 0 <= k < |datagrams| && datagrams[k] == Valid(ack) && forall j :: 0 <= j < k ==> !datagrams[j].WrongSize?;
        if k > 0 { assert rest[k - 1] == Valid(ack) && forall j :: 0 <= j < k - 1 ==> !rest[j].WrongSize?; }
      }
    }
  }

  lemma {:induction false} DrainedExactly(l: Layer, acks: seq<Ack>, s: nat, i: nat)
    requires InRing(l, s, i)
    ensures var r, slot := DrainAll(l, acks), SlotAt(l, s, i);
            && InRing(r, s, i) && r.swaps[s].live == l.swaps[s].live && r.swaps[s].cursor == l.swaps[s].cursor
            && SlotAt(r, s, i) == if slot.busy && Ack(i, slot.generation) in acks then slot.(busy := false, sent := false) else slot
    decreases |acks|
  {
    if acks != [] {
      assert acks == [acks[0]] + acks[1..];
      DrainedExactly(Drain(l, acks[0]), acks[1..], s, i);
    }
  }

  /** The retry pass has an export to send for this slot, and the socket takes it. */
  predicate Retries(l: Layer, s: nat, i: nat, deliverable: set<(nat, nat)>) {
    InRing(l, s, i) && SlotAt(l, s, i).busy && !SlotAt(l, s, i).sent && SlotAt(l, s, i).fenceFd >= 0 && (s, i) in deliverable
  }

  /** Slot `(t, j)` comes at or after `(s, i)` in the order of the pass. */
  predicate NotBefore(s: nat, i: nat, t: nat, j: nat) { t > s || (t == s && j >= i) }

  lemma RetryStep(l: Layer, s: nat, i: nat, delivered: bool, t: nat, j: nat)
    requires InRing(l, s, i) && InRing(l, t, j)
    ensures var r := Emit(l, s, i, delivered);
            && InRing(r, t, j) && r.swaps[t].live == l.swaps[t].live && r.swaps[t].cursor == l.swaps[t].cursor
            && SlotAt(r, t, j) == if t == s && j == i && delivered && SlotAt(l, s, i).fenceFd >= 0
                                  then SlotAt(l, t, j).(fenceFd := -1, sent := true) else SlotAt(l, t, j)
  {
  }

  /** The pass sends exactly the exports it can, and leaves every other slot alone. */
  lemma {:induction false} RetriedSlot(l: Layer, s: nat, i: nat, deliverable: set<(nat, nat)>, t: nat, j: nat)
    requires i <= RING && InRing(l, t, j)
    ensures var r := EmitFrom(l, s, i, deliverable);
            && InRing(r, t, j) && r.swaps[t].live == l.swaps[t].live && r.swaps[t].cursor == l.swaps[t].cursor
            && SlotAt(r, t, j) == if NotBefore(s, i, t, j) && Retries(l, t, j, deliverable)
                                  then SlotAt(l, t, j).(fenceFd := -1, sent := true) else SlotAt(l, t, j)
    decreases |l.swaps| - s, RING - i
  {
    if s >= |l.swaps| {
    } else if i == RING {
      RetriedSlot(l, s + 1, 0, deliverable, t, j);
    } else if SlotAt(l, s, i).busy && !SlotAt(l, s, i).sent {
      RetryStep(l, s, i, (s, i) in deliverable, t, j);
      RetriedSlot(Emit(l, s, i, (s, i) in deliverable), s, i + 1, deliverable, t, j);
    } else {
      RetriedSlot(l, s, i + 1, deliverable, t, j);
    }
  }

  /** `e` is the export of a slot that the pass sends, from `(s, i)` onwards. */
  predicate Resent(l: Layer, s: nat, i: nat, deliverable: set<(nat, nat)>, e: Export) {
    && NotBefore(s, i, e.stream, e.slot) && Retries(l, e.stream, e.slot, deliverable)
    && e.generation == SlotAt(l, e.stream, e.slot).generation
  }

  lemma ResentAfter(l: Layer, s: nat, i: nat, deliverable: set<(nat, nat)>, e: Export)
    requires InRing(l, s, i)
    ensures var r := if SlotAt(l, s, i).busy && !SlotAt(l, s, i).sent then Emit(l, s, i, (s, i) in deliverable) else l;
            Resent(l, s, i, deliverable, e) <==>
              Resent(r, s, i + 1, deliverable, e) || (Retries(l, s, i, deliverable) && e == Export(s, i, SlotAt(l, s, i).generation))
  {
    if InRing(l, e.stream, e.slot) { RetryStep(l, s, i, (s, i) in deliverable, e.stream, e.slot); }
  }

  /** What the pass sends: each export of `Resent` once. */
  lemma {:induction false} RetriedExports(l: Layer, s: nat, i: nat, deliverable: set<(nat, nat)>) returns (more: seq<Export>)
    requires i <= RING
    ensures EmitFrom(l, s, i, deliverable).sent == l.sent + more && Distinct(more)
    ensures forall e: Export :: e in more <==> Resent(l, s, i, deliverable, e)
    decreases |l.swaps| - s, RING - i
  {
    if s >= |l.swaps| {
      more := [];
    } else if i == RING {
      more := RetriedExports(l, s + 1, 0, deliverable);
    } else {
      var r := if SlotAt(l, s, i).busy && !SlotAt(l, s, i).sent then Emit(l, s, i, (s, i) in deliverable) else l;
      var rest := RetriedExports(r, s, i + 1, deliverable);
      forall e: Export
        ensures Resent(l, s, i, deliverable, e) <==>
          e in rest || (Retries(l, s, i, deliverable) && e == Export(s, i, SlotAt(l, s, i).generation))
      {
        ResentAfter(l, s, i, deliverable, e);
      }
      if Retries(l, s, i, deliverable) {
        var e := Export(s, i, SlotAt(l, s, i).generation);
        assert !Resent(r, s, i + 1, deliverable, e);
        more := [e] + rest;
        DistinctJoin([e], rest);
        assert l.sent + more == l.sent + [e] + rest;
      } else {
        more := rest;
      }
    }
  }

  /** The slot is busy, and the datagrams do not free it. */
  predicate StaysBusy(l: Layer, datagrams: seq<Datagram>, s: nat, i: nat)
    requires InRing(l, s, i)
  {
    SlotAt(l, s, i).busy && !Heard(datagrams, Ack(i, SlotAt(l, s, i).generation))
  }

  /** The present captures into this slot: it is the first one, from the cursor on, that is
      free or freed by the datagrams. */
  predicate CapturesInto(l: Layer, datagrams: seq<Datagram>, q: Request, s: nat, i: nat)
    requires InRing(l, s, i)
  {
    && q.capturable && q.submitted && q.stream == s && l.swaps[s].live
    && !StaysBusy(l, datagrams, s, i)
    && forall j: nat {:trigger StaysBusy(l, datagrams, s, j)} ::
         j < RING && StepOf(l.swaps[s].cursor, j, RING) < StepOf(l.swaps[s].cursor, i, RING) ==> StaysBusy(l, datagrams, s, j)
  }

  /** The slot's export is sent by the retry pass of this present. */
  predicate ResendsNow(l: Layer, datagrams: seq<Datagram>, q: Request, s: nat, i: nat)
    requires InRing(l, s, i)
  {
    StaysBusy(l, datagrams, s, i) && !SlotAt(l, s, i).sent && SlotAt(l, s, i).fenceFd >= 0 && (s, i) in q.deliverable
  }

  /** The layer after draining and retrying, for one slot. */
  lemma RetriedNow(l: Layer, datagrams: seq<Datagram>, q: Request, s: nat, i: nat)
    requires InRing(l, s, i)
    ensures var r, slot := EmitFrom(DrainAll(l, Readable(datagrams)), 0, 0, q.deliverable), SlotAt(l, s, i);
            && InRing(r, s, i) && r.swaps[s].live == l.swaps[s].live && r.swaps[s].cursor == l.swaps[s].cursor
            && SlotAt(r, s, i) ==
                 if ResendsNow(l, datagrams, q, s, i) then slot.(fenceFd := -1, sent := true)
                 else if slot.busy && !StaysBusy(l, datagrams, s, i) then slot.(busy := false, sent := false)
                 else slot
    ensures Retries(DrainAll(l, Readable(datagrams)), s, i, q.deliverable) <==> ResendsNow(l, datagrams, q, s, i)
  {
    var acks := Readable(datagrams);
    ReadableExactly(datagrams, Ack(i, SlotAt(l, s, i).generation));
    DrainedExactly(l, acks, s, i);
    RetriedSlot(DrainAll(l, acks), 0, 0, q.deliverable, s, i);
  }

  lemma CapturedExactly(l: Layer, datagrams: seq<Datagram>, q: Request, s: nat, i: nat)
    requires InRing(l, s, i)
    ensures var r := EmitFrom(DrainAll(l, Readable(datagrams)), 0, 0, q.deliverable);
            CapturesInto(l, datagrams, q, s, i) <==> q.stream == s && CapturedSlot(r, q) == Some(i)
  {
    var r := EmitFrom(DrainAll(l, Readable(datagrams)), 0, 0, q.deliverable);
    DrainAllCounts(l, Readable(datagrams));
    EmitFromCounts(DrainAll(l, Readable(datagrams)), 0, 0, q.deliverable);
    forall j: nat | j < RING
      ensures InRing(r, s, j) && r.swaps[s].live == l.swaps[s].live && r.swaps[s].cursor == l.swaps[s].cursor
      ensures r.swaps[s].slots[j].busy == StaysBusy(l, datagrams, s, j)
    {
      RetriedNow(l, datagrams, q, s, j);
    }
    assert InRing(r, s, i);
    PickedExactly(r.swaps[s], i);
    var cursor := l.swaps[s].cursor;
    if CapturesInto(l, datagrams, q, s, i) {
      forall j: nat | j < RING && StepOf(cursor, j, RING) < StepOf(cursor, i, RING)
        ensures r.swaps[s].slots[j].busy
      {
        assert StaysBusy(l, datagrams, s, j);
      }
    }
    if PickFrom(r.swaps[s], 0) == Some(i) {
      forall j: nat | j < RING && StepOf(cursor, j, RING) < StepOf(cursor, i, RING)
        ensures StaysBusy(l, datagrams, s, j)
      {
        assert r.swaps[s].slots[j].busy;
      }
    }
  }

  /** The slot picked is the first one from the cursor that is not busy. */
  lemma PickedExactly(swap: Swapchain, i: nat)
    requires i < RING
    ensures PickFrom(swap, 0) == Some(i) <==>
              && !swap.slots[i].busy
              && forall j: nat {:trigger StepOf(swap.cursor, j, RING)} ::
                   j < RING && StepOf(swap.cursor, j, RING) < StepOf(swap.cursor, i, RING) ==> swap.slots[j].busy
  {
    var r := PickFrom(swap, 0);
    if r.Some? {
      forall j: nat | j < RING && StepOf(swap.cursor, j, RING) < StepOf(swap.cursor, r.value, RING)
        ensures swap.slots[j].busy
      {
        PickIsFirst(swap, 0, StepOf(swap.cursor, j, RING));
      }
      if StepOf(swap.cursor, r.value, RING) == StepOf(swap.cursor, i, RING) { assert r.value == i; }
    } else {
      assert swap.slots[At(swap.cursor, StepOf(swap.cursor, i, RING), RING)].busy;
    }
  }

  /** What one present makes of each slot. The slot it captures into starts a new generation
      and is sent at once if its fence was exported and the socket takes it. A slot whose
      export was refused before is sent now if the socket takes it. A busy slot whose
      acknowledgement is heard is freed, and all others stay as they are. */
  lemma PresentExactly(l: Layer, datagrams: seq<Datagram>, q: Request, s: nat, i: nat)
    requires InRing(l, s, i)
    ensures var r, slot := Presented(l, datagrams, q), SlotAt(l, s, i);
            var exported := q.fence.Some? && q.fence.value >= 0 && q.delivered;
            && InRing(r, s, i)
            && SlotAt(r, s, i) ==
                 if CapturesInto(l, datagrams, q, s, i) then
                   CaptureSlot(true, exported, slot.generation + 1,
                               if exported then -1 else if q.fence.Some? then q.fence.value else slot.fenceFd,
                               !q.enqueued, q.fence.None?, slot.content)
                 else if ResendsNow(l, datagrams, q, s, i) then slot.(fenceFd := -1, sent := true)
                 else if slot.busy && !StaysBusy(l, datagrams, s, i) then slot.(busy := false, sent := false)
                 else slot
  {
    RetriedNow(l, datagrams, q, s, i);
    CapturedExactly(l, datagrams, q, s, i);
  }

  /** What one present sends: the refused exports that the socket takes now, each once, and
      then the export of the slot it captures into, if that is taken. */
  lemma PresentSends(l: Layer, datagrams: seq<Datagram>, q: Request) returns (retried: seq<Export>, captured: seq<Export>)
    ensures Presented(l, datagrams, q).sent == l.sent + retried + captured && Distinct(retried) && |captured| <= 1
    ensures forall e: Export :: e in retried <==>
      InRing(l, e.stream, e.slot) && ResendsNow(l, datagrams, q, e.stream, e.slot)
      && e.generation == SlotAt(l, e.stream, e.slot).generation
    ensures forall e: Export :: e in captured <==>
      && q.fence.Some? && q.fence.value >= 0 && q.delivered
      && InRing(l, e.stream, e.slot) && CapturesInto(l, datagrams, q, e.stream, e.slot)
      && e.generation == SlotAt(l, e.stream, e.slot).generation + 1
  {
    var d := DrainAll(l, Readable(datagrams));
    DrainAllCounts(l, Readable(datagrams));
    EmitFromCounts(d, 0, 0, q.deliverable);
    retried := RetriedExports(d, 0, 0, q.deliverable);
    forall e: Export | InRing(l, e.stream, e.slot)
      ensures Resent(d, 0, 0, q.deliverable, e) <==>
        ResendsNow(l, datagrams, q, e.stream, e.slot) && e.generation == SlotAt(l, e.stream, e.slot).generation
    {
      RetriedNow(l, datagrams, q, e.stream, e.slot);
      DrainedExactly(l, Readable(datagrams), e.stream, e.slot);
    }
    captured := CapturedExport(l, datagrams, q);
  }

  lemma CapturedExport(l: Layer, datagrams: seq<Datagram>, q: Request) returns (captured: seq<Export>)
    ensures var r := EmitFrom(DrainAll(l, Readable(datagrams)), 0, 0, q.deliverable);
            Presented(l, datagrams, q).sent == r.sent + captured && |captured| <= 1
    ensures forall e: Export :: e in captured <==>
      && q.fence.Some? && q.fence.value >= 0 && q.delivered
      && InRing(l, e.stream, e.slot) && CapturesInto(l, datagrams, q, e.stream, e.slot)
      && e.generation == SlotAt(l, e.stream, e.slot).generation + 1
  {
    var r := EmitFrom(DrainAll(l, Readable(datagrams)), 0, 0, q.deliverable);
    DrainAllCounts(l, Readable(datagrams));
    EmitFromCounts(DrainAll(l, Readable(datagrams)), 0, 0, q.deliverable);
    var pick := CapturedSlot(r, q);
    forall s: nat, i: nat | InRing(l, s, i)
      ensures CapturesInto(l, datagrams, q, s, i) <==> q.stream == s && pick == Some(i)
      ensures SlotAt(r, s, i).generation == SlotAt(l, s, i).generation
    {
      CapturedExactly(l, datagrams, q, s, i);
      RetriedNow(l, datagrams, q, s, i);
    }
    if pick.Some? && q.fence.Some? && q.fence.value >= 0 && q.delivered {
      captured := [Export(q.stream, pick.value, SlotAt(r, q.stream, pick.value).generation + 1)];
      assert InRing(l, q.stream, pick.value);
    } else {
      captured := [];
      assert Presented(l, datagrams, q).sent == r.sent;
    }
  }
}
