/** The encode worker's staging pool: the import thread (producer) copies frames into
    free slots and queues them, the encode thread (worker) takes them from a fixed FIFO,
    submits them and retires their slots. Every atomic action of either thread, and every
    completion of a GPU read, is one event; a run is any sequence of enabled events. */
module StagingPool {
  import opened Collections
  import opened RingScan

  datatype SlotState = Free | Queued | Retiring

  /** `consumed` says that the slot has a consumed fence; `reading` says that the encoder's
      GPU read of the slot has not completed, so the fence is signalled iff `!reading`. */
  datatype Slot = Slot(state: SlotState, pts: nat, consumed: bool, reading: bool)

  /** `Scanning(n, pts)` is about to visit step `n`; `Copied(i)` has blitted into slot `i`
      and marked it queued, but has not entered it into the FIFO. */
  datatype Producer = Outside | Scanning(step: nat, pts: nat) | Copied(slot: nat)
  datatype Worker = Starting | Waiting | Taken(slot: nat) | Submitted(slot: nat) | Exited | Dead

  datatype Pool = Pool(
    slots: seq<Slot>, queue: seq<nat>, scanNext: nat,
    producer: Producer, worker: Worker,
    accepted: seq<nat>, submitted: seq<nat>,
    encoded: nat, submitDrops: nat, poolDrops: nat,
    failed: bool, closing: bool)

  datatype Event =
    | Begin(matches: bool, pts: nat)
    | Visit(waitFails: bool)
    | Enqueue
    | Ready(ok: bool)        // the worker thread's start-up
    | Take
    | Submit(ok: bool)
    | Retire(fenceMade: bool)
    | Exit
    | ReadDone(i: nat)
    | Close

  function Start(count: nat): Pool {
    Pool(seq(count, _ => Slot(Free, 0, false, false)), [], 0, Outside, Starting, [], [], 0, 0, 0, false, false)
  }

  /** What the producer finds at a slot: still unavailable, or free after all. */
  predicate Unavailable(slot: Slot) {
    slot.state == Queued || (slot.state == Retiring && slot.consumed && slot.reading)
  }

  predicate Enabled(p: Pool, ev: Event) {
    match ev
    case Begin(_, _) => p.producer.Outside? && !p.closing
    case Visit(_) => p.producer.Scanning? && p.scanNext < |p.slots| && p.producer.step <= |p.slots|
    case Enqueue => p.producer.Copied? && p.producer.slot < |p.slots|
    case Ready(_) => p.worker.Starting?
    case Take => p.worker.Waiting? && p.queue != []
    case Submit(_) => p.worker.Taken? && p.worker.slot < |p.slots|
    case Retire(_) => p.worker.Submitted? && p.worker.slot < |p.slots|
    case Exit => p.worker.Waiting? && p.queue == [] && p.closing
    case ReadDone(i) => i < |p.slots| && p.slots[i].reading && !(p.worker.Submitted? && p.worker.slot == i)
    case Close => p.producer.Outside?
  }

  /** One iteration of the scan in `copy`. */
  function Visited(p: Pool, waitFails: bool): Pool
    requires p.producer.Scanning? && p.scanNext < |p.slots| && p.producer.step <= |p.slots|
  {
    var n, pts := p.producer.step, p.producer.pts;
    if n == |p.slots| then p.(producer := Outside, poolDrops := p.poolDrops + 1)
    else
      var i := At(p.scanNext, n, |p.slots|);
      var slot := p.slots[i];
      if slot.state == Retiring && slot.consumed && waitFails then p.(producer := Outside, failed := true)
      else if Unavailable(slot) then p.(producer := Scanning(n + 1, pts))
      else p.(slots := p.slots[i := slot.(state := Queued, pts := pts, consumed := false)], producer := Copied(i))
  }

  function Apply(p: Pool, ev: Event): Pool
    requires Enabled(p, ev)
  {
    match ev
    case Begin(matches, pts) => if p.failed || !matches then p else p.(producer := Scanning(0, pts))
    case Visit(waitFails) => Visited(p, waitFails)
    case Enqueue =>
      if |p.queue| == |p.slots| then p.(failed := true, producer := Outside)
      else p.(queue := p.queue + [p.producer.slot], scanNext := (p.producer.slot + 1) % |p.slots|,
              accepted := p.accepted + [p.slots[p.producer.slot].pts], producer := Outside)
    case Ready(ok) => if ok then p.(worker := Waiting) else p.(worker := Dead, failed := true)
    case Take => p.(worker := Taken(p.queue[0]), queue := p.queue[1..])
    case Submit(ok) =>
      var i := p.worker.slot;
      p.(slots := p.slots[i := p.slots[i].(reading := true)], submitted := p.submitted + [p.slots[i].pts], worker := Submitted(i),
         encoded := p.encoded + (if ok then 1 else 0), submitDrops := p.submitDrops + (if ok then 0 else 1))
    case Retire(fenceMade) =>
      var i := p.worker.slot;
      p.(slots := p.slots[i := p.slots[i].(state := Retiring, consumed := fenceMade, reading := fenceMade)], worker := Waiting)
    case Exit => p.(worker := Exited)
    case ReadDone(i) => p.(slots := p.slots[i := p.slots[i].(reading := false)])
    case Close => p.(closing := true)
  }

  // ---- invariant ----

  predicate InHand(p: Pool, i: nat) {
    (p.worker.Taken? || p.worker.Submitted?) && p.worker.slot == i
  }

  predicate Held(p: Pool, i: nat) { p.producer.Copied? && p.producer.slot == i }

  /** The frames accepted but not yet submitted, oldest first. */
  function Waiters(p: Pool): seq<nat>
    requires p.worker.Taken? ==> p.worker.slot < |p.slots|
    requires forall k :: 0 <= k < |p.queue| ==> p.queue[k] < |p.slots|
  {
    (if p.worker.Taken? then [p.slots[p.worker.slot].pts] else []) +
    seq(|p.queue|, k requires 0 <= k < |p.queue| => p.slots[p.queue[k]].pts)
  }

  /** Each slot has one owner: the FIFO, the worker's hand and the producer's hand hold
      distinct queued slots, and a GPU read only touches retiring or in-hand slots. */
  ghost predicate Owned(p: Pool) {
    && (forall k :: 0 <= k < |p.queue| ==>
          p.queue[k] < |p.slots| && p.slots[p.queue[k]].state == Queued && !InHand(p, p.queue[k]) && !Held(p, p.queue[k]))
    && (forall j, k :: 0 <= j < k < |p.queue| ==> p.queue[j] != p.queue[k])
    && (p.worker.Taken? || p.worker.Submitted? ==>
          p.worker.slot < |p.slots| && p.slots[p.worker.slot].state == Queued && !Held(p, p.worker.slot))
    && (p.producer.Copied? ==> p.producer.slot < |p.slots| && p.slots[p.producer.slot].state == Queued)
    && (p.producer.Scanning? ==> p.producer.step <= |p.slots|)
    && (forall i :: 0 <= i < |p.slots| && p.slots[i].reading ==>
          (p.slots[i].state == Retiring && p.slots[i].consumed) || (p.worker.Submitted? && p.worker.slot == i))
  }

  ghost predicate Inv(p: Pool) {
    && p.scanNext < |p.slots| && Owned(p)
    && p.accepted == p.submitted + Waiters(p)
    && |p.submitted| == p.encoded + p.submitDrops
    && (p.closing ==> p.producer.Outside?)
    && (p.worker.Exited? ==> p.queue == [] && p.closing)
  }

  lemma InvStart(count: nat)
    requires count > 0
    ensures Inv(Start(count))
  {
  }

  /** The branch that guards the fixed queue storage is dead: while the producer holds a
      slot, the FIFO is not full. */
  lemma QueueNeverFull(p: Pool)
    requires Inv(p) && p.producer.Copied?
    ensures |p.queue| < |p.slots|
  {
    var all := p.queue + [p.producer.slot];
    forall j, k | 0 <= j < k < |all|
      ensures all[j] != all[k]
    {
      if k == |p.queue| { assert !Held(p, p.queue[j]); }
    }
    DistinctIndicesFit(all, |p.slots|);
  }

  lemma OwnedBlit(p: Pool, i: nat, slot: Slot)
    requires Owned(p) && i < |p.slots| && p.slots[i].state != Queued && !p.producer.Copied?
    requires slot.state == Queued && !slot.reading
    ensures var r := p.(slots := p.slots[i := slot], producer := Copied(i));
            Owned(r) && Waiters(r) == Waiters(p)
  {
    var r := p.(slots := p.slots[i := slot], producer := Copied(i));
    assert forall k :: 0 <= k < |p.queue| ==> p.queue[k] != i && r.slots[p.queue[k]] == p.slots[p.queue[k]];
  }

  lemma OwnedVisit(p: Pool, waitFails: bool)
    requires Inv(p) && Enabled(p, Visit(waitFails))
    ensures Inv(Apply(p, Visit(waitFails)))
  {
    var n := p.producer.step;
    if n < |p.slots| {
      var i := At(p.scanNext, n, |p.slots|);
      if !Unavailable(p.slots[i]) && !(p.slots[i].state == Retiring && p.slots[i].consumed && waitFails) {
        OwnedBlit(p, i, p.slots[i].(state := Queued, pts := p.producer.pts, consumed := false));
      }
    }
  }

  lemma EnqueueKeepsOwners(p: Pool)
    requires Owned(p) && p.producer.Copied?
    ensures Owned(p.(queue := p.queue + [p.producer.slot], producer := Outside))
  {
    var r := p.(queue := p.queue + [p.producer.slot], producer := Outside);
    assert forall k :: 0 <= k < |p.queue| ==> r.queue[k] == p.queue[k] && !Held(p, p.queue[k]);
    assert !InHand(p, p.producer.slot);
  }

  lemma OwnedEnqueue(p: Pool)
    requires Inv(p) && Enabled(p, Enqueue)
    ensures Inv(Apply(p, Enqueue)) && Apply(p, Enqueue).queue == p.queue + [p.producer.slot]
  {
    QueueNeverFull(p);
    EnqueueKeepsOwners(p);
    var r := Apply(p, Enqueue);
    assert Waiters(r) == Waiters(p) + [p.slots[p.producer.slot].pts];
  }

  lemma OwnedTake(p: Pool)
    requires Inv(p) && Enabled(p, Take)
    ensures Inv(Apply(p, Take))
  {
    var r := Apply(p, Take);
    assert forall k :: 0 <= k < |r.queue| ==> r.queue[k] == p.queue[k + 1] && p.queue[k + 1] != p.queue[0];
    assert Waiters(r) == Waiters(p);
  }

  lemma SubmitKeepsOwners(p: Pool, ok: bool)
    requires Owned(p) && Enabled(p, Submit(ok))
    ensures Owned(Apply(p, Submit(ok)))
  {
    var r := Apply(p, Submit(ok));
    forall k | 0 <= k < |p.queue|
      ensures r.slots[r.queue[k]] == p.slots[p.queue[k]] && !InHand(r, r.queue[k]) && !Held(r, r.queue[k])
    {
      assert !InHand(p, p.queue[k]) && !Held(p, p.queue[k]);
    }
  }

  lemma SubmitWaiters(p: Pool, ok: bool)
    requires Owned(p) && Enabled(p, Submit(ok)) && Owned(Apply(p, Submit(ok)))
    ensures Waiters(p) == [p.slots[p.worker.slot].pts] + Waiters(Apply(p, Submit(ok)))
  {
    assert forall k :: 0 <= k < |p.queue| ==> !InHand(p, p.queue[k]);
  }

  lemma OwnedSubmit(p: Pool, ok: bool)
    requires Inv(p) && Enabled(p, Submit(ok))
    ensures Inv(Apply(p, Submit(ok)))
  {
    var r, pts := Apply(p, Submit(ok)), p.slots[p.worker.slot].pts;
    SubmitKeepsOwners(p, ok);
    SubmitWaiters(p, ok);
    assert p.submitted + ([pts] + Waiters(r)) == r.submitted + Waiters(r);
  }

  lemma OwnedRetire(p: Pool, fenceMade: bool)
    requires Inv(p) && Enabled(p, Retire(fenceMade))
    ensures Inv(Apply(p, Retire(fenceMade)))
  {
    assert forall k :: 0 <= k < |p.queue| ==> !InHand(p, p.queue[k]);
    assert Waiters(Apply(p, Retire(fenceMade))) == Waiters(p);
  }

  lemma OwnedReadDone(p: Pool, i: nat)
    requires Inv(p) && Enabled(p, ReadDone(i))
    ensures Inv(Apply(p, ReadDone(i)))
  {
    var r := Apply(p, ReadDone(i));
    forall k | 0 <= k < |p.queue|
      ensures r.slots[p.queue[k]].state == Queued && r.slots[p.queue[k]].pts == p.slots[p.queue[k]].pts
      ensures !InHand(r, p.queue[k]) && !Held(r, p.queue[k])
    {
      assert !InHand(p, p.queue[k]) && !Held(p, p.queue[k]);
    }
    assert Owned(r);
    assert Waiters(r) == Waiters(p);
  }

  lemma OwnedQuiet(p: Pool, ev: Event)
    requires Inv(p) && Enabled(p, ev)
    requires ev.Begin? || ev.Ready? || ev.Exit? || ev.Close?
    ensures Inv(Apply(p, ev))
  {
    assert Waiters(Apply(p, ev)) == Waiters(p);
  }

  lemma InvStep(p: Pool, ev: Event)
    requires Inv(p) && Enabled(p, ev)
    ensures Inv(Apply(p, ev))
  {
    match ev
    case Visit(waitFails) => OwnedVisit(p, waitFails);
    case Enqueue => OwnedEnqueue(p);
    case Take => OwnedTake(p);
    case Submit(ok) => OwnedSubmit(p, ok);
    case Retire(fenceMade) => OwnedRetire(p, fenceMade);
    case ReadDone(i) => OwnedReadDone(p, i);
    case _ => OwnedQuiet(p, ev);
  }

  // ---- runs ----

  ghost predicate Step(p: Pool, q: Pool) {
    exists ev :: Enabled(p, ev) && Apply(p, ev) == q
  }

  /** A recorded run: its states follow from each other by events, from a fresh pool. */
  ghost predicate IsRun(history: seq<Pool>) {
    && history != [] && |history[0].slots| > 0 && history[0] == Start(|history[0].slots|)
    && forall k :: 0 < k < |history| ==> Step(history[k - 1], history[k])
  }

  lemma StepKeepsInv(p: Pool, q: Pool)
    requires Inv(p) && Step(p, q)
    ensures Inv(q) && |q.slots| == |p.slots|
  {
    var ev :| Enabled(p, ev) && Apply(p, ev) == q;
    InvStep(p, ev);
  }

  lemma {:induction false} RunKeepsInv(history: seq<Pool>, k: nat)
    requires IsRun(history) && k < |history|
    ensures Inv(history[k]) && |history[k].slots| == |history[0].slots|
  {
    if k == 0 {
      InvStart(|history[0].slots|);
    } else {
      RunKeepsInv(history, k - 1);
      StepKeepsInv(history[k - 1], history[k]);
    }
  }

  lemma RunInRange(history: seq<Pool>, k: nat)
    requires IsRun(history) && k < |history|
    ensures var p := history[k];
            && p.scanNext < |p.slots|
            && (p.worker.Taken? || p.worker.Submitted? ==> p.worker.slot < |p.slots|)
            && (p.producer.Copied? ==> p.producer.slot < |p.slots|)
            && (p.producer.Scanning? ==> p.producer.step <= |p.slots|)
            && (p.worker.Exited? ==> p.queue == [])
  {
    RunKeepsInv(history, k);
  }

  lemma BlitStep(p: Pool, q: Pool)
    requires Step(p, q) && q.producer.Copied? && !p.producer.Copied?
    requires forall i :: 0 <= i < |p.slots| && p.slots[i].reading ==>
               (p.slots[i].state == Retiring && p.slots[i].consumed) || p.slots[i].state == Queued
    ensures var i := q.producer.slot; i < |p.slots| && !p.slots[i].reading && p.slots[i].state != Queued
  {
  }

  /** No slot is blitted into while the encoder may still read it. */
  lemma BlitAfterRead(history: seq<Pool>, k: nat)
    requires IsRun(history) && 0 < k < |history| && history[k].producer.Copied? && !history[k - 1].producer.Copied?
    ensures var i := history[k].producer.slot;
            i < |history[k - 1].slots| && !history[k - 1].slots[i].reading && history[k - 1].slots[i].state != Queued
  {
    RunKeepsInv(history, k - 1);
    BlitStep(history[k - 1], history[k]);
  }

  /** Frames reach the encoder in the order in which they were accepted, and every accepted
      frame is encoded, dropped by the encoder, queued or in hand. */
  lemma SubmittedInOrder(history: seq<Pool>, k: nat)
    requires IsRun(history) && k < |history|
    ensures var p := history[k];
            && p.submitted <= p.accepted
            && |p.accepted| == p.encoded + p.submitDrops + |p.queue| + (if p.worker.Taken? then 1 else 0)
  {
    RunKeepsInv(history, k);
  }

  /** Once the worker has left its loop nothing accepted is missing. */
  lemma ExitedDrained(history: seq<Pool>, k: nat)
    requires IsRun(history) && k < |history| && history[k].worker.Exited?
    ensures var p := history[k];
            p.accepted == p.submitted && |p.accepted| == p.encoded + p.submitDrops
  {
    RunKeepsInv(history, k);
  }

  /** While the producer scans, the start of its scan does not move. */
  lemma {:induction false} ScanFixed(history: seq<Pool>, from: nat, last: nat)
    requires IsRun(history) && from <= last < |history|
    requires forall k :: from <= k <= last ==> history[k].producer.Scanning?
    ensures history[last].scanNext == history[from].scanNext < |history[from].slots| == |history[last].slots|
    decreases last
  {
    RunKeepsInv(history, from);
    RunKeepsInv(history, last);
    if last > from {
      assert Step(history[last - 1], history[last]);
      ScanFixed(history, from, last - 1);
    }
  }

  lemma ScanAdvances(p: Pool, q: Pool)
    requires Step(p, q) && p.producer.Scanning? && q.producer.Scanning?
    ensures q.producer.step == p.producer.step ||
      (q.producer.step == p.producer.step + 1 && p.scanNext < |p.slots| && p.producer.step < |p.slots|
       && Unavailable(p.slots[At(p.scanNext, p.producer.step, |p.slots|)]))
  {
  }

  /** Slot `i` was unavailable at some moment of this part of the run. */
  ghost predicate Missed(history: seq<Pool>, from: nat, last: nat, i: nat) {
    exists k :: from <= k < last && k < |history| && i < |history[k].slots| && Unavailable(history[k].slots[i])
  }

  ghost predicate AllMissed(history: seq<Pool>, from: nat, last: nat, count: nat) {
    forall i :: 0 <= i < count ==> Missed(history, from, last, i)
  }

  lemma StillMissed(history: seq<Pool>, from: nat, last: nat, longer: seq<Pool>, earlier: nat, later: nat, count: nat)
    requires AllMissed(history, from, last, count) && history <= longer && earlier <= from && last <= later
    ensures AllMissed(longer, earlier, later, count)
  {
    forall i | 0 <= i < count
      ensures Missed(longer, earlier, later, i)
    {
      assert Missed(history, from, last, i);
      var k :| from <= k < last && k < |history| && i < |history[k].slots| && Unavailable(history[k].slots[i]);
      assert longer[k] == history[k];
    }
  }

  /** A slot that the scan has passed was unavailable when the scan visited it; a scan that
      reaches its end has passed every slot. */
  lemma {:induction false} ScanMisses(history: seq<Pool>, from: nat, last: nat, i: nat)
    requires IsRun(history) && from <= last < |history|
    requires forall k :: from <= k <= last ==> history[k].producer.Scanning?
    requires history[from].producer.step == 0
    requires i < |history[from].slots| && history[from].scanNext < |history[from].slots|
    requires StepOf(history[from].scanNext, i, |history[from].slots|) < history[last].producer.step
    ensures Missed(history, from, last, i)
    decreases last
  {
    if last > from {
      ScanFixed(history, from, last - 1);
      assert Step(history[last - 1], history[last]);
      ScanAdvances(history[last - 1], history[last]);
      if StepOf(history[from].scanNext, i, |history[from].slots|) < history[last - 1].producer.step {
        ScanMisses(history, from, last - 1, i);
      } else {
        assert Unavailable(history[last - 1].slots[i]);
      }
    }
  }

  lemma DropOnlyWhenAllUnavailable(history: seq<Pool>, from: nat, last: nat)
    requires IsRun(history) && from <= last < |history|
    requires forall k :: from <= k <= last ==> history[k].producer.Scanning?
    requires history[from].producer.step == 0 && history[last].producer.step == |history[last].slots|
    ensures AllMissed(history, from, last, |history[last].slots|)
  {
    ScanFixed(history, from, last);
    forall i | 0 <= i < |history[last].slots|
      ensures Missed(history, from, last, i)
    {
      ScanMisses(history, from, last, i);
    }
  }

  // ---- what the counters count, and where queued slots are ----

  /** The events that lead through a recorded run. */
  ghost predicate Driven(history: seq<Pool>, events: seq<Event>) {
    && IsRun(history) && |events| == |history| - 1
    && forall k {:trigger events[k]} :: 0 <= k < |events| ==>
         Enabled(history[k], events[k]) && Apply(history[k], events[k]) == history[k + 1]
  }

  function Submissions(events: seq<Event>, ok: bool): nat {
    if events == [] then 0
    else Submissions(events[..|events| - 1], ok) + if events[|events| - 1] == Submit(ok) then 1 else 0
  }

  /** `encoded` counts the submissions that the encoder took, and `submitDrops` the others. */
  lemma {:induction false} CountersTell(history: seq<Pool>, events: seq<Event>, k: nat)
    requires Driven(history, events) && k < |history|
    ensures history[k].encoded == Submissions(events[..k], true)
    ensures history[k].submitDrops == Submissions(events[..k], false)
  {
    if k > 0 {
      CountersTell(history, events, k - 1);
      assert events[..k][..k - 1] == events[..k - 1] && events[..k][k - 1] == events[k - 1];
      CountersStep(history[k - 1], events[k - 1]);
    }
  }

  lemma CountersStep(p: Pool, ev: Event)
    requires Enabled(p, ev)
    ensures Apply(p, ev).encoded == p.encoded + if ev == Submit(true) then 1 else 0
    ensures Apply(p, ev).submitDrops == p.submitDrops + if ev == Submit(false) then 1 else 0
  {
  }

  /** The worker starts once, dies exactly of a start that failed, and leaves its loop once. */
  lemma {:induction false} WorkerTells(history: seq<Pool>, events: seq<Event>, k: nat)
    requires Driven(history, events) && k < |history|
    ensures history[k].worker.Starting? <==> Ready(true) !in events[..k] && Ready(false) !in events[..k]
    ensures history[k].worker.Dead? <==> Ready(false) in events[..k]
    ensures history[k].worker.Exited? <==> Exit in events[..k]
  {
    if k > 0 {
      WorkerTells(history, events, k - 1);
      LastOfPrefix(events, k, Ready(true));
      LastOfPrefix(events, k, Ready(false));
      LastOfPrefix(events, k, Exit);
      WorkerStep(history[k - 1], events[k - 1]);
    }
  }

  lemma LastOfPrefix(events: seq<Event>, k: nat, ev: Event)
    requires 0 < k <= |events|
    ensures ev in events[..k] <==> ev in events[..k - 1] || ev == events[k - 1]
  {
    assert events[..k] == events[..k - 1] + [events[k - 1]];
  }

  lemma WorkerStep(p: Pool, ev: Event)
    requires Enabled(p, ev)
    ensures Apply(p, ev).worker.Starting? <==> p.worker.Starting? && !ev.Ready?
    ensures Apply(p, ev).worker.Dead? <==> p.worker.Dead? || ev == Ready(false)
    ensures Apply(p, ev).worker.Exited? <==> p.worker.Exited? || ev == Exit
  {
  }

  lemma AfterIsLast(i: nat, count: nat)
    requires i < count
    ensures (i + 1) % count < count && StepOf((i + 1) % count, i, count) == count - 1
  {
    ModOnce(i + 1, count);
  }

  /** A slot that just entered the FIFO is the last one the next scan comes to. */
  lemma EnqueuedSlotIsLast(p: Pool)
    requires Inv(p) && Enabled(p, Enqueue)
    ensures var r := Apply(p, Enqueue);
            |r.slots| == |p.slots| && r.scanNext < |r.slots| && StepOf(r.scanNext, p.producer.slot, |p.slots|) == |p.slots| - 1
  {
    QueueNeverFull(p);
    AfterIsLast(p.producer.slot, |p.slots|);
  }

  /** A queued slot is in the FIFO, or in one of the two threads' hands. */
  ghost predicate QueuedPlaced(p: Pool) {
    forall i :: 0 <= i < |p.slots| && p.slots[i].state == Queued ==> i in p.queue || InHand(p, i) || Held(p, i)
  }

  lemma PlacedAfterTake(p: Pool)
    requires QueuedPlaced(p) && Enabled(p, Take)
    ensures QueuedPlaced(Apply(p, Take))
  {
    var r := Apply(p, Take);
    forall i | 0 <= i < |r.slots| && r.slots[i].state == Queued
      ensures i in r.queue || InHand(r, i) || Held(r, i)
    {
      assert p.queue == [p.queue[0]] + r.queue;
    }
  }

  lemma PlacedAfterEnqueue(p: Pool)
    requires QueuedPlaced(p) && Enabled(p, Enqueue) && |p.queue| < |p.slots|
    ensures QueuedPlaced(Apply(p, Enqueue))
  {
    var r := Apply(p, Enqueue);
    forall i | 0 <= i < |r.slots| && r.slots[i].state == Queued
      ensures i in r.queue || InHand(r, i) || Held(r, i)
    {
      assert r.queue == p.queue + [p.producer.slot];
    }
  }

  lemma PlacedStep(p: Pool, ev: Event)
    requires Inv(p) && QueuedPlaced(p) && Enabled(p, ev)
    ensures QueuedPlaced(Apply(p, ev))
  {
    match ev
    case Take => PlacedAfterTake(p);
    case Enqueue =>
      QueueNeverFull(p);
      PlacedAfterEnqueue(p);
    case _ => PlacedOtherwise(p, ev);
  }

  lemma PlacedOtherwise(p: Pool, ev: Event)
    requires QueuedPlaced(p) && Enabled(p, ev) && !ev.Take? && !ev.Enqueue?
    ensures QueuedPlaced(Apply(p, ev))
  {
    assert Apply(p, ev).queue == p.queue;
  }

  /** No slot is lost: in every run, a slot that cannot be taken waits in the FIFO, is in a
      thread's hand, or is still being read by the encoder. */
  lemma {:induction false} NoSlotIsLost(history: seq<Pool>, k: nat, i: nat)
    requires IsRun(history) && k < |history| && i < |history[k].slots| && Unavailable(history[k].slots[i])
    ensures var p := history[k];
            i in p.queue || InHand(p, i) || Held(p, i) || (p.slots[i].state == Retiring && p.slots[i].reading)
  {
    PlacedRun(history, k);
  }

  lemma {:induction false} PlacedRun(history: seq<Pool>, k: nat)
    requires IsRun(history) && k < |history|
    ensures QueuedPlaced(history[k])
  {
    if k > 0 {
      PlacedRun(history, k - 1);
      RunKeepsInv(history, k - 1);
      assert Step(history[k - 1], history[k]);
      var ev :| Enabled(history[k - 1], ev) && Apply(history[k - 1], ev) == history[k];
      PlacedStep(history[k - 1], ev);
    }
  }

  /** Whether the encoder reads slot `i`, by the events: from its submission on, until the
      read is done, or until the worker has waited for it because no fence was made. */
  function ReadOpen(history: seq<Pool>, events: seq<Event>, k: nat, i: nat): bool
    requires k <= |events| < |history|
  {
    if k == 0 then false
    else
      var p, ev := history[k - 1], events[k - 1];
      if ev.Submit? && p.worker.Taken? && p.worker.slot == i then true
      else if ev.Retire? && p.worker.Submitted? && p.worker.slot == i then ev.fenceMade
      else if ev == ReadDone(i) then false
      else ReadOpen(history, events, k - 1, i)
  }

  lemma {:induction false} ReadsTell(history: seq<Pool>, events: seq<Event>, k: nat, i: nat)
    requires Driven(history, events) && k < |history| && i < |history[k].slots|
    ensures history[k].slots[i].reading == ReadOpen(history, events, k, i)
  {
    if k > 0 {
      assert Step(history[k - 1], history[k]) by {
        assert Enabled(history[k - 1], events[k - 1]) && Apply(history[k - 1], events[k - 1]) == history[k - 1 + 1];
      }
      RunKeepsInv(history, k);
      RunKeepsInv(history, k - 1);
      ReadsTell(history, events, k - 1, i);
      ReadStep(history[k - 1], events[k - 1], i);
    }
  }

  lemma ReadStep(p: Pool, ev: Event, i: nat)
    requires Enabled(p, ev) && i < |p.slots|
    ensures i < |Apply(p, ev).slots|
    ensures Apply(p, ev).slots[i].reading ==
              if ev.Submit? && p.worker.slot == i then true
              else if ev.Retire? && p.worker.slot == i then ev.fenceMade
              else if ev == ReadDone(i) then false
              else p.slots[i].reading
  {
  }
}
