/** The encode worker as it is written: a fixed array of staging slots, a fixed circular
    queue, and the two threads' code. Each atomic block is a method that performs one event
    of `StagingPool`; between the blocks of one thread, `Interfere` lets the other thread
    and the GPU do any number of their own. */
module EncodeWorkers {
  import opened RingScan
  import opened StagingPool

  class EncodeWorker {
    const count: nat
    const slots: array<Slot>
    const queue: array<nat>
    var head: nat
    var queued: nat
    var scanNext: nat
    var encoded: nat
    var submitDrops: nat
    var poolDrops: nat
    var failed: bool
    var closing: bool
    var producer: Producer       // where each thread is, with its local variables
    var worker: Worker
    ghost var accepted: seq<nat>
    ghost var submitted: seq<nat>
    ghost var history: seq<Pool>

    ghost predicate Shape()
      reads this
    {
      slots.Length == queue.Length == count > 0 && head < count && queued <= count
    }

    ghost function Fifo(): seq<nat>
      requires Shape()
      reads this, queue
    {
      seq(queued, k requires 0 <= k < queued && Shape() reads this, queue => queue[At(head, k, count)])
    }

    ghost function Model(): Pool
      requires Shape()
      reads this, slots, queue
    {
      Pool(slots[..], Fifo(), scanNext, producer, worker, accepted, submitted, encoded, submitDrops, poolDrops, failed, closing)
    }

    /** The history is a run that ends in the present state. */
    ghost predicate Valid()
      reads this, slots, queue
    {
      && Shape() && IsRun(history) && history[|history| - 1] == Model()
    }

    /** Appends the state reached by `ev` to the history. */
    ghost method Record(before: Pool, ev: Event)
      requires Shape() && IsRun(history) && history[|history| - 1] == before
      requires Enabled(before, ev) && Model() == Apply(before, ev)
      modifies this`history
      ensures Valid() && history == old(history) + [Model()]
    {
      assert Step(before, Model());
      history := history + [Model()];
    }

    constructor (frames: nat)
      requires frames > 0
      ensures Valid() && count == frames && Model() == Start(frames)
      ensures fresh(slots) && fresh(queue)
    {
      count := frames;
      slots := new Slot[frames](_ => Slot(Free, 0, false, false));
      queue := new nat[frames];
      head, queued, scanNext, encoded, submitDrops, poolDrops := 0, 0, 0, 0, 0, 0;
      failed, closing := false, false;
      producer, worker := Outside, Starting;
      accepted, submitted := [], [];
      new;
      history := [Model()];
      assert slots[..] == Start(frames).slots;
    }

    // ---- the worker thread ----

    method WorkerReady(ok: bool)
      requires Valid() && worker.Starting?
      modifies this
      ensures Valid() && Model() == Apply(old(Model()), Ready(ok)) && history == old(history) + [Model()]
    {
      ghost var before := Model();
      if ok { worker := Waiting; } else { worker, failed := Dead, true; }
      Record(before, Ready(ok));
    }

    /** Under the lock: the oldest index leaves the circular queue. */
    method WorkerTake()
      requires Valid() && worker.Waiting? && queued != 0
      modifies this
      ensures Valid() && Model() == Apply(old(Model()), Take) && history == old(history) + [Model()]
      ensures queued == old(queued) - 1
    {
      ghost var before := Model();
      ModOnce(head + 1, count);
      var index := queue[head];
      forall k: nat {:trigger At((head + 1) % count, k, count)} | k < queued - 1
        ensures At((head + 1) % count, k, count) == At(head, k + 1, count)
      {
      }
      head := (head + 1) % count;
      queued := queued - 1;
      worker := Taken(index);
      assert Fifo() == before.queue[1..];
      Record(before, Take);
    }

    method WorkerSubmit(ok: bool)
      requires Valid() && Enabled(Model(), Submit(ok))
      modifies this, slots
      ensures Valid() && Model() == Apply(old(Model()), Submit(ok)) && history == old(history) + [Model()]
      ensures forall i :: 0 <= i < count ==> slots[i].pts == old(slots[i].pts)
    {
      ghost var before := Model();
      var index := worker.slot;
      submitted := submitted + [slots[index].pts];
      slots[index] := slots[index].(reading := true);
      if ok { encoded := encoded + 1; } else { submitDrops := submitDrops + 1; }
      worker := Submitted(index);
      Record(before, Submit(ok));
    }

    method WorkerRetire(fenceMade: bool)
      requires Valid() && Enabled(Model(), Retire(fenceMade))
      modifies this, slots
      ensures Valid() && Model() == Apply(old(Model()), Retire(fenceMade)) && history == old(history) + [Model()]
      ensures forall i :: 0 <= i < count ==> slots[i].pts == old(slots[i].pts)
    {
      ghost var before := Model();
      var index := worker.slot;
      slots[index] := slots[index].(consumed := fenceMade, reading := fenceMade);
      slots[index] := slots[index].(state := Retiring);
      worker := Waiting;
      Record(before, Retire(fenceMade));
    }

    method WorkerExit()
      requires Valid() && worker.Waiting? && queued == 0 && closing
      modifies this
      ensures Valid() && Model() == Apply(old(Model()), Exit) && history == old(history) + [Model()]
    {
      ghost var before := Model();
      worker := Exited;
      Record(before, Exit);
    }

    method GpuReadDone(i: nat)
      requires Valid() && i < count && slots[i].reading && !(worker.Submitted? && worker.slot == i)
      modifies this`history, slots
      ensures Valid() && Model() == Apply(old(Model()), ReadDone(i)) && history == old(history) + [Model()]
      ensures forall i :: 0 <= i < count ==> slots[i].pts == old(slots[i].pts)
    {
      ghost var before := Model();
      slots[i] := slots[i].(reading := false);
      Record(before, ReadDone(i));
    }

    /** Any number of steps of the worker and the GPU. */
    method Interfere()
      requires Valid()
      modifies this, slots
      ensures Valid() && old(history) <= history
      ensures producer == old(producer) && closing == old(closing) && scanNext == old(scanNext)
      ensures accepted == old(accepted) && poolDrops == old(poolDrops)
      ensures forall i :: 0 <= i < count ==> slots[i].pts == old(slots[i].pts)
      ensures forall k :: |old(history)| <= k < |history| ==> history[k].producer == old(producer)
    {
      var steps: nat := *;
      while steps > 0
        invariant Valid() && old(history) <= history
        invariant producer == old(producer) && closing == old(closing) && scanNext == old(scanNext)
        invariant accepted == old(accepted) && poolDrops == old(poolDrops)
        invariant forall i :: 0 <= i < count ==> slots[i].pts == old(slots[i].pts)
        invariant forall k :: |old(history)| <= k < |history| ==> history[k].producer == old(producer)
      {
        WorkerStep();
        steps := steps - 1;
      }
    }

    /** One step of the worker, if it can move, or one completion of a GPU read. */
    method WorkerStep()
      requires Valid()
      modifies this, slots
      ensures Valid() && (history == old(history) || history == old(history) + [Model()])
      ensures producer == old(producer) && closing == old(closing) && scanNext == old(scanNext)
      ensures accepted == old(accepted) && poolDrops == old(poolDrops)
      ensures forall i :: 0 <= i < count ==> slots[i].pts == old(slots[i].pts)
    {
      RunInRange(history, |history| - 1);
      var gpu, ok, i: nat := *, *, *;
      if gpu {
        if i < count && slots[i].reading && !(worker.Submitted? && worker.slot == i) { GpuReadDone(i); }
      } else {
        match worker
        case Starting => WorkerReady(ok);
        case Waiting =>
          if queued != 0 { WorkerTake(); } else if closing { WorkerExit(); }
        case Taken(_) => WorkerSubmit(ok);
        case Submitted(_) => WorkerRetire(ok);
        case Exited =>
        case Dead =>
      }
    }

    // ---- the import thread ----

    method ProducerBegin(matches: bool, pts: nat)
      requires Valid() && producer.Outside? && !closing
      modifies this
      ensures Valid() && Model() == Apply(old(Model()), Begin(matches, pts)) && history == old(history) + [Model()]
    {
      ghost var before := Model();
      if !failed && matches { producer := Scanning(0, pts); }
      Record(before, Begin(matches, pts));
    }

    /** One iteration of the scan, or its end. */
    method ProducerVisit(waitFails: bool)
      requires Valid() && Enabled(Model(), Visit(waitFails))
      modifies this, slots
      ensures Valid() && Model() == Apply(old(Model()), Visit(waitFails)) && history == old(history) + [Model()]
    {
      ghost var before := Model();
      var n := producer.step;
      if n == count {
        poolDrops := poolDrops + 1;
        producer := Outside;
      } else {
        VisitSlot(At(scanNext, n, count), waitFails);
      }
      assert Model() == Visited(before, waitFails);
      Record(before, Visit(waitFails));
    }

    method VisitSlot(i: nat, waitFails: bool)
      requires Shape() && i < count && producer.Scanning?
      modifies this`producer, this`failed, slots
      ensures var slot, pts := old(slots[i]), old(producer).pts;
              if slot.state == Retiring && slot.consumed && waitFails then
                producer == Outside && failed && slots[..] == old(slots[..])
              else if Unavailable(slot) then
                producer == Scanning(old(producer).step + 1, pts) && failed == old(failed) && slots[..] == old(slots[..])
              else
                producer == Copied(i) && failed == old(failed) &&
                slots[..] == old(slots[..])[i := slot.(state := Queued, pts := pts, consumed := false)]
    {
      var slot, n, pts := slots[i], producer.step, producer.pts;
      if slot.state == Retiring {
        if slot.consumed {
          if waitFails {
            failed, producer := true, Outside;
            return;
          }
          if slot.reading {
            producer := Scanning(n + 1, pts);
            return;
          }
        }
        slot := slot.(state := Free, consumed := false);
        slots[i] := slot;
      }
      if slot.state != Free {
        producer := Scanning(n + 1, pts);
        return;
      }
      slots[i] := slot.(pts := pts, consumed := false, state := Queued);
      producer := Copied(i);
    }

    /** The circular queue takes an index behind its last one. */
    method PushIndex(i: nat)
      requires Shape() && queued < count
      modifies this`queued, queue
      ensures Shape() && queued == old(queued) + 1 && Fifo() == old(Fifo()) + [i]
    {
      forall k | 0 <= k < queued
        ensures At(head, k, count) != At(head, queued, count)
      {
      }
      queue[At(head, queued, count)] := i;
      queued := queued + 1;
      assert Fifo() == old(Fifo()) + [i];
    }

    method AcceptIndex(i: nat)
      requires Shape() && queued < count && i < count
      modifies this`queued, this`accepted, this`scanNext, queue
      ensures Shape() && Model() == old(Model()).(
                queue := old(Fifo()) + [i], scanNext := (i + 1) % count, accepted := old(accepted) + [slots[i].pts])
    {
      ModOnce(i + 1, count);
      PushIndex(i);
      accepted := accepted + [slots[i].pts];
      scanNext := (i + 1) % count;
    }

    /** Under the lock: the copied slot enters the circular queue. The guard of the fixed
        storage never fires. */
    method ProducerEnqueue() returns (ok: bool)
      requires Valid() && Enabled(Model(), Enqueue)
      modifies this, queue
      ensures ok && Valid() && Model() == Apply(old(Model()), Enqueue) && history == old(history) + [Model()]
      ensures accepted == old(accepted) + [old(slots[producer.slot].pts)]
    {
      ghost var before := Model();
      var i := producer.slot;
      if queued == count {
        failed, ok := true, false;
      } else {
        AcceptIndex(i);
        ok := true;
      }
      producer := Outside;
      Record(before, Enqueue);
      RunKeepsInv(old(history), |old(history)| - 1);
      QueueNeverFull(before);
    }

    /** Other threads run, then the scan visits one slot. */
    method VisitNext()
      requires Valid() && producer.Scanning? && producer.step < count && !closing
      modifies this, slots
      ensures Valid() && !closing && old(history) <= history && accepted == old(accepted) && poolDrops == old(poolDrops)
      ensures |old(history)| < |history|
      ensures forall k :: |old(history)| <= k < |history| - 1 ==> history[k].producer == old(producer)
      ensures history[|history| - 1].producer == producer
      ensures || (producer.Outside? && failed)
              || producer == Scanning(old(producer).step + 1, old(producer).pts)
              || (producer.Copied? && producer.slot < count && slots[producer.slot].pts == old(producer).pts)
    {
      Interfere();
      RunInRange(history, |history| - 1);
      var waitFails: bool := *;
      ghost var before := Model();
      ProducerVisit(waitFails);
      assert Model() == Visited(before, waitFails);
    }

    /** The scan of `copy`, with the worker and the GPU running between its visits. It
        ends holding a copied slot, or with a fault, or because every slot was unavailable
        at some moment of the scan. */
    method Scan(pts: nat)
      requires Valid() && producer == Scanning(0, pts) && !closing
      modifies this, slots
      ensures Valid() && !producer.Scanning? && !closing && old(history) <= history && accepted == old(accepted)
      ensures producer.Copied? ==>
                poolDrops == old(poolDrops) && producer.slot < count && slots[producer.slot].pts == pts
      ensures producer.Outside? ==>
                || (failed && poolDrops == old(poolDrops))
                || (poolDrops == old(poolDrops) + 1 && AllMissed(history, |old(history)| - 1, |history| - 1, count))
    {
      ghost var from := |history| - 1;
      assert history[from].producer == producer;
      var step := 0;
      while step < count
        invariant step <= count && Valid() && producer == Scanning(step, pts)
        invariant !closing && old(history) <= history
        invariant forall k :: from <= k < |history| ==> history[k].producer.Scanning?
        invariant accepted == old(accepted) && poolDrops == old(poolDrops)
      {
        VisitNext();
        if !producer.Scanning? { return; }
        step := step + 1;
      }
      ScanEnd(from);
    }

    /** The scan has passed every slot: the frame is dropped. */
    method ScanEnd(ghost from: nat)
      requires Valid() && producer.Scanning? && producer.step == count && from < |history|
      requires history[from].producer.Scanning? && history[from].producer.step == 0
      requires forall k :: from <= k < |history| ==> history[k].producer.Scanning?
      modifies this, slots
      ensures Valid() && producer.Outside? && closing == old(closing) && old(history) <= history && accepted == old(accepted)
      ensures poolDrops == old(poolDrops) + 1 && AllMissed(history, from, |history| - 1, count)
    {
      RunInRange(history, |history| - 1);
      DropOnlyWhenAllUnavailable(history, from, |history| - 1);
      ghost var all := history;
      assert |Model().slots| == count;
      ProducerVisit(false);
      StillMissed(all, from, |all| - 1, history, from, |history| - 1, count);
    }

    /** `copy`. The frame is accepted or it is not; without a fault it is dropped only if
        every slot was unavailable at some moment of this very call. */
    method Copy(matches: bool, pts: nat) returns (ok: bool)
      requires Valid() && producer.Outside? && !closing
      modifies this, slots, queue
      ensures Valid() && producer.Outside? && !closing && old(history) <= history
      ensures accepted == if ok then old(accepted) + [pts] else old(accepted)
      ensures ok ==> matches && !old(failed) && poolDrops == old(poolDrops)
      ensures !ok ==>
                || !matches || failed
                || (poolDrops == old(poolDrops) + 1 &&
                    AllMissed(history, |old(history)|, |history| - 1, count))
    {
      ProducerBegin(matches, pts);
      if producer.Outside? { return false; }
      Scan(pts);
      if producer.Outside? { return false; }
      Interfere();
      RunInRange(history, |history| - 1);
      ok := ProducerEnqueue();
    }

    ghost function Remaining(): nat
      requires Shape()
      reads this
    {
      3 * queued + match worker case Starting => 3 case Waiting => 1 case Taken(_) => 3 case Submitted(_) => 2 case _ => 0
    }

    /** One step of a worker that is draining a closed queue. */
    method DrainStep()
      requires Valid() && closing && !worker.Exited? && !worker.Dead?
      modifies this, slots
      ensures Valid() && closing && accepted == old(accepted) && Remaining() < old(Remaining())
    {
      RunInRange(history, |history| - 1);
      assert |Model().queue| == queued;
      var ok: bool := *;
      match worker
      case Starting => WorkerReady(ok);
      case Waiting =>
        if queued != 0 { WorkerTake(); } else { WorkerExit(); }
      case Taken(_) => WorkerSubmit(ok);
      case Submitted(_) => WorkerRetire(ok);
      assert |Model().queue| == queued;
    }

    /** `finish`: close the queue and let the worker drain it. A worker whose start-up
        succeeded leaves nothing behind. */
    method Finish()
      requires Valid() && producer.Outside?
      modifies this, slots
      ensures Valid() && closing && (worker.Exited? || worker.Dead?)
      ensures accepted == old(accepted)
      ensures worker.Exited? ==> accepted == submitted && |accepted| == encoded + submitDrops
    {
      ghost var before := Model();
      closing := true;
      Record(before, Close);
      while !worker.Exited? && !worker.Dead?
        invariant Valid() && closing && accepted == old(accepted)
        decreases Remaining()
      {
        DrainStep();
      }
      if worker.Exited? { ExitedDrained(history, |history| - 1); }
    }
  }
}
