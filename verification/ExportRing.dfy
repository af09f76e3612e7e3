/** The Vulkan capture layer: a ring of four exported images for each swapchain, the
    acknowledgements that free their slots, and the hook around `vkQueuePresentKHR`.

    Calls into Vulkan and the kernel are inputs of the model (did the submission
    succeed, was the datagram accepted, which descriptor was returned). Their effect on
    semaphores, open fence descriptors and image contents is part of the state. */
module ExportRing {
  import opened Options
  import opened RingScan

  const RING := 4

  /** `presentSignalled` and `captureSignalled` are the payloads of the two binary
      semaphores of the slot; `content` is the newest generation the GPU has finished
      copying into its image (0 before the first). */
  datatype CaptureSlot = CaptureSlot(
    busy: bool, sent: bool, generation: nat, fenceFd: int,
    presentSignalled: bool, captureSignalled: bool, content: nat)

  const Blank := CaptureSlot(false, false, 0, -1, false, false, 0)

  type Index = i: nat | i < RING
  type Ring = s: seq<CaptureSlot> | |s| == RING witness [Blank, Blank, Blank, Blank]

  /** A destroyed swapchain keeps its place, so that a position is a stream identity. */
  datatype Swapchain = Swapchain(live: bool, slots: Ring, cursor: Index)

  /** What an export message identifies, and what an acknowledgement repeats of it. */
  datatype Export = Export(stream: nat, slot: nat, generation: nat)
  datatype Ack = Ack(slot: nat, generation: nat)

  datatype Layer = Layer(
    swaps: seq<Swapchain>,
    fences: set<int>,      // open fence descriptors of this process
    sent: seq<Export>,     // every export accepted by the socket
    forwarded: nat,        // presents passed on to the driver
    appWaits: nat,         // times an application's wait semaphores were consumed
    resignals: nat)        // ring semaphores signalled while already signalled

  predicate InRing(l: Layer, s: nat, i: nat) {
    s < |l.swaps| && i < RING
  }

  function SlotAt(l: Layer, s: nat, i: nat): CaptureSlot
    requires InRing(l, s, i)
  {
    l.swaps[s].slots[i]
  }

  function PutSlot(l: Layer, s: nat, i: nat, slot: CaptureSlot): (r: Layer)
    requires InRing(l, s, i)
    ensures |r.swaps| == |l.swaps| && SlotAt(r, s, i) == slot
    ensures forall t, j {:trigger SlotAt(r, t, j)} ::
              InRing(l, t, j) && (t != s || j != i) ==> SlotAt(r, t, j) == SlotAt(l, t, j)
    ensures forall t :: 0 <= t < |l.swaps| ==> r.swaps[t].live == l.swaps[t].live && r.swaps[t].cursor == l.swaps[t].cursor
  {
    l.(swaps := l.swaps[s := l.swaps[s].(slots := l.swaps[s].slots[i := slot])])
  }

  // ---- acknowledgements ----

  predicate Matches(slot: CaptureSlot, i: nat, ack: Ack) {
    slot.busy && i == ack.slot && slot.generation == ack.generation
  }

  function DrainSlot(slot: CaptureSlot, i: nat, ack: Ack): CaptureSlot {
    if Matches(slot, i, ack) then slot.(busy := false, sent := false) else slot
  }

  function DrainSwap(swap: Swapchain, ack: Ack): Swapchain {
    swap.(slots := seq(RING, i requires 0 <= i < RING => DrainSlot(swap.slots[i], i, ack)))
  }

  /** An acknowledgement names no stream, so every matching slot is freed. */
  function Drain(l: Layer, ack: Ack): Layer {
    l.(swaps := seq(|l.swaps|, s requires 0 <= s < |l.swaps| => DrainSwap(l.swaps[s], ack)))
  }

  function DrainAll(l: Layer, acks: seq<Ack>): Layer
    decreases |acks|
  {
    if acks == [] then l else DrainAll(Drain(l, acks[0]), acks[1..])
  }

  /** A datagram on the layer's socket: only one of the right size with the right header
      is an acknowledgement, and one of the wrong size ends the loop. */
  datatype Datagram = Valid(ack: Ack) | WrongHeader | WrongSize

  function Readable(datagrams: seq<Datagram>): seq<Ack>
    decreases |datagrams|
  {
    if datagrams == [] || datagrams[0].WrongSize? then []
    else (if datagrams[0].Valid? then [datagrams[0].ack] else []) + Readable(datagrams[1..])
  }

  // ---- exports ----

  function Emit(l: Layer, s: nat, i: nat, delivered: bool): Layer
    requires InRing(l, s, i)
  {
    var slot := SlotAt(l, s, i);
    if slot.fenceFd < 0 || !delivered then l
    else PutSlot(l, s, i, slot.(fenceFd := -1, sent := true))
         .(fences := l.fences - {slot.fenceFd}, sent := l.sent + [Export(s, i, slot.generation)])
  }

  /** The retry pass over all rings, from slot `i` of ring `s` onwards. */
  function EmitFrom(l: Layer, s: nat, i: nat, deliverable: set<(nat, nat)>): Layer
    requires i <= RING
    decreases |l.swaps| - s, RING - i
  {
    if s >= |l.swaps| then l
    else if i == RING then EmitFrom(l, s + 1, 0, deliverable)
    else if SlotAt(l, s, i).busy && !SlotAt(l, s, i).sent then
      EmitFrom(Emit(l, s, i, (s, i) in deliverable), s, i + 1, deliverable)
    else EmitFrom(l, s, i + 1, deliverable)
  }

  // ---- capture ----

  /** The first slot that is not busy, scanning from the cursor. */
  function PickFrom(swap: Swapchain, n: nat): (r: Option<nat>)
    requires n <= RING
    ensures r.Some? ==> r.value < RING && !swap.slots[r.value].busy
    ensures r.None? ==> forall m {:trigger At(swap.cursor, m, RING)} ::
              n <= m < RING ==> swap.slots[At(swap.cursor, m, RING)].busy
    decreases RING - n
  {
    if n == RING then None
    else if !swap.slots[At(swap.cursor, n, RING)].busy then Some(At(swap.cursor, n, RING))
    else PickFrom(swap, n + 1)
  }

  /** The capture submission: it consumes the application's wait semaphores and signals
      both semaphores of the slot. */
  function Submit(l: Layer, s: nat, i: nat): Layer
    requires InRing(l, s, i)
  {
    var slot := SlotAt(l, s, i);
    PutSlot(l, s, i, slot.(presentSignalled := true, captureSignalled := true))
      .(appWaits := l.appWaits + 1,
        resignals := l.resignals + (if slot.presentSignalled then 1 else 0) + (if slot.captureSignalled then 1 else 0))
  }

  /** What follows a submission: the slot starts its next generation, the present is
      forwarded waiting on `present_ready` only (the wait happens if the driver
      `enqueued` the present), and exporting `capture_ready` consumes its payload. */
  function Publish(l: Layer, s: nat, i: nat, enqueued: bool, fence: Option<int>): Layer
    requires InRing(l, s, i)
  {
    var slot := SlotAt(l, s, i);
    var next := slot.(busy := true, sent := false, generation := slot.generation + 1,
                      presentSignalled := slot.presentSignalled && !enqueued,
                      captureSignalled := slot.captureSignalled && fence.None?,
                      fenceFd := if fence.Some? then fence.value else slot.fenceFd);
    var put := PutSlot(l, s, i, next);
    put.(swaps := put.swaps[s := put.swaps[s].(cursor := (i + 1) % RING)],
         forwarded := l.forwarded + 1,
         fences := l.fences + (if fence.Some? && fence.value >= 0 then {fence.value} else {}))
  }

  function Capture(l: Layer, s: nat, i: nat, enqueued: bool, fence: Option<int>): Layer
    requires InRing(l, s, i)
  {
    Publish(Submit(l, s, i), s, i, enqueued, fence)
  }

  /** A present that is passed on unchanged waits on the application's own semaphores. */
  function PassThrough(l: Layer): Layer {
    l.(forwarded := l.forwarded + 1, appWaits := l.appWaits + 1)
  }

  /** One intercepted present: `capturable` says that it names one known swapchain with
      an exported ring, a valid image and at most 32 waits, and that the socket is open. */
  datatype Request = Request(
    capturable: bool, stream: nat, submitted: bool, enqueued: bool, fence: Option<int>,
    delivered: bool, deliverable: set<(nat, nat)>)

  function CapturedSlot(l: Layer, q: Request): Option<nat> {
    if q.capturable && q.stream < |l.swaps| && l.swaps[q.stream].live && q.submitted
    then PickFrom(l.swaps[q.stream], 0) else None
  }

  function Forwarded(l: Layer, q: Request): Layer {
    var pick := CapturedSlot(l, q);
    if pick.None? then PassThrough(l)
    else
      var c := Capture(l, q.stream, pick.value, q.enqueued, q.fence);
      if q.fence.Some? then Emit(c, q.stream, pick.value, q.delivered) else c
  }

  function Presented(l: Layer, datagrams: seq<Datagram>, q: Request): Layer {
    Forwarded(EmitFrom(DrainAll(l, Readable(datagrams)), 0, 0, q.deliverable), q)
  }

  // ---- creation and destruction ----

  function Created(l: Layer): Layer {
    l.(swaps := l.swaps + [Swapchain(true, [Blank, Blank, Blank, Blank], 0)])
  }

  function FencesOf(swap: Swapchain): set<int> {
    set i | 0 <= i < RING && swap.slots[i].fenceFd >= 0 :: swap.slots[i].fenceFd
  }

  function Destroyed(l: Layer, s: nat): Layer
    requires s < |l.swaps|
  {
    l.(swaps := l.swaps[s := Swapchain(false, [Blank, Blank, Blank, Blank], 0)],
       fences := l.fences - FencesOf(l.swaps[s]))
  }

  // ---- the layer as it is written ----

  class CaptureLayer {
    var swaps: seq<Swapchain>
    ghost var fences: set<int>
    ghost var sent: seq<Export>
    ghost var forwarded: nat
    ghost var appWaits: nat
    ghost var resignals: nat

    ghost function Model(): Layer
      reads this
    {
      Layer(swaps, fences, sent, forwarded, appWaits, resignals)
    }

    constructor ()
      ensures Model() == Layer([], {}, [], 0, 0, 0)
    {
      swaps, fences, sent := [], {}, [];
      forwarded, appWaits, resignals := 0, 0, 0;
    }

    method StoreSlot(s: nat, i: nat, slot: CaptureSlot)
      requires s < |swaps| && i < RING
      modifies this`swaps
      ensures Model() == PutSlot(old(Model()), s, i, slot)
    {
      swaps := swaps[s := swaps[s].(slots := swaps[s].slots[i := slot])];
    }

    method DrainOne(ack: Ack)
      modifies this`swaps
      ensures Model() == Drain(old(Model()), ack)
    {
      for s := 0 to |swaps|
        invariant |swaps| == old(|swaps|)
        invariant forall t :: 0 <= t < s ==> swaps[t] == DrainSwap(old(swaps)[t], ack)
        invariant forall t :: s <= t < |swaps| ==> swaps[t] == old(swaps)[t]
      {
        for i := 0 to RING
          invariant |swaps| == old(|swaps|)
          invariant forall t :: 0 <= t < |swaps| && t != s ==>
                      swaps[t] == if t < s then DrainSwap(old(swaps)[t], ack) else old(swaps)[t]
          invariant swaps[s].live == old(swaps)[s].live && swaps[s].cursor == old(swaps)[s].cursor
          invariant forall j :: 0 <= j < RING ==>
                      swaps[s].slots[j] == if j < i then DrainSlot(old(swaps)[s].slots[j], j, ack) else old(swaps)[s].slots[j]
        {
          var slot := swaps[s].slots[i];
          if slot.busy && i == ack.slot && slot.generation == ack.generation {
            StoreSlot(s, i, slot.(busy := false, sent := false));
          }
        }
        assert swaps[s].slots == DrainSwap(old(swaps)[s], ack).slots;
      }
      assert swaps == Drain(old(Model()), ack).swaps;
    }

    /** `drain_acks`: read until the socket is empty or a datagram has the wrong size. */
    method DrainAcks(datagrams: seq<Datagram>)
      modifies this`swaps
      ensures Model() == DrainAll(old(Model()), Readable(datagrams))
    {
      var n := 0;
      while n < |datagrams| && !datagrams[n].WrongSize?
        invariant n <= |datagrams|
        invariant DrainAll(Model(), Readable(datagrams[n..])) == DrainAll(old(Model()), Readable(datagrams))
      {
        assert datagrams[n..][1..] == datagrams[n + 1..];
        ghost var rest := Readable(datagrams[n + 1..]);
        if datagrams[n].Valid? {
          assert Readable(datagrams[n..]) == [datagrams[n].ack] + rest;
          assert ([datagrams[n].ack] + rest)[1..] == rest;
          DrainOne(datagrams[n].ack);
        } else {
          assert Readable(datagrams[n..]) == rest;
        }
        n := n + 1;
      }
      assert Readable(datagrams[n..]) == [];
    }

    /** `emit_slot`: `delivered` says that both `dup` and `sendmsg` succeeded. */
    method EmitSlot(s: nat, i: nat, delivered: bool)
      requires s < |swaps| && i < RING
      modifies this`swaps, this`fences, this`sent
      ensures Model() == Emit(old(Model()), s, i, delivered)
    {
      var slot := swaps[s].slots[i];
      if slot.fenceFd < 0 { return; }
      if delivered {
        fences := fences - {slot.fenceFd};
        sent := sent + [Export(s, i, slot.generation)];
        StoreSlot(s, i, slot.(fenceFd := -1, sent := true));
      }
    }

    method RetryExports(deliverable: set<(nat, nat)>)
      modifies this`swaps, this`fences, this`sent
      ensures Model() == EmitFrom(old(Model()), 0, 0, deliverable)
    {
      ghost var goal := EmitFrom(Model(), 0, 0, deliverable);
      for s := 0 to |swaps|
        invariant |swaps| == old(|swaps|)
        invariant EmitFrom(Model(), s, 0, deliverable) == goal
        invariant forwarded == old(forwarded) && appWaits == old(appWaits) && resignals == old(resignals)
      {
        for i := 0 to RING
          invariant |swaps| == old(|swaps|)
          invariant EmitFrom(Model(), s, i, deliverable) == goal
          invariant forwarded == old(forwarded) && appWaits == old(appWaits) && resignals == old(resignals)
        {
          if swaps[s].slots[i].busy && !swaps[s].slots[i].sent {
            EmitSlot(s, i, (s, i) in deliverable);
          }
        }
      }
    }

    /** `submit_capture`, as far as it touches synchronisation state. */
    method SubmitCapture(s: nat, i: nat, accepted: bool)
      requires s < |swaps| && i < RING
      modifies this`swaps, this`appWaits, this`resignals
      ensures Model() == if accepted then Submit(old(Model()), s, i) else old(Model())
    {
      if accepted {
        var slot := swaps[s].slots[i];
        appWaits := appWaits + 1;
        if slot.presentSignalled { resignals := resignals + 1; }
        if slot.captureSignalled { resignals := resignals + 1; }
        StoreSlot(s, i, slot.(presentSignalled := true, captureSignalled := true));
      }
    }

    /** The scan for a free slot in `vkQueuePresentKHR`. */
    method PickSlot(s: nat) returns (pick: Option<nat>)
      requires s < |swaps|
      ensures pick == PickFrom(swaps[s], 0)
    {
      var n := 0;
      while n < RING && swaps[s].slots[At(swaps[s].cursor, n, RING)].busy
        invariant n <= RING
        invariant PickFrom(swaps[s], n) == PickFrom(swaps[s], 0)
      {
        n := n + 1;
      }
      pick := if n == RING then None else Some(At(swaps[s].cursor, n, RING));
    }

    /** The rest of `vkQueuePresentKHR` once the capture was submitted, up to the export
        of its fence. */
    method PublishCapture(s: nat, i: nat, enqueued: bool, fence: Option<int>)
      requires s < |swaps| && i < RING
      modifies this`swaps, this`fences, this`forwarded
      ensures Model() == Publish(old(Model()), s, i, enqueued, fence)
    {
      var slot := swaps[s].slots[i];
      swaps := swaps[s := swaps[s].(cursor := (i + 1) % RING)];
      slot := slot.(busy := true, sent := false, generation := slot.generation + 1);
      forwarded := forwarded + 1;
      if enqueued { slot := slot.(presentSignalled := false); }
      if fence.Some? {
        slot := slot.(captureSignalled := false, fenceFd := fence.value);
        if fence.value >= 0 { fences := fences + {fence.value}; }
      }
      StoreSlot(s, i, slot);
    }

    /** `vkQueuePresentKHR`. A present on an unknown queue is refused and nothing changes. */
    method QueuePresent(queueKnown: bool, datagrams: seq<Datagram>, q: Request) returns (lost: bool)
      modifies this
      ensures lost == !queueKnown
      ensures Model() == if queueKnown then Presented(old(Model()), datagrams, q) else old(Model())
    {
      if !queueKnown { return true; }
      lost := false;
      DrainAcks(datagrams);
      RetryExports(q.deliverable);
      var pick := None;
      if q.capturable && q.stream < |swaps| && swaps[q.stream].live {
        pick := PickSlot(q.stream);
      }
      if pick.None? || !q.submitted {
        forwarded, appWaits := forwarded + 1, appWaits + 1;
        return;
      }
      SubmitCapture(q.stream, pick.value, q.submitted);
      PublishCapture(q.stream, pick.value, q.enqueued, q.fence);
      if q.fence.Some? { EmitSlot(q.stream, pick.value, q.delivered); }
    }

    /** `release_swap`: every open fence of the ring is closed and the ring is cleared. */
    method DestroySwapchain(s: nat)
      requires s < |swaps|
      modifies this`swaps, this`fences
      ensures Model() == Destroyed(old(Model()), s)
    {
      for i := 0 to RING
        invariant swaps == old(swaps)
        invariant fences == old(fences) - (set j | 0 <= j < i && swaps[s].slots[j].fenceFd >= 0 :: swaps[s].slots[j].fenceFd)
      {
        var fd := swaps[s].slots[i].fenceFd;
        if fd >= 0 { fences := fences - {fd}; }
      }
      swaps := swaps[s := Swapchain(false, [Blank, Blank, Blank, Blank], 0)];
    }

    method CreateSwapchain()
      modifies this`swaps
      ensures Model() == Created(old(Model()))
    {
      swaps := swaps + [Swapchain(true, [Blank, Blank, Blank, Blank], 0)];
    }
  }

  // ---- what each present does, whatever the driver and the socket answer ----

  lemma {:induction false} DrainAllCounts(l: Layer, acks: seq<Ack>)
    ensures DrainAll(l, acks).(swaps := l.swaps) == l && |DrainAll(l, acks).swaps| == |l.swaps|
    decreases |acks|
  {
    if acks != [] { DrainAllCounts(Drain(l, acks[0]), acks[1..]); }
  }

  lemma {:induction false} EmitFromCounts(l: Layer, s: nat, i: nat, deliverable: set<(nat, nat)>)
    requires i <= RING
    ensures var r := EmitFrom(l, s, i, deliverable);
            r.forwarded == l.forwarded && r.appWaits == l.appWaits && r.resignals == l.resignals && |r.swaps| == |l.swaps|
    decreases |l.swaps| - s, RING - i
  {
    if s >= |l.swaps| {
    } else if i == RING {
      EmitFromCounts(l, s + 1, 0, deliverable);
    } else if SlotAt(l, s, i).busy && !SlotAt(l, s, i).sent {
      EmitFromCounts(Emit(l, s, i, (s, i) in deliverable), s, i + 1, deliverable);
    } else {
      EmitFromCounts(l, s, i + 1, deliverable);
    }
  }

  /** The application sees one present and one wait for each of its presents, whether or
      not the frame was captured. */
  lemma PresentForwardsOnce(l: Layer, datagrams: seq<Datagram>, q: Request)
    ensures var r := Presented(l, datagrams, q);
            r.forwarded == l.forwarded + 1 && r.appWaits == l.appWaits + 1
  {
    var drained := DrainAll(l, Readable(datagrams));
    DrainAllCounts(l, Readable(datagrams));
    EmitFromCounts(drained, 0, 0, q.deliverable);
  }

  /** A present is passed through uncaptured only if the request cannot be captured, the
      submission failed, or all four slots are busy. */
  lemma UncapturedOnlyWhenFull(l: Layer, q: Request)
    requires q.capturable && q.stream < |l.swaps| && l.swaps[q.stream].live && q.submitted
    ensures CapturedSlot(l, q).None? <==> forall i :: 0 <= i < RING ==> l.swaps[q.stream].slots[i].busy
  {
    var swap := l.swaps[q.stream];
    forall i | 0 <= i < RING && PickFrom(swap, 0).None?
      ensures swap.slots[i].busy
    {
      assert At(swap.cursor, StepOf(swap.cursor, i, RING), RING) == i;
    }
  }

  /** The slot picked is the first free one from the cursor on. */
  lemma {:induction false} PickIsFirst(swap: Swapchain, n: nat, m: nat)
    requires n <= m < RING && PickFrom(swap, n).Some? && m < StepOf(swap.cursor, PickFrom(swap, n).value, RING)
    ensures swap.slots[At(swap.cursor, m, RING)].busy
    decreases RING - n
  {
    if swap.slots[At(swap.cursor, n, RING)].busy && n < m { PickIsFirst(swap, n + 1, m); }
  }

  /** A slot that was just filled is behind all others in the next scan. */
  lemma FilledSlotIsLast(l: Layer, s: nat, i: nat, enqueued: bool, fence: Option<int>, j: nat)
    requires InRing(l, s, i) && j < RING && j != i
    ensures var cursor := Capture(l, s, i, enqueued, fence).swaps[s].cursor;
            StepOf(cursor, i, RING) == RING - 1 && StepOf(cursor, j, RING) < RING - 1
  {
  }
}
