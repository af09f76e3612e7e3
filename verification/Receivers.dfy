/** The receiving process: it owns the descriptors of every export it receives, caches one
    import per (stream, slot), issues a GPU read, and acknowledges the export later. Each
    received export has a receipt number; `phase` says how far it has come, in the terms
    of the protocol. Calls into EGL and GL are answered by `Answers`. */
module Receivers {
  import opened CaptureProtocol
  import opened Collections
  import opened Options
  import opened ReceiverProtocol
  import ExportRing

  const CACHE := 64

  /** A validated export. Opaque exports are always copy-complete; only a copy-complete
      export that is not opaque arrives without a second descriptor. */
  datatype Frame = Frame(
    stream: nat, slot: nat, generation: nat, width: nat, height: nat,
    opaqueMemory: bool, copyComplete: bool, dmabuf: int, fence: int)

  predicate WellFormed(f: Frame) {
    && f.dmabuf >= 0
    && (f.opaqueMemory ==> f.copyComplete)
    && (if f.copyComplete && !f.opaqueMemory then f.fence == -1 else f.fence >= 0 && f.fence != f.dmabuf)
  }

  function NameOf(f: Frame): ExportRing.Export { ExportRing.Export(f.stream, f.slot, f.generation) }

  function Descriptors(f: Frame): set<int> {
    {f.dmabuf} + (if f.fence >= 0 then {f.fence} else {})
  }

  /** A datagram as `recvmsg` delivers it. `headerOk` stands for the checks on size, flags,
      credentials, magic, version, dimensions, layout fields and time stamp. */
  datatype Datagram = Datagram(
    headerOk: bool, stream: nat, slot: nat, generation: nat, width: nat, height: nat,
    opaqueMemory: bool, copyComplete: bool, descriptors: seq<int>)

  datatype Imported = Unused | Cached(stream: nat, slot: nat, width: nat, height: nat)
  datatype PendingAck = NoAck | Pending(receipt: nat)

  /** What EGL and GL answer while one export is handled. */
  datatype Answers = Answers(
    initOk: bool, imageOk: bool, sharedOk: bool, framebufferOk: bool,
    syncMade: bool, waitOk: bool, encoderStarts: bool, fenceMade: bool)

  /** The export that a datagram announces. */
  function Announced(d: Datagram): ExportRing.Export { ExportRing.Export(d.stream, d.slot, d.generation) }

  /** The exports announced by the valid datagrams among the arrivals, in order. */
  function Accepted(arrivals: seq<Arrival>): seq<ExportRing.Export> {
    if arrivals == [] then []
    else
      var last := arrivals[|arrivals| - 1].datagram;
      Accepted(arrivals[..|arrivals| - 1]) + if Accepts(last) then [Announced(last)] else []
  }

  /** The number of descriptors that the flags of an export promise. */
  predicate Accepts(d: Datagram) {
    && d.headerOk
    && (d.opaqueMemory ==> d.copyComplete)
    && (if |d.descriptors| > 2 then 2 else |d.descriptors|) == (if d.copyComplete && !d.opaqueMemory then 1 else 2)
  }

  predicate Installed(d: Datagram) {
    && (forall k :: 0 <= k < |d.descriptors| ==> d.descriptors[k] >= 0)
    && (forall j, k :: 0 <= j < k < |d.descriptors| ==> d.descriptors[j] != d.descriptors[k])
  }

  function Elements(s: seq<int>): set<int> { set fd | fd in s }

  datatype Arrival = Arrival(healthy: bool, completed: set<nat>, waitFails: set<nat>, datagram: Datagram, answers: Answers)

  /** An export occupies one place: a pending acknowledgement, or the sent ones. */
  predicate Unacked(phase: map<nat, Phase>, r: nat) {
    r in phase && (phase[r] == Queued || phase[r] == Done)
  }

  /** One pass over the pending acknowledgements: exports whose fence is signalled, or all
      of them, are acknowledged; a failed wait leaves its export pending. */
  function Retired(phase: map<nat, Phase>, waitAll: bool, waitFails: set<nat>): map<nat, Phase> {
    map r | r in phase ::
      if Unacked(phase, r) && (waitAll || (phase[r] == Done && r !in waitFails)) then Acking else phase[r]
  }

  class Receiver {
    const imported: array<Imported>
    const pending: array<PendingAck>
    var initialised: bool
    var encoderStarted: bool
    var stopping: bool
    ghost var open: set<int>            // descriptors this process must still dispose of
    var received: nat
    var phase: map<nat, Phase>          // includes whether the GPU read of each export is over
    ghost var acks: seq<nat>            // receipts acknowledged, in order
    ghost var issued: set<nat>          // receipts for which a GPU read was issued
    ghost var copied: seq<nat>          // receipts whose frames were handed to the encoder
    ghost var names: map<nat, ExportRing.Export>   // what each receipt is the receipt of
    ghost var history: seq<map<nat, Phase>>   // the phases so far, move by move

    predicate Shape()
    {
      imported.Length == CACHE && pending.Length == CACHE
    }

    /** The cache has at most one entry for a (stream, slot). */
    ghost predicate CacheUnique()
      requires Shape()
      reads imported
    {
      forall j, k :: 0 <= j < k < CACHE && imported[j].Cached? && imported[k].Cached? ==>
        imported[j].stream != imported[k].stream || imported[j].slot != imported[k].slot
    }

    /** Every export whose read was issued waits in `pending` for its acknowledgement,
        except the one that the loop has in hand. */
    ghost predicate PendingOk(hand: Option<nat>)
      requires Shape()
      reads this`phase, pending
    {
      && (forall j :: 0 <= j < CACHE && pending[j].Pending? ==>
            Unacked(phase, pending[j].receipt) && Some(pending[j].receipt) != hand)
      && (forall j, k :: 0 <= j < k < CACHE && pending[j].Pending? && pending[k].Pending? ==>
            pending[j].receipt != pending[k].receipt)
      && (forall r: nat :: Unacked(phase, r) && Some(r) != hand ==> exists j :: 0 <= j < CACHE && pending[j] == Pending(r))
    }

    /** An export is in one of the reading phases only if its read was issued. */
    ghost predicate IssuedOk()
      reads this`phase, this`issued
    {
      && (forall r :: r in issued ==> r in phase && phase[r] != InFlight)
      && (forall r :: Unacked(phase, r) ==> r in issued)
    }

    ghost predicate AcksOk()
      reads this`phase, this`acks, this`received
    {
      && (forall r: nat :: r in phase <==> r < received)
      && (forall r :: r in phase ==> phase[r] == InFlight || phase[r] == Queued || phase[r] == Done || phase[r] == Acking)
      && (forall j, k :: 0 <= j < k < |acks| ==> acks[j] != acks[k])
      && (forall r :: r in acks <==> r in phase && phase[r] == Acking)
    }

    /** The phases have changed by the moves of a receiver only. */
    ghost predicate Traced()
      reads this`phase, this`history
    {
      Chain(history) && history[|history| - 1] == phase
    }

    ghost predicate ValidBut(hand: Option<nat>)
      reads this`phase, this`acks, this`received, this`issued, this`history, imported, pending
    {
      Shape() && CacheUnique() && PendingOk(hand) && IssuedOk() && AcksOk() && Traced()
    }

    ghost predicate Valid()
      reads this`phase, this`acks, this`received, this`issued, this`history, imported, pending
    {
      ValidBut(None)
    }

    /** Between two exports nothing is half handled. */
    ghost predicate Idle()
      reads this`phase
    {
      forall r :: r in phase ==> phase[r] != InFlight
    }

    constructor ()
      ensures Valid() && Idle() && !initialised && received == 0 && phase == map[] && acks == [] && open == {}
      ensures history == [map[]] && names == map[] && copied == []
      ensures fresh(imported) && fresh(pending)
    {
      imported := new Imported[CACHE](_ => Unused);
      pending := new PendingAck[CACHE](_ => NoAck);
      initialised, encoderStarted, stopping := false, false, false;
      open, received, phase, acks, issued, copied, names, history := {}, 0, map[], [], {}, [], map[], [map[]];
    }

    // ---- the system calls that dispose of descriptors and acknowledge ----

    /** `close`: closing -1 does nothing; anything else must be open. */
    method Close(fd: int)
      requires fd == -1 || fd in open
      modifies this`open
      ensures open == old(open) - {fd}
    {
      open := open - {fd};
    }

    /** `acknowledge`: each receipt once, and after its read if one was issued. */
    method Acknowledge(r: nat)
      requires Traced() && r in phase && (phase[r] == Done || (phase[r] == InFlight && r !in issued))
      modifies this`phase, this`history, this`acks
      ensures Traced() && old(history) <= history
      ensures phase == old(phase)[r := Acking] && acks == old(acks) + [r]
    {
      Follow(if phase[r] == Done then Answer(r) else Refuse(r));
      phase := phase[r := Acking];
      acks := acks + [r];
    }

    /** Records a move; the phases follow. */
    ghost method Follow(m: Move)
      requires Traced() && CanMove(phase, m)
      modifies this`history
      ensures Chain(history) && old(history) <= history && history[|history| - 1] == Moved(phase, m)
    {
      ChainNext(history, m);
      history := history + [Moved(phase, m)];
    }

    /** A completed GPU read signals the fence behind it. */
    method ReadsComplete(rs: set<nat>, ghost hand: Option<nat>)
      requires ValidBut(hand)
      modifies this`phase, this`history
      ensures ValidBut(hand) && old(history) <= history
      ensures phase == Completed(old(phase), rs)
    {
      ghost var before := phase;
      ghost var next := ChainCompletes(history, rs);
      history := next;
      phase := map r | r in phase :: if r in rs && phase[r] == Queued then Done else phase[r];
      assert forall r :: Unacked(phase, r) <==> Unacked(before, r);
    }

    /** `glFinish`: every read completes. */
    method Finish(ghost hand: Option<nat>)
      requires ValidBut(hand)
      modifies this`phase, this`history
      ensures ValidBut(hand) && old(history) <= history
      ensures phase == Completed(old(phase), old(phase).Keys)
    {
      ReadsComplete(phase.Keys, hand);
    }

    // ---- retire_ack_fences ----

    predicate Ripe(r: nat, waitAll: bool, waitFails: set<nat>)
      requires r in phase
      reads this`phase
    {
      waitAll || (phase[r] == Done && r !in waitFails)
    }

    /** The pass has looked at the first `j` entries. */
    ghost predicate Passed(j: nat, before: map<nat, Phase>, waitAll: bool, waitFails: set<nat>)
      requires Shape() && j <= CACHE
      reads this`phase, pending
    {
      && phase.Keys == before.Keys
      && (forall k :: 0 <= k < j && pending[k].Pending? ==>
            pending[k].receipt in phase && !Ripe(pending[k].receipt, waitAll, waitFails))
      && (forall r :: r in phase ==>
            || phase[r] == before[r]
            || (phase[r] == Acking && before[r] == Done && (waitAll || r !in waitFails)))
    }

    method RetireAckFences(waitAll: bool, waitFails: set<nat>)
      requires Valid()
      modifies this`phase, this`history, this`acks, pending
      ensures Valid() && phase == Retired(old(phase), waitAll, waitFails)
      ensures old(acks) <= acks && old(history) <= history
      ensures forall r :: r in old(phase) ==>
                (phase[r] == Acking <==>
                   || old(phase)[r] == Acking
                   || (old(phase)[r] == Done && (waitAll || r !in waitFails))
                   || (old(phase)[r] == Queued && waitAll))
    {
      if waitAll { Finish(None); }
      RetireEntries(waitAll, waitFails);
    }

    method RetireEntries(waitAll: bool, waitFails: set<nat>)
      requires Valid() && (waitAll ==> forall r :: r in phase ==> phase[r] != Queued)
      modifies this`phase, this`history, this`acks, pending
      ensures Valid() && phase == Retired(old(phase), waitAll, waitFails)
      ensures old(acks) <= acks && old(history) <= history
    {
      ghost var before := phase;
      for j := 0 to CACHE
        invariant Valid() && old(acks) <= acks && old(history) <= history && Passed(j, before, waitAll, waitFails)
        invariant waitAll ==> forall r :: r in phase ==> phase[r] != Queued
      {
        RetireEntry(j, before, waitAll, waitFails);
      }
      AllPassed(before, waitAll, waitFails);
    }

    lemma AllPassed(before: map<nat, Phase>, waitAll: bool, waitFails: set<nat>)
      requires Valid() && Passed(CACHE, before, waitAll, waitFails)
      ensures phase == Retired(before, waitAll, waitFails)
    {
      forall r | r in phase
        ensures phase[r] == Retired(before, waitAll, waitFails)[r]
      {
        if Unacked(phase, r) {
          var j :| 0 <= j < CACHE && pending[j] == Pending(r);
          assert !Ripe(pending[j].receipt, waitAll, waitFails);
        }
      }
    }

    method RetireEntry(j: nat, ghost before: map<nat, Phase>, waitAll: bool, waitFails: set<nat>)
      requires Valid() && j < CACHE && Passed(j, before, waitAll, waitFails)
      requires waitAll ==> forall r :: r in phase ==> phase[r] != Queued
      modifies this`phase, this`history, this`acks, pending
      ensures Valid() && Passed(j + 1, before, waitAll, waitFails) && old(acks) <= acks && old(history) <= history
      ensures waitAll ==> forall r :: r in phase ==> phase[r] != Queued
    {
      if pending[j].Pending? {
        var r := pending[j].receipt;
        assert Unacked(phase, r);
        if waitAll || (phase[r] == Done && r !in waitFails) {
          RetireOne(j, r);
        }
      }
    }

    method RetireOne(j: nat, r: nat)
      requires Valid() && j < CACHE && pending[j] == Pending(r) && phase[r] == Done
      modifies this`phase, this`history, this`acks, pending
      ensures Valid() && phase == old(phase)[r := Acking] && acks == old(acks) + [r]
      ensures pending[j] == NoAck && old(history) <= history
      ensures forall k :: 0 <= k < CACHE && k != j ==> pending[k] == old(pending[k])
    {
      ghost var before := phase;
      Acknowledge(r);
      pending[j] := NoAck;
      forall q | Unacked(phase, q)
        ensures exists k :: 0 <= k < CACHE && pending[k] == Pending(q)
      {
        assert Unacked(before, q);
        var k :| 0 <= k < CACHE && old(pending[k]) == Pending(q);
        assert pending[k] == Pending(q);
      }
    }

    // ---- receive_frame ----

    /** The control message's descriptors are open; those beyond the second are closed. */
    method Install(d: Datagram) returns (kept: nat)
      requires Installed(d) && open == {}
      modifies this`open
      ensures kept == (if |d.descriptors| > 2 then 2 else |d.descriptors|)
      ensures kept == 0 ==> open == {}
      ensures kept == 1 ==> open == {d.descriptors[0]}
      ensures kept == 2 ==> open == {d.descriptors[0], d.descriptors[1]}
    {
      open := Elements(d.descriptors);
      kept := |d.descriptors|;
      if |d.descriptors| > 2 {
        kept := 2;
        for k := 2 to |d.descriptors|
          invariant open == Elements(d.descriptors[..2] + d.descriptors[k..])
        {
          assert d.descriptors[k..] == [d.descriptors[k]] + d.descriptors[k + 1..];
          Close(d.descriptors[k]);
        }
        assert d.descriptors[..2] + d.descriptors[|d.descriptors|..] == [d.descriptors[0], d.descriptors[1]];
      }
    }

    /** Descriptors beyond the second are closed; an export that is refused keeps none. */
    method ReceiveFrame(d: Datagram) returns (frame: Option<Frame>)
      requires Installed(d) && open == {}
      modifies this`open
      ensures frame.Some? <==> Accepts(d)
      ensures frame.None? ==> open == {}
      ensures frame.Some? ==>
                var f := frame.value;
                && WellFormed(f) && open == Descriptors(f)
                && f == Frame(d.stream, d.slot, d.generation, d.width, d.height, d.opaqueMemory, d.copyComplete,
                              d.descriptors[0], if |d.descriptors| > 1 then d.descriptors[1] else -1)
    {
      var kept := Install(d);
      var valid := d.headerOk && kept == (if d.opaqueMemory then 2 else if d.copyComplete then 1 else 2)
                   && (!d.opaqueMemory || d.copyComplete);
      if !valid {
        if kept > 0 { Close(d.descriptors[0]); }
        if kept > 1 { Close(d.descriptors[1]); }
        return None;
      }
      frame := Some(Frame(d.stream, d.slot, d.generation, d.width, d.height, d.opaqueMemory, d.copyComplete,
                          d.descriptors[0], if kept > 1 then d.descriptors[1] else -1));
    }

    // ---- the import cache ----

    predicate Caches(j: nat, stream: nat, slot: nat)
      requires Shape() && j < CACHE
      reads imported
    {
      imported[j].Cached? && imported[j].stream == stream && imported[j].slot == slot
    }

    method FindCached(stream: nat, slot: nat) returns (j: nat)
      requires Shape()
      ensures j <= CACHE && (j < CACHE ==> Caches(j, stream, slot))
      ensures j == CACHE ==> forall k :: 0 <= k < CACHE ==> !Caches(k, stream, slot)
    {
      j := 0;
      while j < CACHE && !Caches(j, stream, slot)
        invariant j <= CACHE && forall k :: 0 <= k < j ==> !Caches(k, stream, slot)
      {
        j := j + 1;
      }
    }

    method FindUnused() returns (j: nat)
      requires Shape()
      ensures j <= CACHE && (j < CACHE ==> imported[j].Unused?)
      ensures j == CACHE ==> forall k :: 0 <= k < CACHE ==> imported[k].Cached?
    {
      j := 0;
      while j < CACHE && imported[j].Cached?
        invariant j <= CACHE && forall k :: 0 <= k < j ==> imported[k].Cached?
      {
        j := j + 1;
      }
    }

    ghost predicate InCache(stream: nat, slot: nat)
      requires Shape()
      reads imported
    {
      exists j :: 0 <= j < CACHE && Caches(j, stream, slot)
    }

    ghost predicate HasUnused()
      requires Shape()
      reads imported
    {
      exists j :: 0 <= j < CACHE && imported[j].Unused?
    }

    /** An export that is not cached can be imported now. */
    ghost predicate CanImport(f: Frame, a: Answers)
      requires Shape()
      reads this`initialised, imported
    {
      && HasUnused()
      && (if initialised then f.opaqueMemory || a.imageOk else a.initOk)
      && (f.opaqueMemory ==> a.sharedOk) && a.framebufferOk
    }

    /** Looks the export up, or imports it; `j == CACHE` when neither is possible. */
    method Import(f: Frame, a: Answers) returns (j: nat, fresh': bool)
      requires Valid()
      modifies this`initialised, imported
      ensures Valid() && j <= CACHE
      ensures j < CACHE <==> old(InCache(f.stream, f.slot)) || old(CanImport(f, a))
      ensures j < CACHE ==> Caches(j, f.stream, f.slot)
      ensures fresh' <==> j < CACHE && !old(InCache(f.stream, f.slot))
      ensures forall k :: 0 <= k < CACHE && !(fresh' && k == j) ==> imported[k] == old(imported[k])
      ensures initialised == (old(initialised) ||
                              (!old(InCache(f.stream, f.slot)) && old(HasUnused()) && a.initOk))
      ensures fresh' ==> old(imported[j]).Unused? && imported[j] == Cached(f.stream, f.slot, f.width, f.height)
    {
      fresh' := false;
      j := FindCached(f.stream, f.slot);
      if j < CACHE { return; }
      forall k | 0 <= k < CACHE && imported[k].Cached?
        ensures imported[k].stream != f.stream || imported[k].slot != f.slot
      {
        assert !Caches(k, f.stream, f.slot);
      }
      j := FindUnused();
      if j == CACHE { return; }
      var image := false;
      if !initialised {
        if !a.initOk { return CACHE, false; }
        initialised, image := true, true;
      } else if !f.opaqueMemory {
        image := a.imageOk;
      }
      if !f.opaqueMemory && !image { return CACHE, false; }
      imported[j] := Cached(f.stream, f.slot, f.width, f.height);
      if (f.opaqueMemory && !a.sharedOk) || !a.framebufferOk {
        imported[j] := Unused;
        return CACHE, false;
      }
      fresh' := true;
    }

    // ---- one export ----

    method Forget(j: nat)
      requires Valid() && j < CACHE
      modifies imported
      ensures Valid() && imported[j] == Unused
      ensures forall k :: 0 <= k < CACHE && k != j ==> imported[k] == old(imported[k])
    {
      imported[j] := Unused;
    }

    /** Acknowledges an export that has no read outstanding. */
    method AckNow(r: nat)
      requires Valid() && r in phase && phase[r] == InFlight
      modifies this`phase, this`history, this`acks
      ensures Valid() && phase == old(phase)[r := Acking] && acks == old(acks) + [r] && old(history) <= history
    {
      ghost var before := phase;
      Acknowledge(r);
      assert forall q :: Unacked(phase, q) <==> Unacked(before, q);
    }

    ghost predicate HasRoom()
      requires Shape()
      reads pending
    {
      exists j :: 0 <= j < CACHE && pending[j].NoAck?
    }

    /** The read of receipt `r` has been issued: keep its acknowledgement behind a fence,
        or finish the GPU work and acknowledge at once. */
    method DeferAck(r: nat, fenceMade: bool)
      requires ValidBut(Some(r)) && r in phase && phase[r] == Queued
      modifies this`phase, this`history, this`acks, pending
      ensures Valid() && phase.Keys == old(phase).Keys
      ensures phase[r] == if fenceMade && old(HasRoom()) then Queued else Acking
      ensures phase[r] == Queued ==> phase == old(phase)
      ensures acks == (if phase[r] == Acking then old(acks) + [r] else old(acks)) && old(history) <= history
      ensures forall q :: q in phase && q != r ==>
                phase[q] == old(phase)[q] || (old(phase)[q] == Queued && phase[q] == Done)
    {
      var j := 0;
      while j < CACHE && pending[j].Pending?
        invariant j <= CACHE && forall k :: 0 <= k < j ==> pending[k].Pending?
      {
        j := j + 1;
      }
      if j < CACHE && fenceMade {
        Enter(j, r);
      } else {
        Finish(Some(r));
        AckInHand(r);
      }
    }

    method AckInHand(r: nat)
      requires ValidBut(Some(r)) && r in phase && phase[r] == Done
      modifies this`phase, this`history, this`acks
      ensures Valid() && phase == old(phase)[r := Acking] && acks == old(acks) + [r] && old(history) <= history
    {
      ghost var before := phase;
      Acknowledge(r);
      assert forall q :: Unacked(phase, q) <==> Unacked(before, q) && q != r;
    }

    method Enter(j: nat, r: nat)
      requires ValidBut(Some(r)) && r in phase && phase[r] == Queued && j < CACHE && pending[j].NoAck?
      modifies pending
      ensures Valid()
    {
      pending[j] := Pending(r);
      forall q | Unacked(phase, q)
        ensures exists k :: 0 <= k < CACHE && pending[k] == Pending(q)
      {
        if q == r {
          assert pending[j] == Pending(q);
        } else {
          var k :| 0 <= k < CACHE && old(pending[k]) == Pending(q);
          assert pending[k] == Pending(q);
        }
      }
    }

    /** The GPU is told to read the image. */
    method IssueRead(r: nat)
      requires Valid() && r in phase && phase[r] == InFlight
      modifies this`issued, this`phase, this`history
      ensures ValidBut(Some(r)) && phase == old(phase)[r := Queued] && issued == old(issued) + {r}
      ensures old(history) <= history
    {
      ghost var before := phase;
      Follow(ReceiverProtocol.Issue(r));
      issued := issued + {r};
      phase := phase[r := Queued];
      assert forall q :: Unacked(phase, q) <==> Unacked(before, q) || q == r;
    }

    /** Whether handling `f` issues a GPU read; otherwise the export is refused. */
    ghost predicate WillRead(f: Frame, a: Answers)
      requires Shape()
      reads this`initialised, imported
    {
      && (InCache(f.stream, f.slot) || CanImport(f, a))
      && (f.copyComplete || (a.syncMade && a.waitOk))
    }

    /** The part of an iteration that imports the frame and takes its descriptors. True if
        the GPU read of the frame may be issued; a refused frame leaves the cache as it was. */
    method Admit(f: Frame, a: Answers) returns (admitted: bool)
      requires Valid() && WellFormed(f) && open == Descriptors(f)
      modifies this`open, this`initialised, imported
      ensures Valid() && open == {}
      ensures admitted == old(WillRead(f, a))
      ensures admitted ==> InCache(f.stream, f.slot)
      ensures forall k :: 0 <= k < CACHE && old(imported[k]).Cached? ==> imported[k] == old(imported[k])
      ensures !admitted ==> forall k :: 0 <= k < CACHE ==> imported[k] == old(imported[k])
    {
      var j, fresh' := Import(f, a);
      if j == CACHE {
        Close(f.fence);
        Close(f.dmabuf);
        return false;
      }
      assert Caches(j, f.stream, f.slot);
      admitted := TakeDescriptors(f, a);
      if admitted {
        assert Caches(j, f.stream, f.slot);
      } else if fresh' {
        Forget(j);
      }
    }

    /** One iteration of the main loop after `receive_frame`. Every path disposes of both
        descriptors once and acknowledges at most once: at once if no read was issued or
        the read was waited for, and otherwise through a pending acknowledgement. */
    method Handle(f: Frame, a: Answers)
      requires Valid() && Idle() && WellFormed(f) && open == Descriptors(f)
      modifies this, imported, pending
      ensures Valid() && Idle() && open == {}
      ensures received == old(received) + 1 && old(history) <= history
      ensures names == old(names)[old(received) := NameOf(f)]
      ensures issued == if old(WillRead(f, a)) then old(issued) + {old(received)} else old(issued)
      ensures var r := old(received);
              && r in phase
              && phase[r] == (if old(WillRead(f, a)) && a.fenceMade && old(HasRoom()) then Queued else Acking)
              && EncoderAfter(old(WillRead(f, a)), a, r, old(encoderStarted), old(stopping), old(copied))
              && acks == if phase[r] == Acking then old(acks) + [r] else old(acks)
      ensures forall q :: q in old(phase) ==>
                q in phase && (phase[q] == old(phase)[q] || (old(phase)[q] == Queued && phase[q] == Done))
      ensures forall k :: 0 <= k < CACHE && old(imported[k]).Cached? ==> imported[k] == old(imported[k])
      ensures old(WillRead(f, a)) ==> InCache(f.stream, f.slot)
      ensures !old(WillRead(f, a)) ==> forall k :: 0 <= k < CACHE ==> imported[k] == old(imported[k])
    {
      var r := Receipt(f);
      Process(r, f, a);
    }

    /** The first frame that is read starts the encoder, and the process stops if that fails;
        a frame that is read is handed to the encoder once it runs. */
    ghost predicate EncoderAfter(reads': bool, a: Answers, r: nat, started: bool, stopped: bool, copies: seq<nat>)
      reads this`encoderStarted, this`stopping, this`copied
    {
      && encoderStarted == (started || (reads' && a.encoderStarts))
      && stopping == (stopped || (reads' && !encoderStarted))
      && copied == if reads' && encoderStarted then copies + [r] else copies
    }

    /** What becomes of an export that has its receipt. */
    method Process(r: nat, f: Frame, a: Answers)
      requires Valid() && WellFormed(f) && open == Descriptors(f) && r in phase && phase[r] == InFlight
      modifies this`open, this`initialised, this`encoderStarted, this`stopping, this`copied, this`issued,
               this`phase, this`history, this`acks, imported, pending
      ensures Valid() && open == {} && phase.Keys == old(phase).Keys && old(history) <= history
      ensures issued == if old(WillRead(f, a)) then old(issued) + {r} else old(issued)
      ensures phase[r] == if old(WillRead(f, a)) && a.fenceMade && old(HasRoom()) then Queued else Acking
      ensures EncoderAfter(old(WillRead(f, a)), a, r, old(encoderStarted), old(stopping), old(copied))
      ensures forall k :: 0 <= k < CACHE && old(imported[k]).Cached? ==> imported[k] == old(imported[k])
      ensures acks == if phase[r] == Acking then old(acks) + [r] else old(acks)
      ensures forall q :: q in phase && q != r ==>
                phase[q] == old(phase)[q] || (old(phase)[q] == Queued && phase[q] == Done)
      ensures old(WillRead(f, a)) ==> InCache(f.stream, f.slot)
      ensures !old(WillRead(f, a)) ==> forall k :: 0 <= k < CACHE ==> imported[k] == old(imported[k])
    {
      var admitted := Admit(f, a);
      if admitted {
        Issue(r, a);
      } else {
        AckNow(r);
      }
    }

    /** The read of an admitted frame, and what becomes of its acknowledgement. */
    method Issue(r: nat, a: Answers)
      requires Valid() && r in phase && phase[r] == InFlight
      modifies this`encoderStarted, this`stopping, this`copied, this`issued,
               this`phase, this`history, this`acks, pending
      ensures Valid() && phase.Keys == old(phase).Keys
      ensures phase[r] == if a.fenceMade && old(HasRoom()) then Queued else Acking
      ensures encoderStarted == (old(encoderStarted) || a.encoderStarts) && stopping == (old(stopping) || !encoderStarted)
      ensures copied == if encoderStarted then old(copied) + [r] else old(copied)
      ensures acks == (if phase[r] == Acking then old(acks) + [r] else old(acks)) && old(history) <= history
      ensures issued == old(issued) + {r}
      ensures forall q :: q in phase && q != r ==>
                phase[q] == old(phase)[q] || (old(phase)[q] == Queued && phase[q] == Done)
    {
      Encode(r, a.encoderStarts);
      Read(r, a.fenceMade);
    }

    method Read(r: nat, fenceMade: bool)
      requires Valid() && r in phase && phase[r] == InFlight
      modifies this`issued, this`phase, this`history, this`acks, pending
      ensures Valid() && phase.Keys == old(phase).Keys
      ensures phase[r] == if fenceMade && old(HasRoom()) then Queued else Acking
      ensures acks == (if phase[r] == Acking then old(acks) + [r] else old(acks)) && old(history) <= history
      ensures issued == old(issued) + {r}
      ensures forall q :: q in phase && q != r ==>
                phase[q] == old(phase)[q] || (old(phase)[q] == Queued && phase[q] == Done)
    {
      IssueRead(r);
      DeferAck(r, fenceMade);
    }

    /** Disposes of both descriptors of an imported export. True if the GPU now waits for
        the producer's copy, or need not wait. */
    method TakeDescriptors(f: Frame, a: Answers) returns (waited: bool)
      requires WellFormed(f) && open == Descriptors(f)
      modifies this`open
      ensures open == {} && waited == (f.copyComplete || (a.syncMade && a.waitOk))
    {
      Close(f.dmabuf);
      var fence := f.fence;
      if f.opaqueMemory {
        Close(fence);
        fence := -1;
      }
      waited := true;
      if !f.copyComplete {
        waited := false;
        if a.syncMade {
          open := open - {fence};   // EGL owns the descriptor now
          fence, waited := -1, a.waitOk;
        }
        if !waited && fence >= 0 { Close(fence); }
      }
    }

    method Encode(r: nat, starts: bool)
      modifies this`encoderStarted, this`stopping, this`copied
      ensures encoderStarted == (old(encoderStarted) || starts) && stopping == (old(stopping) || !encoderStarted)
      ensures copied == if encoderStarted then old(copied) + [r] else old(copied)
    {
      StartEncoder(starts);
      if encoderStarted { copied := copied + [r]; }
    }

    method StartEncoder(starts: bool)
      modifies this`encoderStarted, this`stopping
      ensures encoderStarted == (old(encoderStarted) || starts)
      ensures stopping == (old(stopping) || !encoderStarted)
    {
      if !encoderStarted {
        encoderStarted := starts;
        if !encoderStarted { stopping := true; }
      }
    }

    method Receipt(f: Frame) returns (r: nat)
      requires Valid() && Idle()
      modifies this`received, this`phase, this`history, this`names
      ensures Valid() && r == old(received) && received == r + 1 && phase == old(phase)[r := InFlight]
      ensures names == old(names)[r := NameOf(f)]
      ensures old(history) <= history
    {
      ghost var before := phase;
      r := received;
      assert r !in phase && r !in acks;
      Follow(Receive(r));
      received, names := received + 1, names[r := NameOf(f)];
      phase := phase[r := InFlight];
      assert forall q :: Unacked(phase, q) <==> Unacked(before, q);
    }

    // ---- the whole process ----

    /** The read of this export is over by the time of the arrival, and its wait does not fail. */
    predicate Over(before: map<nat, Phase>, r: nat, arrival: Arrival) {
      && r in before && r !in arrival.waitFails
      && (before[r] == Done || (before[r] == Queued && r in arrival.completed))
    }

    /** What precedes the wait for a datagram: exports whose read is over are acknowledged. */
    method RetireOver(arrival: Arrival)
      requires Valid() && Idle()
      modifies this`phase, this`history, this`acks, pending
      ensures Valid() && Idle() && old(history) <= history && phase.Keys == old(phase).Keys
      ensures forall r :: r in phase ==> (phase[r] == Acking <==> old(phase)[r] == Acking || Over(old(phase), r, arrival))
    {
      ReadsComplete(arrival.completed, None);
      RetireAckFences(false, arrival.waitFails);
    }

    /** One iteration. Of the earlier exports, exactly those whose read is over and whose wait
        does not fail are acknowledged. Then the datagram is received, and a refused one
        changes nothing more. */
    method Serve(arrival: Arrival) returns (goOn: bool)
      requires Valid() && Idle() && open == {} && Installed(arrival.datagram) && !stopping
      modifies this, imported, pending
      ensures Valid() && Idle() && open == {} && old(history) <= history
      ensures goOn == arrival.healthy
      ensures if goOn && Accepts(arrival.datagram)
              then received == old(received) + 1 && names == old(names)[old(received) := Announced(arrival.datagram)]
              else received == old(received) && names == old(names) && !stopping
      ensures stopping ==> !arrival.answers.encoderStarts && !encoderStarted
      ensures forall r :: r in old(phase) ==> (r in acks <==> r in old(acks) || Over(old(phase), r, arrival))
    {
      RetireOver(arrival);
      if !arrival.healthy { return false; }
      var frame := ReceiveFrame(arrival.datagram);
      if frame.Some? { Handle(frame.value, arrival.answers); }
      goOn := true;
    }

    /** The main loop: arrivals are served in turn until the encode worker fails or cannot be
        started, and exactly the valid ones among them are received, in order. */
    method ServeAll(arrivals: seq<Arrival>) returns (ghost served: nat)
      requires Valid() && Idle() && received == 0 && open == {} && !stopping
      requires forall k :: 0 <= k < |arrivals| ==> Installed(arrivals[k].datagram)
      modifies this, imported, pending
      ensures Valid() && Idle() && open == {} && old(history) <= history
      ensures served <= |arrivals| && forall k :: 0 <= k < served ==> arrivals[k].healthy
      ensures served < |arrivals| ==> stopping || !arrivals[served].healthy
      ensures stopping ==>
                && served > 0 && Accepts(arrivals[served - 1].datagram)
                && !arrivals[served - 1].answers.encoderStarts && !encoderStarted
      ensures received == |Accepted(arrivals[..served])|
      ensures forall r :: 0 <= r < received ==> r in names && names[r] == Accepted(arrivals[..served])[r]
    {
      var k := 0;
      served := 0;
      while k < |arrivals| && !stopping
        invariant served == k <= |arrivals| && Valid() && Idle() && open == {} && old(history) <= history
        invariant forall j :: 0 <= j < k ==> arrivals[j].healthy
        invariant stopping ==>
                    && k > 0 && Accepts(arrivals[k - 1].datagram)
                    && !arrivals[k - 1].answers.encoderStarts && !encoderStarted
        invariant received == |Accepted(arrivals[..k])|
        invariant forall r :: 0 <= r < received ==> r in names && names[r] == Accepted(arrivals[..k])[r]
      {
        assert arrivals[..k + 1][..k] == arrivals[..k];
        var goOn := Serve(arrivals[k]);
        if !goOn { return; }
        k := k + 1;
        served := k;
      }
    }

    /** The exit: all GPU work is finished, and everything pending is acknowledged. */
    method Leave()
      requires Valid() && Idle()
      modifies this`phase, this`history, this`acks, imported, pending
      ensures Valid() && old(history) <= history && phase.Keys == old(phase).Keys
      ensures |acks| == received && forall r: nat :: r in acks <==> r < received
      ensures forall k :: 0 <= k < CACHE ==> imported[k].Unused?
    {
      RetireAckFences(true, {});
      ghost var all := acks;
      assert forall r: nat :: r in acks <==> r < received;
      DistinctIndicesCover(acks, received);
      for j := 0 to CACHE
        invariant Valid() && acks == all && old(history) <= history && phase.Keys == old(phase).Keys
        invariant forall i :: 0 <= i < j ==> imported[i].Unused?
      {
        Forget(j);
      }
    }

    /** The whole process. Whatever arrives and however the loop ends, every export that was
        received is acknowledged exactly once, after its read if one was issued, and no
        descriptor is left open. All the while the phases change by the moves of a receiver,
        so they are those of a run of the protocol. */
    method Run(arrivals: seq<Arrival>) returns (ghost served: nat)
      requires Valid() && Idle() && received == 0 && open == {} && !stopping
      requires forall k :: 0 <= k < |arrivals| ==> Installed(arrivals[k].datagram)
      modifies this, imported, pending
      ensures served <= |arrivals| && forall k :: 0 <= k < served ==> arrivals[k].healthy
      ensures served < |arrivals| ==> stopping || !arrivals[served].healthy
      ensures stopping ==>
                && served > 0 && Accepts(arrivals[served - 1].datagram)
                && !arrivals[served - 1].answers.encoderStarts && !encoderStarted
      ensures received == |Accepted(arrivals[..served])|
      ensures forall r :: 0 <= r < received ==> r in names && names[r] == Accepted(arrivals[..served])[r]
      ensures open == {} && |acks| == received
      ensures Traced() && old(history) <= history
      ensures forall r: nat :: r in acks <==> r < received
      ensures forall j, k :: 0 <= j < k < |acks| ==> acks[j] != acks[k]
      ensures forall k :: 0 <= k < CACHE ==> imported[k].Unused?
    {
      served := ServeAll(arrivals);
      Leave();
    }
  }
}
