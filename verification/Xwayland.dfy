/** The Xwayland capture loop: a present that its pacer admits is exported, imported into
    one of eight slots, and encoded. Images are numbered in the order they are made;
    `destroyed` lists the destroyed ones. A signal that stops the loop ends the run. */
module Xwayland {
  import opened Collections
  import opened Options
  import Pacing

  const SLOTS := 8

  datatype ImportSlot = ImportSlot(image: Option<nat>, fenced: bool)

  const Empty := ImportSlot(None, false)

  datatype Pool = Pool(slots: seq<ImportSlot>, made: nat, destroyed: seq<nat>)

  datatype Counts = Counts(admitted: nat, encoded: nat, exportDrops: nat, poolDrops: nat)

  datatype Capture = Capture(
    pool: Pool, initialized: bool, encoder: bool, stopping: bool, nextDue: nat, counts: Counts)

  /** What the clock, X11, EGL and the encoder answer while one present is handled;
      `signaled` holds the slots whose fence is found signalled. */
  datatype Answers = Answers(
    now: nat, exported: bool, sameSize: bool, initOk: bool, signaled: set<nat>, importOk: bool,
    complete: bool, encoderMade: bool, encoderReady: bool, submitted: bool, fenceMade: bool)

  /** What becomes of an admitted present. */
  datatype Fate = InVideo | ExportDrop | PoolDrop | Fatal

  const Start := Capture(
    Pool([Empty, Empty, Empty, Empty, Empty, Empty, Empty, Empty], 0, []), false, false, false, 0, Counts(0, 0, 0, 0))

  // ---- what the code does to the slots ----

  function Destroy(p: Pool, image: Option<nat>): Pool {
    if image.Some? then p.(destroyed := p.destroyed + [image.value]) else p
  }

  function Release(p: Pool, i: nat): Pool
    requires i < |p.slots|
  {
    Destroy(p, p.slots[i].image).(slots := p.slots[i := Empty])
  }

  function FirstAvailable(slots: seq<ImportSlot>, signaled: set<nat>, i: nat): (r: Option<nat>)
    requires i <= |slots|
    ensures r.Some? ==> i <= r.value < |slots| && (slots[r.value].fenced ==> r.value in signaled)
    ensures forall k :: i <= k < (if r.Some? then r.value else |slots|) ==> slots[k].fenced && k !in signaled
    decreases |slots| - i
  {
    if i == |slots| then None
    else if !slots[i].fenced || i in signaled then Some(i)
    else FirstAvailable(slots, signaled, i + 1)
  }

  /** Slot `i` is available: what it held for the GPU is destroyed. */
  function Acquired(p: Pool, i: nat): Pool
    requires i < |p.slots|
  {
    if p.slots[i].fenced then Release(p, i) else p
  }

  /** The frame's image goes into slot `i`, made now unless the display came with one. */
  function Placed(p: Pool, i: nat, image: Option<nat>): Pool
    requires i < |p.slots|
  {
    var held := if image.Some? then image else Some(p.made);
    p.(made := if image.Some? then p.made else p.made + 1, slots := p.slots[i := p.slots[i].(image := held)])
  }

  function Fenced(p: Pool, i: nat, fenceMade: bool): Pool
    requires i < |p.slots|
  {
    var q := p.(slots := p.slots[i := p.slots[i].(fenced := fenceMade)]);
    if fenceMade then q else Release(q, i)
  }

  // ---- what becomes of a present ----

  predicate Ready(encoder: bool, a: Answers) { encoder || (a.encoderMade && a.encoderReady) }

  /** `image` is the frame's image if the display was initialised with it just now. */
  function FateOf(p: Pool, image: Option<nat>, encoder: bool, a: Answers): Fate {
    if FirstAvailable(p.slots, a.signaled, 0).None? then PoolDrop
    else if image.None? && !a.importOk then ExportDrop
    else if !a.complete then ExportDrop
    else if !Ready(encoder, a) then Fatal
    else if !a.submitted then PoolDrop
    else InVideo
  }

  function PoolAfter(p: Pool, image: Option<nat>, encoder: bool, a: Answers): Pool {
    match FirstAvailable(p.slots, a.signaled, 0)
    case None => Destroy(p, image)
    case Some(i) =>
      var q := Acquired(p, i);
      if image.None? && !a.importOk then q
      else
        var r := Placed(q, i, image);
        match FateOf(p, image, encoder, a)
        case Fatal => r
        case InVideo => Fenced(r, i, a.fenceMade)
        case _ => Release(r, i)
  }

  function Counted(n: Counts, f: Fate): Counts {
    match f
    case InVideo => n.(encoded := n.encoded + 1)
    case ExportDrop => n.(exportDrops := n.exportDrops + 1)
    case PoolDrop => n.(poolDrops := n.poolDrops + 1)
    case Fatal => n
  }

  function EncoderAfter(p: Pool, image: Option<nat>, encoder: bool, a: Answers): bool {
    if FirstAvailable(p.slots, a.signaled, 0).None? || (image.None? && !a.importOk) || !a.complete then encoder
    else encoder || a.encoderMade
  }

  function Imported(c: Capture, image: Option<nat>, a: Answers): Capture {
    var f := FateOf(c.pool, image, c.encoder, a);
    Capture(PoolAfter(c.pool, image, c.encoder, a), true, EncoderAfter(c.pool, image, c.encoder, a),
            c.stopping || f.Fatal?, c.nextDue, Counted(c.counts, f))
  }

  /** What becomes of a present that was admitted. */
  function Exported(c: Capture, a: Answers): Capture {
    if !a.exported || !a.sameSize then c.(counts := Counted(c.counts, ExportDrop))
    else if c.initialized then Imported(c, None, a)
    else if !a.initOk then c.(stopping := true)
    else Imported(c.(pool := c.pool.(made := c.pool.made + 1)), Some(c.pool.made), a)
  }

  function Present(c: Capture, interval: nat, a: Answers): Capture {
    var v := Pacing.Admit(a.now, interval, c.nextDue);
    if !v.accept then c
    else Exported(c.(nextDue := v.due, counts := c.counts.(admitted := c.counts.admitted + 1)), a)
  }

  function Run(interval: nat, presents: seq<Answers>): Capture
    decreases |presents|
  {
    if presents == [] then Start
    else
      var c := Run(interval, presents[..|presents| - 1]);
      if c.stopping then c else Present(c, interval, presents[|presents| - 1])
  }

  function ReleaseFrom(p: Pool, i: nat): Pool
    requires i <= |p.slots|
    decreases |p.slots| - i
  {
    if i == |p.slots| then p else ReleaseFrom(Release(p, i), i + 1)
  }

  function Exit(c: Capture): Pool { if c.initialized then ReleaseFrom(c.pool, 0) else c.pool }

  // ---- who owns the images ----

  ghost predicate Holds(slots: seq<ImportSlot>, n: nat) { exists i :: 0 <= i < |slots| && slots[i].image == Some(n) }

  /** Every image made is in one slot or was destroyed once; `loose` is the image that the
      loop has in hand. */
  ghost predicate Owned(p: Pool, loose: Option<nat>) {
    && Distinct(p.destroyed)
    && (forall n :: n in p.destroyed ==> n < p.made)
    && (forall i :: 0 <= i < |p.slots| && p.slots[i].image.Some? ==>
          p.slots[i].image.value < p.made && p.slots[i].image.value !in p.destroyed && p.slots[i].image != loose)
    && (forall i, j :: 0 <= i < j < |p.slots| && p.slots[i].image.Some? ==> p.slots[i].image != p.slots[j].image)
    && (loose.Some? ==> loose.value < p.made && loose.value !in p.destroyed)
    && (forall n :: 0 <= n < p.made ==> n in p.destroyed || Holds(p.slots, n) || Some(n) == loose)
  }

  /** A slot holds an image only while it has a fence. */
  predicate Waiting(p: Pool) { forall i :: 0 <= i < |p.slots| && p.slots[i].image.Some? ==> p.slots[i].fenced }

  predicate Unused(p: Pool) { p.made == 0 && forall i :: 0 <= i < |p.slots| ==> p.slots[i] == Empty }

  predicate Balanced(c: Capture) {
    c.counts.admitted == c.counts.encoded + c.counts.exportDrops + c.counts.poolDrops + if c.stopping then 1 else 0
  }

  ghost predicate Inv(c: Capture) {
    && |c.pool.slots| == SLOTS && Owned(c.pool, None) && Balanced(c)
    && (!c.stopping ==> Waiting(c.pool))
    && (!c.initialized ==> Unused(c.pool))
  }

  lemma DestroyOwned(p: Pool, image: Option<nat>)
    requires Owned(p, image)
    ensures Owned(Destroy(p, image), None)
  {
  }

  /** Taking an image out of its slot leaves it loose. */
  lemma TakeOwned(p: Pool, i: nat)
    requires Owned(p, None) && i < |p.slots|
    ensures Owned(p.(slots := p.slots[i := Empty]), p.slots[i].image)
  {
    var image, q := p.slots[i].image, p.(slots := p.slots[i := Empty]);
    forall n | 0 <= n < q.made
      ensures n in q.destroyed || Holds(q.slots, n) || Some(n) == image
    {
      if Holds(p.slots, n) && Some(n) != image {
        var k :| 0 <= k < |p.slots| && p.slots[k].image == Some(n);
        assert q.slots[k] == p.slots[k];
      }
    }
  }

  lemma ReleaseOwned(p: Pool, i: nat)
    requires Owned(p, None) && i < |p.slots|
    ensures Owned(Release(p, i), None)
  {
    TakeOwned(p, i);
    DestroyOwned(p.(slots := p.slots[i := Empty]), p.slots[i].image);
  }

  /** Putting a loose image into a slot that holds none. */
  lemma PutOwned(p: Pool, i: nat, n: nat, fenced: bool)
    requires Owned(p, Some(n)) && i < |p.slots| && p.slots[i].image.None?
    ensures Owned(p.(slots := p.slots[i := ImportSlot(Some(n), fenced)]), None)
  {
    var q := p.(slots := p.slots[i := ImportSlot(Some(n), fenced)]);
    assert q.slots[i].image == Some(n);
    forall m | 0 <= m < q.made
      ensures m in q.destroyed || Holds(q.slots, m)
    {
      if Holds(p.slots, m) {
        var k :| 0 <= k < |p.slots| && p.slots[k].image == Some(m);
        assert q.slots[k] == p.slots[k];
      }
    }
  }

  lemma PlacedOwned(p: Pool, i: nat, image: Option<nat>)
    requires i < |p.slots| && Owned(p, image) && p.slots[i].image.None?
    ensures Owned(Placed(p, i, image), None)
  {
    var n := if image.Some? then image.value else p.made;
    PutOwned(if image.Some? then p else p.(made := p.made + 1), i, n, p.slots[i].fenced);
  }

  lemma FencedOwned(p: Pool, i: nat, fenceMade: bool)
    requires Owned(p, None) && i < |p.slots|
    ensures Owned(Fenced(p, i, fenceMade), None)
  {
    var q := p.(slots := p.slots[i := p.slots[i].(fenced := fenceMade)]);
    forall n | 0 <= n < q.made
      ensures n in q.destroyed || Holds(q.slots, n)
    {
      if Holds(p.slots, n) {
        var k :| 0 <= k < |p.slots| && p.slots[k].image == Some(n);
        assert q.slots[k].image == Some(n);
      }
    }
    ReleaseOwned(q, i);
  }

  /** Once the image is in slot `i`, giving it up and encoding it both leave the slots in order. */
  lemma FilledSettles(p: Pool, i: nat, fenceMade: bool)
    requires i < |p.slots| == SLOTS && Owned(p, None)
    requires forall k :: 0 <= k < |p.slots| && k != i && p.slots[k].image.Some? ==> p.slots[k].fenced
    ensures var q := Release(p, i); |q.slots| == SLOTS && Owned(q, None) && Waiting(q)
    ensures var q := Fenced(p, i, fenceMade); |q.slots| == SLOTS && Owned(q, None) && Waiting(q)
  {
    ReleaseOwned(p, i);
    FencedOwned(p, i, fenceMade);
  }

  lemma AcquiredOwned(p: Pool, i: nat, image: Option<nat>)
    requires i < |p.slots| == SLOTS && Owned(p, image) && Waiting(p)
    requires image.Some? ==> p.slots[i] == Empty
    ensures var q := Acquired(p, i);
            |q.slots| == SLOTS && Owned(q, image) && Waiting(q) && q.slots[i].image.None?
  {
    if p.slots[i].fenced { ReleaseOwned(p, i); }
  }

  /** `image` is either a new image that no slot holds yet, or none. */
  lemma PoolAfterOwned(p: Pool, image: Option<nat>, encoder: bool, a: Answers)
    requires |p.slots| == SLOTS && Owned(p, image) && Waiting(p)
    requires image.Some? ==> forall i :: 0 <= i < |p.slots| ==> p.slots[i] == Empty
    ensures var q := PoolAfter(p, image, encoder, a);
            |q.slots| == SLOTS && Owned(q, None) && (!FateOf(p, image, encoder, a).Fatal? ==> Waiting(q))
  {
    match FirstAvailable(p.slots, a.signaled, 0)
    case None => DestroyOwned(p, image);
    case Some(i) =>
      AcquiredOwned(p, i, image);
      var q := Acquired(p, i);
      if image.Some? || a.importOk {
        PlacedOwned(q, i, image);
        FilledSettles(Placed(q, i, image), i, a.fenceMade);
      }
  }

  lemma ImportedKeepsInv(c: Capture, image: Option<nat>, a: Answers)
    requires |c.pool.slots| == SLOTS && Owned(c.pool, image) && Waiting(c.pool) && !c.stopping
    requires image.Some? ==> forall i :: 0 <= i < |c.pool.slots| ==> c.pool.slots[i] == Empty
    requires c.counts.admitted == c.counts.encoded + c.counts.exportDrops + c.counts.poolDrops + 1
    ensures Inv(Imported(c, image, a))
  {
    PoolAfterOwned(c.pool, image, c.encoder, a);
  }

  lemma ExportedKeepsInv(c: Capture, a: Answers)
    requires |c.pool.slots| == SLOTS && Owned(c.pool, None) && Waiting(c.pool) && !c.stopping
    requires !c.initialized ==> Unused(c.pool)
    requires c.counts.admitted == c.counts.encoded + c.counts.exportDrops + c.counts.poolDrops + 1
    ensures Inv(Exported(c, a))
  {
    if a.exported && a.sameSize {
      if c.initialized {
        ImportedKeepsInv(c, None, a);
      } else if a.initOk {
        ImportedKeepsInv(c.(pool := c.pool.(made := c.pool.made + 1)), Some(c.pool.made), a);
      }
    }
  }

  lemma PresentKeepsInv(c: Capture, interval: nat, a: Answers)
    requires Inv(c) && !c.stopping
    ensures Inv(Present(c, interval, a))
  {
    var v := Pacing.Admit(a.now, interval, c.nextDue);
    if v.accept {
      var d := c.(nextDue := v.due, counts := c.counts.(admitted := c.counts.admitted + 1));
      ExportedKeepsInv(d, a);
      assert Present(c, interval, a) == Exported(d, a);
    }
  }

  /** Every admitted present is encoded or counted as dropped, but for one that stops the
      loop; and every image has one owner. */
  lemma {:induction false} RunKeepsInv(interval: nat, presents: seq<Answers>)
    ensures Inv(Run(interval, presents))
    decreases |presents|
  {
    if presents == [] {
    } else {
      RunKeepsInv(interval, presents[..|presents| - 1]);
      var c := Run(interval, presents[..|presents| - 1]);
      if !c.stopping { PresentKeepsInv(c, interval, presents[|presents| - 1]); }
    }
  }

  lemma {:induction false} ReleaseAll(p: Pool, i: nat)
    requires Owned(p, None) && i <= |p.slots| && forall k :: 0 <= k < i ==> p.slots[k] == Empty
    ensures var r := ReleaseFrom(p, i);
            Owned(r, None) && r.made == p.made && forall k :: 0 <= k < |r.slots| ==> r.slots[k] == Empty
    decreases |p.slots| - i
  {
    if i < |p.slots| {
      ReleaseOwned(p, i);
      ReleaseAll(Release(p, i), i + 1);
    }
  }

  /** By the end, every image that was made has been destroyed exactly once. */
  lemma ExitDestroysAll(interval: nat, presents: seq<Answers>)
    ensures var r := Exit(Run(interval, presents));
            Distinct(r.destroyed) && forall n :: n in r.destroyed <==> 0 <= n < Run(interval, presents).pool.made
  {
    RunKeepsInv(interval, presents);
    var c := Run(interval, presents);
    if c.initialized { ReleaseAll(c.pool, 0); }
  }

  lemma PoolAfterKeeps(p: Pool, image: Option<nat>, encoder: bool, a: Answers, k: nat)
    requires k < |p.slots| && p.slots[k].fenced && k !in a.signaled
    ensures k < |PoolAfter(p, image, encoder, a).slots| && PoolAfter(p, image, encoder, a).slots[k] == p.slots[k]
  {
    var slot := FirstAvailable(p.slots, a.signaled, 0);
    assert slot.Some? ==> slot.value != k;
  }

  /** An image that the encoder may still read stays in its slot: handling a present leaves
      every slot alone whose fence is not signalled. */
  lemma WaitingImagesKept(c: Capture, interval: nat, a: Answers, k: nat)
    requires k < |c.pool.slots| && c.pool.slots[k].fenced && k !in a.signaled
    ensures k < |Present(c, interval, a).pool.slots| && Present(c, interval, a).pool.slots[k] == c.pool.slots[k]
  {
    PoolAfterKeeps(c.pool, None, c.encoder, a, k);
    PoolAfterKeeps(c.pool.(made := c.pool.made + 1), Some(c.pool.made), c.encoder, a, k);
  }

  /** A frame that was exported and whose import works is encoded exactly if some slot does
      not wait for the GPU, the framebuffer is complete, and the encoder takes it. */
  lemma EncodedExactly(c: Capture, a: Answers)
    requires Inv(c) && !c.stopping && a.exported && a.sameSize && (if c.initialized then a.importOk else a.initOk)
    ensures Exported(c, a).counts.encoded == c.counts.encoded + 1 <==>
              && (exists k :: 0 <= k < SLOTS && (c.pool.slots[k].fenced ==> k in a.signaled))
              && a.complete && Ready(c.encoder, a) && a.submitted
  {
    var slot := FirstAvailable(c.pool.slots, a.signaled, 0);
    if slot.Some? { assert c.pool.slots[slot.value].fenced ==> slot.value in a.signaled; }
  }

  /** Which counter an admitted present goes to. */
  lemma CountedExactly(c: Capture, a: Answers)
    requires Inv(c) && !c.stopping
    ensures var r := Exported(c, a);
            var usable := a.exported && a.sameSize && (c.initialized || a.initOk);
            var free := exists k :: 0 <= k < SLOTS && (c.pool.slots[k].fenced ==> k in a.signaled);
            var imports := !c.initialized || a.importOk;
            var reached := usable && free && imports && a.complete;
            var ready := c.encoder || (a.encoderMade && a.encoderReady);
            && r.encoder == (c.encoder || (reached && a.encoderMade))
            && r.counts.exportDrops == c.counts.exportDrops +
                 (if !a.exported || !a.sameSize || (usable && free && !(imports && a.complete)) then 1 else 0)
            && r.counts.poolDrops == c.counts.poolDrops +
                 (if (usable && !free) || (reached && ready && !a.submitted) then 1 else 0)
            && (r.stopping <==>
                  || (a.exported && a.sameSize && !c.initialized && !a.initOk)
                  || (reached && !ready))
  {
    var slot := FirstAvailable(c.pool.slots, a.signaled, 0);
    if slot.Some? { assert c.pool.slots[slot.value].fenced ==> slot.value in a.signaled; }
  }

  /** The newest image stays in a slot, behind its fence, once its frame was encoded and the
      fence was made: nothing destroys it before the encoder has read it. */
  lemma EncodedImageWaits(c: Capture, a: Answers)
    requires Inv(c) && !c.stopping && a.fenceMade && Exported(c, a).counts.encoded > c.counts.encoded
    ensures var p := Exported(c, a).pool;
            p.made == c.pool.made + 1 && exists i :: 0 <= i < |p.slots| && p.slots[i] == ImportSlot(Some(c.pool.made), true)
  {
    var p := Exported(c, a).pool;
    var i := FirstAvailable(c.pool.slots, a.signaled, 0).value;
    assert p.slots[i] == ImportSlot(Some(c.pool.made), true);
  }

  // ---- pacing ----

  /** The times of the presents that a run admits. */
  function AdmittedTimes(interval: nat, presents: seq<Answers>): seq<nat>
    decreases |presents|
  {
    if presents == [] then []
    else
      var before, a := presents[..|presents| - 1], presents[|presents| - 1];
      var c := Run(interval, before);
      AdmittedTimes(interval, before) +
      if !c.stopping && Pacing.Admit(a.now, interval, c.nextDue).accept then [a.now] else []
  }

  function DueAfter(times: seq<nat>, interval: nat, due: nat): nat {
    if times == [] then due else DueAfter(times[1..], interval, Pacing.Admit(times[0], interval, due).due)
  }

  lemma {:induction false} AdmittedMore(times: seq<nat>, interval: nat, due: nat, now: nat)
    requires Pacing.Admitted(times, interval, due) && Pacing.Admit(now, interval, DueAfter(times, interval, due)).accept
    ensures Pacing.Admitted(times + [now], interval, due)
    ensures DueAfter(times + [now], interval, due) == Pacing.Admit(now, interval, DueAfter(times, interval, due)).due
  {
    if times == [] {
      assert times + [now] == [now] && [now][1..] == [];
    } else {
      AdmittedMore(times[1..], interval, Pacing.Admit(times[0], interval, due).due, now);
      assert (times + [now])[0] == times[0] && (times + [now])[1..] == times[1..] + [now];
    }
  }

  lemma {:induction false} AdmittedTimesPaced(interval: nat, presents: seq<Answers>)
    ensures var times := AdmittedTimes(interval, presents);
            && Pacing.Admitted(times, interval, 0)
            && DueAfter(times, interval, 0) == Run(interval, presents).nextDue
            && |times| == Run(interval, presents).counts.admitted
    decreases |presents|
  {
    if presents == [] {
    } else {
      var before, a := presents[..|presents| - 1], presents[|presents| - 1];
      AdmittedTimesPaced(interval, before);
      var c, times := Run(interval, before), AdmittedTimes(interval, before);
      if !c.stopping && Pacing.Admit(a.now, interval, c.nextDue).accept {
        AdmittedMore(times, interval, 0, a.now);
      } else {
        assert AdmittedTimes(interval, presents) == times;
      }
    }
  }

  /** Over a whole run, `n` admitted presents span at least `n - 1` intervals. */
  lemma RunIsPaced(interval: nat, presents: seq<Answers>)
    requires interval > 0 && Run(interval, presents).counts.admitted > 0
    ensures var times := AdmittedTimes(interval, presents);
            && |times| == Run(interval, presents).counts.admitted
            && times[|times| - 1] - times[0] >= (|times| - 1) * interval
  {
    AdmittedTimesPaced(interval, presents);
    Pacing.AdmittedSpan(AdmittedTimes(interval, presents), interval);
  }

  // ---- the code ----

  class CaptureLoop {
    const interval: nat
    const slots: array<ImportSlot>
    var initialized: bool
    var encoder: bool
    var stopping: bool
    var nextDue: nat
    var admitted: nat
    var encoded: nat
    var exportDrops: nat
    var poolDrops: nat
    var made: nat
    var destroyed: seq<nat>

    constructor (interval: nat)
      ensures Value() == Start && fresh(slots) && this.interval == interval
    {
      this.interval := interval;
      slots := new ImportSlot[SLOTS](_ => Empty);
      initialized, encoder, stopping := false, false, false;
      nextDue, admitted, encoded, exportDrops, poolDrops, made := 0, 0, 0, 0, 0, 0;
      destroyed := [];
    }

    function Images(): Pool
      reads this`made, this`destroyed, slots
    {
      Pool(slots[..], made, destroyed)
    }

    function Value(): Capture
      reads this, slots
    {
      Capture(Images(), initialized, encoder, stopping, nextDue, Counts(admitted, encoded, exportDrops, poolDrops))
    }

    method DestroyImage(image: nat)
      modifies this`destroyed
      ensures destroyed == old(destroyed) + [image]
    {
      destroyed := destroyed + [image];
    }

    method ReleaseSlot(i: nat)
      requires i < slots.Length
      modifies this`destroyed, slots
      ensures Images() == Release(old(Images()), i)
    {
      if slots[i].image.Some? { DestroyImage(slots[i].image.value); }
      slots[i] := Empty;
    }

    method AvailableSlot(signaled: set<nat>) returns (r: Option<nat>)
      modifies this`destroyed, slots
      ensures r == FirstAvailable(old(slots[..]), signaled, 0)
      ensures Images() == if r.Some? then Acquired(old(Images()), r.value) else old(Images())
    {
      ghost var was := slots[..];
      var i := 0;
      while i < slots.Length
        invariant i <= slots.Length && Images() == old(Images())
        invariant FirstAvailable(was, signaled, 0) == FirstAvailable(was, signaled, i)
      {
        if !slots[i].fenced { return Some(i); }
        if i in signaled {
          ReleaseSlot(i);
          return Some(i);
        }
        i := i + 1;
      }
      r := None;
    }

    /** The image is in slot `i`: it is encoded, or given up. */
    method Encode(i: nat, a: Answers) returns (ghost f: Fate)
      requires i < slots.Length
      modifies this`encoder, this`stopping, this`encoded, this`exportDrops, this`poolDrops, this`destroyed, slots
      ensures f == if !a.complete then ExportDrop
                   else if !Ready(old(encoder), a) then Fatal
                   else if !a.submitted then PoolDrop else InVideo
      ensures Images() == match f
                          case Fatal => old(Images())
                          case InVideo => Fenced(old(Images()), i, a.fenceMade)
                          case _ => Release(old(Images()), i)
      ensures Value().counts == Counted(old(Value()).counts, f)
      ensures encoder == (old(encoder) || (a.complete && a.encoderMade)) && stopping == (old(stopping) || f.Fatal?)
    {
      if !a.complete {
        ReleaseSlot(i);
        exportDrops := exportDrops + 1;
        return ExportDrop;
      }
      if !encoder {
        encoder := a.encoderMade;
        if !encoder || !a.encoderReady {
          stopping := true;
          return Fatal;
        }
      }
      if a.submitted {
        encoded := encoded + 1;
        slots[i] := slots[i].(fenced := a.fenceMade);
        if !slots[i].fenced { ReleaseSlot(i); }
        return InVideo;
      }
      ReleaseSlot(i);
      poolDrops := poolDrops + 1;
      return PoolDrop;
    }

    method Import(loose: Option<nat>, a: Answers)
      requires initialized
      modifies this, slots
      ensures Value() == Imported(old(Value()), loose, a)
    {
      var slot := AvailableSlot(a.signaled);
      if slot.None? {
        if loose.Some? { DestroyImage(loose.value); }
        poolDrops := poolDrops + 1;
        return;
      }
      var i := slot.value;
      ghost var p := Images();
      var image := loose;
      if image.None? && a.importOk {
        image := Some(made);
        made := made + 1;
      }
      if image.None? {
        exportDrops := exportDrops + 1;
        return;
      }
      slots[i] := slots[i].(image := image);
      assert Images() == Placed(p, i, loose);
      ghost var f := Encode(i, a);
    }

    method Export(a: Answers)
      modifies this, slots
      ensures Value() == Exported(old(Value()), a)
    {
      if !a.exported || !a.sameSize {
        exportDrops := exportDrops + 1;
        return;
      }
      var image: Option<nat> := None;
      if !initialized {
        if !a.initOk {
          stopping := true;
          return;
        }
        initialized := true;
        image := Some(made);
        made := made + 1;
      }
      Import(image, a);
    }

    method AdmitPresent(now: nat) returns (ok: bool)
      modifies this`nextDue, this`admitted
      ensures var v := Pacing.Admit(now, interval, old(nextDue));
              && ok == v.accept
              && Value() == if !ok then old(Value()) else
                   old(Value()).(nextDue := v.due, counts := old(Value()).counts.(admitted := old(admitted) + 1))
    {
      if nextDue != 0 && now < nextDue { return false; }
      nextDue := if nextDue == 0 || now - nextDue >= interval then now + interval else nextDue + interval;
      admitted := admitted + 1;
      ok := true;
    }

    /** One `PresentComplete` event. */
    method HandlePresent(a: Answers)
      modifies this, slots
      ensures Value() == Present(old(Value()), interval, a)
    {
      var ok := AdmitPresent(a.now);
      if ok { Export(a); }
    }

    method ReleaseSlots()
      modifies this, slots
      ensures Images() == Exit(old(Value()))
    {
      if initialized {
        var i := 0;
        while i < slots.Length
          invariant i <= slots.Length
          invariant ReleaseFrom(Images(), i) == ReleaseFrom(old(Images()), 0)
        {
          ReleaseSlot(i);
          i := i + 1;
        }
      }
    }
  }
}
