/** Capture pacing. One pacer keeps the phase of its first frame; the alternative that its
    source warns against restarts from `now + interval`; the Xwayland capture uses a third
    that keeps the phase unless it is late by a whole interval. */
module Pacing {
  const WORD := 0x1_0000_0000_0000_0000

  datatype Verdict = Verdict(accept: bool, due: nat)

  /** `luma_capture_due` over unbounded integers. */
  function Due(now: nat, interval: nat, due: nat): Verdict {
    if interval == 0 || now < due then Verdict(false, due)
    else if due == 0 then Verdict(true, now + interval)
    else Verdict(true, due + ((now - due) / interval + 1) * interval)
  }

  /** The same in 64-bit unsigned arithmetic. */
  function Due64(now: nat, interval: nat, due: nat): Verdict {
    if interval == 0 || now < due then Verdict(false, due)
    else if due == 0 then Verdict(true, (now + interval) % WORD)
    else Verdict(true, (due + (((now - due) / interval + 1) % WORD * interval) % WORD) % WORD)
  }

  class Pacer {
    var due: nat

    constructor ()
      ensures due == 0
    {
      due := 0;
    }

    /** `luma_capture_due`, on 64-bit words. */
    method CaptureDue(now: nat, interval: nat) returns (accept: bool)
      requires now < WORD && interval < WORD && due < WORD
      modifies this
      ensures Verdict(accept, due) == Due64(now, interval, old(due)) && due < WORD
      ensures now + interval < WORD ==> Verdict(accept, due) == Due(now, interval, old(due))
    {
      ghost var before := due;
      if interval == 0 || now < due { return false; }
      if due == 0 {
        due := (now + interval) % WORD;
      } else {
        var steps := (now - due) / interval + 1;
        var advance := (steps % WORD * interval) % WORD;
        due := (due + advance) % WORD;
      }
      accept := true;
      if now + interval < WORD { NoOverflow(now, interval, before); }
    }
  }

  // ---- the grid of deadlines ----

  /** The `k`-th deadline of a grid that begins at `start`. */
  function Grid(start: nat, interval: nat, k: nat): nat {
    start + k * interval
  }

  lemma GridStep(start: nat, interval: nat, k: nat, n: nat)
    ensures Grid(start, interval, k + n) == Grid(start, interval, k) + n * interval
    ensures Grid(start, interval, k + n + 1) == Grid(start, interval, k + n) + interval
  {
    assert (k + n) * interval == k * interval + n * interval;
    assert (k + n + 1) * interval == (k + n) * interval + interval;
  }

  lemma GridOrder(start: nat, interval: nat, j: nat, k: nat)
    requires interval > 0
    ensures j <= k <==> Grid(start, interval, j) <= Grid(start, interval, k)
  {
    if j <= k {
      GridStep(start, interval, j, k - j);
    } else {
      GridStep(start, interval, k, j - k);
      assert (j - k) * interval == (j - k - 1) * interval + interval;
    }
  }

  /** The index of the cell `[Grid(k), Grid(k + 1))` that holds `t`. */
  function Cell(t: nat, start: nat, interval: nat): (k: nat)
    requires interval > 0 && start <= t
    ensures Grid(start, interval, k) <= t < Grid(start, interval, k + 1)
  {
    var k := (t - start) / interval;
    assert t - start == k * interval + (t - start) % interval;
    GridStep(start, interval, k, 0);
    k
  }

  lemma CellIs(t: nat, start: nat, interval: nat, k: nat)
    requires interval > 0 && start <= t && Grid(start, interval, k) <= t < Grid(start, interval, k + 1)
    ensures Cell(t, start, interval) == k
  {
    var c := Cell(t, start, interval);
    GridOrder(start, interval, c + 1, k);
    GridOrder(start, interval, k + 1, c);
  }

  lemma CellMonotone(t: nat, u: nat, start: nat, interval: nat)
    requires interval > 0 && start <= t <= u
    ensures Cell(t, start, interval) <= Cell(u, start, interval)
  {
    GridOrder(start, interval, Cell(u, start, interval) + 1, Cell(t, start, interval));
  }

  /** A late present moves the deadline to the end of its own cell. */
  lemma NextDue(now: nat, interval: nat, due: nat)
    requires interval > 0 && due <= now
    ensures var steps := (now - due) / interval + 1;
            now < due + steps * interval <= now + interval
  {
    GridStep(due, interval, Cell(now, due, interval), 0);
  }

  /** The words agree with the unbounded pacer whenever `now + interval` is representable. */
  lemma NoOverflow(now: nat, interval: nat, due: nat)
    requires now + interval < WORD && due < WORD
    ensures Due64(now, interval, due) == Due(now, interval, due)
  {
    if interval > 0 && due <= now && due > 0 {
      var steps := (now - due) / interval + 1;
      NextDue(now, interval, due);
      Small(steps, interval);
    }
  }

  lemma Small(steps: nat, interval: nat)
    requires interval > 0 && steps * interval < WORD
    ensures (steps % WORD * interval) % WORD == steps * interval
  {
    assert steps * interval == steps + steps * (interval - 1);
    assert steps % WORD == steps;
  }

  // ---- whole runs ----

  predicate Nondecreasing(times: seq<nat>) {
    forall j, k :: 0 <= j <= k < |times| ==> times[j] <= times[k]
  }

  function RunDue(times: seq<nat>, interval: nat): nat {
    if times == [] then 0
    else Due(times[|times| - 1], interval, RunDue(times[..|times| - 1], interval)).due
  }

  /** Whether the last of `times` is accepted by a pacer that has seen the others. */
  predicate Accepts(times: seq<nat>, interval: nat)
    requires times != []
  {
    Due(times[|times| - 1], interval, RunDue(times[..|times| - 1], interval)).accept
  }

  /** A deadline at the end of cell `c` accepts a present exactly if it is in a later cell,
      and then moves to the end of that cell. */
  lemma DueInCell(start: nat, interval: nat, c: nat, now: nat)
    requires interval > 0 && Grid(start, interval, c) <= now
    ensures var due := Grid(start, interval, c + 1);
            && Due(now, interval, due) == Verdict(Cell(now, start, interval) > c, Grid(start, interval, Cell(now, start, interval) + 1))
  {
    var due := Grid(start, interval, c + 1);
    GridStep(start, interval, c, 0);
    if now < due {
      CellIs(now, start, interval, c);
    } else {
      var q := Cell(now, due, interval);
      GridStep(start, interval, c + 1, q);
      GridStep(start, interval, c + 1, q + 1);
      GridStep(due, interval, 0, q);
      GridStep(due, interval, 0, q + 1);
      CellIs(now, start, interval, c + 1 + q);
    }
  }

  /** The deadline stays on the grid of the first frame: it is the end of the cell of the
      latest present, so it lies after it and within one interval of it. */
  lemma {:induction false} DeadlineOnGrid(times: seq<nat>, interval: nat)
    requires interval > 0 && times != [] && Nondecreasing(times)
    ensures var last := times[|times| - 1];
            && RunDue(times, interval) == Grid(times[0], interval, Cell(last, times[0], interval) + 1)
            && last < RunDue(times, interval) <= last + interval
  {
    var n := |times| - 1;
    var now, start := times[n], times[0];
    if n == 0 {
      assert times[..0] == [];
      GridStep(start, interval, 0, 0);
      CellIs(now, start, interval, 0);
    } else {
      var before := times[..n];
      DeadlineOnGrid(before, interval);
      DueInCell(start, interval, Cell(times[n - 1], start, interval), now);
      GridStep(start, interval, Cell(now, start, interval), 0);
    }
  }

  /** The pacer accepts exactly the first present of each occupied cell. */
  lemma AcceptsFirstOfCell(times: seq<nat>, interval: nat)
    requires interval > 0 && times != [] && Nondecreasing(times)
    ensures var n := |times| - 1;
            Accepts(times, interval) <==>
              forall j :: 0 <= j < n ==> Cell(times[j], times[0], interval) != Cell(times[n], times[0], interval)
  {
    var n := |times| - 1;
    var start := times[0];
    if n == 0 {
      assert times[..0] == [];
    } else {
      DeadlineOnGrid(times[..n], interval);
      DueInCell(start, interval, Cell(times[n - 1], start, interval), times[n]);
      CellMonotone(times[n - 1], times[n], start, interval);
      forall j | 0 <= j < n
        ensures Cell(times[j], start, interval) <= Cell(times[n - 1], start, interval)
      {
        CellMonotone(times[j], times[n - 1], start, interval);
      }
      assert Cell(times[n - 1], start, interval) == Cell(times[n], start, interval) ==> !Accepts(times, interval);
    }
  }

  // ---- the pacer that restarts from the present ----

  function Restart(now: nat, interval: nat, due: nat): Verdict {
    if interval == 0 || now < due then Verdict(false, due) else Verdict(true, now + interval)
  }

  function RestartDue(times: seq<nat>, interval: nat): nat {
    if times == [] then 0
    else Restart(times[|times| - 1], interval, RestartDue(times[..|times| - 1], interval)).due
  }

  function PhaseCount(times: seq<nat>, interval: nat): nat {
    if times == [] then 0
    else PhaseCount(times[..|times| - 1], interval) + (if Accepts(times, interval) then 1 else 0)
  }

  function RestartCount(times: seq<nat>, interval: nat): nat {
    if times == [] then 0
    else
      var before := times[..|times| - 1];
      RestartCount(before, interval) + (if Restart(times[|times| - 1], interval, RestartDue(before, interval)).accept then 1 else 0)
  }

  /** A present that the restarting pacer accepts lies in a later cell than the present it
      accepted before, which was `due - interval`. */
  lemma RestartCells(start: nat, interval: nat, previous: nat, now: nat, due: nat)
    requires interval > 0 && start + interval <= due <= previous + interval && previous <= now
    ensures var k, c, cell := Cell(due - interval, start, interval), Cell(previous, start, interval), Cell(now, start, interval);
            k <= c <= cell && (now >= due ==> k < cell)
  {
    CellMonotone(previous, now, start, interval);
    CellMonotone(due - interval, previous, start, interval);
    if now >= due {
      var k := Cell(due - interval, start, interval);
      GridStep(start, interval, k, 0);
      GridOrder(start, interval, Cell(now, start, interval) + 1, k + 1);
    }
  }

  /** The restarting pacer's deadline is one interval after its last accepted present. What
      it has accepted so far is strictly less if it still owes the present cell. */
  ghost predicate Lags(times: seq<nat>, interval: nat)
    requires interval > 0 && times != [] && times[0] <= times[|times| - 1]
  {
    var start, last, due := times[0], times[|times| - 1], RestartDue(times, interval);
    && start + interval <= due <= last + interval
    && RestartCount(times, interval) <= PhaseCount(times, interval)
    && (Cell(due - interval, start, interval) < Cell(last, start, interval) ==>
          RestartCount(times, interval) < PhaseCount(times, interval))
  }

  lemma {:induction false} RestartLags(times: seq<nat>, interval: nat)
    requires interval > 0 && times != [] && Nondecreasing(times)
    ensures Lags(times, interval)
  {
    var n := |times| - 1;
    var start, now := times[0], times[n];
    if n == 0 {
      assert times[..0] == [];
      assert RestartDue(times, interval) == now + interval;
      assert Accepts(times, interval);
      assert RestartCount(times, interval) == 1 == PhaseCount(times, interval);
    } else {
      var before := times[..n];
      RestartLags(before, interval);
      DeadlineOnGrid(before, interval);
      DueInCell(start, interval, Cell(times[n - 1], start, interval), now);
      RestartCells(start, interval, times[n - 1], now, RestartDue(before, interval));
    }
  }

  /** Keeping the phase never captures fewer frames than restarting it. */
  lemma PhaseCapturesMost(times: seq<nat>, interval: nat)
    requires interval > 0 && Nondecreasing(times)
    ensures RestartCount(times, interval) <= PhaseCount(times, interval)
  {
    if times != [] { RestartLags(times, interval); }
  }

  // ---- the Xwayland pacer ----

  function Admit(now: nat, interval: nat, due: nat): Verdict {
    if due != 0 && now < due then Verdict(false, due)
    else Verdict(true, if due == 0 || now - due >= interval then now + interval else due + interval)
  }

  /** Exactly the presents from the deadline on are admitted. The next deadline lies after the
      present and within one interval of it; it keeps the phase of the last one unless the
      present is late by a whole interval. */
  lemma AdmitExactly(now: nat, interval: nat, due: nat)
    requires interval > 0
    ensures var v := Admit(now, interval, due);
            && (v.accept <==> due == 0 || due <= now)
            && (v.accept ==> now < v.due <= now + interval)
            && (v.accept && 0 < due && now < due + interval ==> v.due - due == interval)
            && (v.accept && !(0 < due && now < due + interval) ==> v.due - now == interval)
            && (!v.accept ==> v.due == due)
  {
  }

  /** `admitted` are the times of consecutive admitted presents, each admitted by the
      deadline that the previous one left. */
  predicate Admitted(admitted: seq<nat>, interval: nat, due: nat) {
    admitted == [] || (Admit(admitted[0], interval, due).accept &&
                       Admitted(admitted[1..], interval, Admit(admitted[0], interval, due).due))
  }

  lemma {:induction false} AdmittedAfter(admitted: seq<nat>, interval: nat, due: nat)
    requires interval > 0 && due > 0 && Admitted(admitted, interval, due) && admitted != []
    ensures admitted[|admitted| - 1] >= due + (|admitted| - 1) * interval
  {
    if |admitted| > 1 {
      var next := Admit(admitted[0], interval, due).due;
      AdmittedAfter(admitted[1..], interval, next);
      assert due + interval <= next;
      assert (|admitted| - 2) * interval + interval == (|admitted| - 1) * interval;
    }
  }

  /** From the first present on, `n` admitted presents span at least `n - 1` intervals. */
  lemma AdmittedSpan(admitted: seq<nat>, interval: nat)
    requires interval > 0 && admitted != [] && Admitted(admitted, interval, 0)
    ensures admitted[|admitted| - 1] - admitted[0] >= (|admitted| - 1) * interval
  {
    if |admitted| > 1 {
      AdmittedAfter(admitted[1..], interval, admitted[0] + interval);
      assert (|admitted| - 2) * interval + interval == (|admitted| - 1) * interval;
    }
  }

  /** Any `n` consecutive admitted presents span more than `n - 2` intervals. */
  lemma AdmittedWindow(admitted: seq<nat>, interval: nat, due: nat)
    requires interval > 0 && due > 0 && |admitted| > 1 && Admitted(admitted, interval, due)
    ensures admitted[|admitted| - 1] - admitted[0] > (|admitted| - 2) * interval
  {
    AdmittedAfter(admitted[1..], interval, Admit(admitted[0], interval, due).due);
  }
}
