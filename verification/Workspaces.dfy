/** The desktop's output-to-workspace map and its windows: the `workspace`, `send`,
    `scratchpad` and `focus ID` commands, and the assignment of workspaces to outputs that
    are plugged in. Outputs are numbered in the order of their names, below `names`; number
    0 stands for the empty name that the code uses when there is no output. */
module Workspaces {
  import opened Collections
  import opened Options

  datatype Window = Window(id: nat, workspace: nat, output: nat, scratchpad: bool, floating: bool)

  datatype Desktop = Desktop(names: nat, shown: map<nat, nat>, windows: seq<Window>, limit: nat)

  datatype Command =
    | ShowWorkspace(n: nat, target: Option<nat>)
    | Send(n: nat, target: Option<nat>)
    | ScratchpadSend
    | ScratchpadShow
    | FocusId(id: nat)

  /** A command, with the active output and the focused window it finds. */
  datatype Input = Input(out: nat, focused: Option<nat>, cmd: Command)

  datatype Outcome = Done(desktop: Desktop) | Refused

  /** The first output below `bound`, in the order of names, that shows workspace `n`. */
  function FirstShowing(shown: map<nat, nat>, n: nat, except: Option<nat>, bound: nat): (r: Option<nat>)
    ensures r.Some? ==> r.value in shown && shown[r.value] == n && Some(r.value) != except && r.value < bound
    ensures r.Some? ==> forall o :: o in shown && Some(o) != except && o < r.value ==> shown[o] != n
    ensures r.None? ==> forall o :: o in shown && Some(o) != except && o < bound ==> shown[o] != n
  {
    if bound == 0 then None
    else
      var r := FirstShowing(shown, n, except, bound - 1);
      if r.Some? then r
      else if bound - 1 in shown && Some(bound - 1) != except && shown[bound - 1] == n then Some(bound - 1)
      else None
  }

  function Shows(shown: map<nat, nat>, out: nat): nat { if out in shown then shown[out] else 1 }

  function PutWindow(d: Desktop, i: nat, w: Window): Desktop
    requires i < |d.windows|
  {
    d.(windows := d.windows[i := w])
  }

  // ---- the commands ----

  /** Windows of workspace `n` go to `out`; if `n` came from `other`, the workspace it takes
      in exchange brings its windows along. */
  function Rehome(w: Window, n: nat, out: nat, other: Option<nat>, previous: nat): Window {
    if other.Some? && w.workspace == previous && w.workspace != n then w.(output := other.value)
    else if w.workspace == n then w.(output := out)
    else w
  }

  function Showing(d: Desktop, out: nat, n: nat): Desktop {
    var previous := Shows(d.shown, out);
    var other := FirstShowing(d.shown, n, Some(out), d.names);
    d.(shown := (if other.Some? then d.shown[other.value := previous] else d.shown)[out := n],
       windows := seq(|d.windows|, i requires 0 <= i < |d.windows| => Rehome(d.windows[i], n, out, other, previous)))
  }

  function Sent(d: Desktop, out: nat, focused: Option<nat>, n: nat): Desktop {
    if focused.None? || focused.value >= |d.windows| then d
    else
      var owner := FirstShowing(d.shown, n, None, d.names);
      PutWindow(d, focused.value,
                d.windows[focused.value].(workspace := n, output := if owner.Some? then owner.value else out))
  }

  function FirstScratchpad(ws: seq<Window>): Option<nat> {
    if ws == [] then None
    else if ws[0].scratchpad then Some(0)
    else match FirstScratchpad(ws[1..]) case None => None case Some(i) => Some(i + 1)
  }

  lemma FirstScratchpadInRange(ws: seq<Window>)
    ensures FirstScratchpad(ws).Some? ==> FirstScratchpad(ws).value < |ws|
  {
  }

  function FirstWithId(ws: seq<Window>, id: nat): (r: Option<nat>)
    ensures r.Some? ==> r.value < |ws| && ws[r.value].id == id
    ensures r.None? ==> forall i :: 0 <= i < |ws| ==> ws[i].id != id
  {
    if ws == [] then None
    else if ws[0].id == id then Some(0)
    else match FirstWithId(ws[1..], id) case None => None case Some(i) => Some(i + 1)
  }

  /** `out` is the active output and `focused` the index of the focused window. */
  function Execute(d: Desktop, out: nat, focused: Option<nat>, cmd: Command): Outcome {
    match cmd
    case ShowWorkspace(n, target) =>
      if target.Some? && target.value !in d.shown then Refused
      else if n == 0 || n > d.limit then Refused
      else Done(Showing(d, if target.Some? then target.value else out, n))
    case Send(n, target) =>
      if target.Some? || n == 0 || n > d.limit then Refused else Done(Sent(d, out, focused, n))
    case ScratchpadSend =>
      if focused.None? || focused.value >= |d.windows| then Done(d)
      else Done(PutWindow(d, focused.value, d.windows[focused.value].(scratchpad := true)))
    case ScratchpadShow =>
      FirstScratchpadInRange(d.windows);
      match FirstScratchpad(d.windows) {
        case None => Done(d)
        case Some(i) =>
          Done(PutWindow(d, i, d.windows[i].(scratchpad := false, floating := true,
                                             workspace := Shows(d.shown, out), output := out)))
      }
    case FocusId(id) =>
      match FirstWithId(d.windows, id) {
        case None => Done(d)
        case Some(i) => Done(d.(shown := d.shown[d.windows[i].output := d.windows[i].workspace]))
      }
  }

  // ---- invariant ----

  /** No workspace is shown by two outputs. */
  ghost predicate Injective(shown: map<nat, nat>) {
    forall o, p :: o in shown && p in shown && shown[o] == shown[p] ==> o == p
  }

  /** Every window of a shown workspace is on the output that shows it. */
  ghost predicate Placed(d: Desktop) {
    forall i, o {:trigger d.windows[i], d.shown[o]} ::
      0 <= i < |d.windows| && o in d.shown && d.shown[o] == d.windows[i].workspace ==> d.windows[i].output == o
  }

  predicate WellFormed(d: Desktop) {
    && d.limit <= 9
    && (forall o :: o in d.shown ==> o < d.names && 1 <= d.shown[o] <= 9)
    && (forall i :: 0 <= i < |d.windows| ==> d.windows[i].output in d.shown && 1 <= d.windows[i].workspace <= 9)
  }

  ghost predicate Inv(d: Desktop) { WellFormed(d) && Injective(d.shown) && Placed(d) }

  /** Without `focus ID`, every command keeps the invariant, whatever is focused and
      whichever output is active. */
  lemma CommandKeepsInv(d: Desktop, out: nat, focused: Option<nat>, cmd: Command)
    requires Inv(d) && out in d.shown && !cmd.FocusId? && Execute(d, out, focused, cmd).Done?
    ensures Inv(Execute(d, out, focused, cmd).desktop)
    ensures Execute(d, out, focused, cmd).desktop.shown.Keys == d.shown.Keys
  {
    var r := Execute(d, out, focused, cmd).desktop;
    match cmd
    case ShowWorkspace(n, target) =>
      ShowingKeepsInv(d, if target.Some? then target.value else out, n);
    case Send(n, _) =>
      SentKeepsInv(d, out, focused, n);
    case ScratchpadSend =>
    case ScratchpadShow =>
      FirstScratchpadInRange(d.windows);
      var i := FirstScratchpad(d.windows);
      if i.Some? {
        PutKeepsInv(d, i.value, Window(d.windows[i.value].id, Shows(d.shown, out), out, false, true));
      }
  }

  lemma PutKeepsInv(d: Desktop, i: nat, w: Window)
    requires Inv(d) && i < |d.windows| && w.output in d.shown && 1 <= w.workspace <= 9
    requires forall o :: o in d.shown && d.shown[o] == w.workspace ==> w.output == o
    ensures Inv(PutWindow(d, i, w))
  {
  }

  lemma SentKeepsInv(d: Desktop, out: nat, focused: Option<nat>, n: nat)
    requires Inv(d) && out in d.shown && 1 <= n <= 9
    ensures Inv(Sent(d, out, focused, n))
  {
    var owner := FirstShowing(d.shown, n, None, d.names);
    if focused.Some? && focused.value < |d.windows| {
      PutKeepsInv(d, focused.value,
                  d.windows[focused.value].(workspace := n, output := if owner.Some? then owner.value else out));
    }
  }

  lemma ShowingKeepsInv(d: Desktop, out: nat, n: nat)
    requires Inv(d) && out in d.shown && 1 <= n <= d.limit
    ensures Inv(Showing(d, out, n)) && Showing(d, out, n).shown.Keys == d.shown.Keys
    ensures Showing(d, out, n).shown[out] == n
  {
    var r := Showing(d, out, n);
    var previous, other := Shows(d.shown, out), FirstShowing(d.shown, n, Some(out), d.names);
    forall i, o | 0 <= i < |r.windows| && o in r.shown && r.shown[o] == r.windows[i].workspace
      ensures r.windows[i].output == o
    {
      assert r.windows[i] == Rehome(d.windows[i], n, out, other, previous);
      assert d.shown[o] == d.windows[i].workspace ==> d.windows[i].output == o;
    }
  }

  /** What showing a workspace does to the map: the output shows it, the output that showed
      it before gets the other workspace, and no other output changes. */
  lemma ShowingSwaps(d: Desktop, out: nat, n: nat, p: nat)
    requires Inv(d) && out in d.shown && p in d.shown
    ensures var r := Showing(d, out, n);
            p in r.shown && r.shown[p] == if p == out then n else if d.shown[p] == n then d.shown[out] else d.shown[p]
  {
    var other := FirstShowing(d.shown, n, Some(out), d.names);
    assert other.Some? && p != other.value && p != out ==> d.shown[p] != n;
  }

  /** Going back to the workspace shown before restores the map, and the windows too exactly
      if some output showed the workspace or its windows were on this output. */
  lemma ShowingBack(d: Desktop, out: nat, n: nat)
    requires Inv(d) && out in d.shown && 1 <= n <= d.limit && d.shown[out] <= d.limit
    ensures var back := Showing(Showing(d, out, n), out, d.shown[out]);
            && back.shown == d.shown
            && (back == d <==> n in d.shown.Values || forall w :: w in d.windows && w.workspace == n ==> w.output == out)
  {
    var r, previous := Showing(d, out, n), d.shown[out];
    var back := Showing(r, out, previous);
    ShowingKeepsInv(d, out, n);
    forall p | p in d.shown
      ensures p in back.shown && back.shown[p] == d.shown[p]
    {
      ShowingSwaps(d, out, n, p);
      ShowingSwaps(r, out, previous, p);
    }
    ShowingKeepsInv(r, out, previous);
    assert back.shown == d.shown;
    BackWindows(d, out, n);
  }

  lemma BackWindows(d: Desktop, out: nat, n: nat)
    requires Inv(d) && out in d.shown && 1 <= n <= d.limit
    ensures Showing(Showing(d, out, n), out, d.shown[out]).windows == d.windows <==>
              n in d.shown.Values || forall w :: w in d.windows && w.workspace == n ==> w.output == out
  {
    var windows := Showing(Showing(d, out, n), out, d.shown[out]).windows;
    forall i | 0 <= i < |d.windows|
      ensures i < |windows| && windows[i] ==
        if n !in d.shown.Values && d.windows[i].workspace == n then d.windows[i].(output := out) else d.windows[i]
    {
      BackWindow(d, out, n, i);
    }
  }

  lemma BackWindow(d: Desktop, out: nat, n: nat, i: nat)
    requires Inv(d) && out in d.shown && 1 <= n <= d.limit && i < |d.windows|
    ensures var w, back := d.windows[i], Showing(Showing(d, out, n), out, d.shown[out]);
            |back.windows| == |d.windows| &&
            back.windows[i] == if n !in d.shown.Values && w.workspace == n then w.(output := out) else w
  {
    var r, previous, w := Showing(d, out, n), d.shown[out], d.windows[i];
    var other := FirstShowing(d.shown, n, Some(out), d.names);
    var other' := FirstShowing(r.shown, previous, Some(out), d.names);
    ShowingKeepsInv(d, out, n);
    assert other == other' by {
      if other.Some? {
        ShowingSwaps(d, out, n, other.value);
      }
      if other'.Some? {
        ShowingSwaps(d, out, n, other'.value);
      }
    }
    assert n in d.shown.Values <==> other.Some? || previous == n by {
      if other.Some? { assert d.shown[other.value] in d.shown.Values; }
      assert d.shown[out] in d.shown.Values;
    }
    assert r.windows[i] == Rehome(w, n, out, other, previous);
    assert w.workspace == previous ==> w.output == out;
    assert other.Some? && w.workspace == n ==> w.output == other.value;
  }

  /** `focus ID` keeps the invariant exactly if the windows of the target's workspace agree
      on their output. */
  lemma FocusKeepsExactly(d: Desktop, out: nat, focused: Option<nat>, i: nat)
    requires Inv(d) && i < |d.windows| && FirstWithId(d.windows, d.windows[i].id) == Some(i)
    ensures var w := d.windows[i];
            Inv(Execute(d, out, focused, FocusId(w.id)).desktop) <==>
              forall j :: 0 <= j < |d.windows| && d.windows[j].workspace == w.workspace ==> d.windows[j].output == w.output
  {
    var w := d.windows[i];
    var r := Execute(d, out, focused, FocusId(w.id)).desktop;
    assert r.windows == d.windows && r.shown == d.shown[w.output := w.workspace];
    if o :| o in d.shown && d.shown[o] == w.workspace {
      assert d.windows[i].output == o;
    }
    if Inv(r) {
      forall j | 0 <= j < |d.windows| && d.windows[j].workspace == w.workspace
        ensures d.windows[j].output == w.output
      {
        assert r.shown[w.output] == r.windows[j].workspace;
      }
    }
  }

  function TwoWindows(w0: nat, w1: nat): Desktop {
    Desktop(3, map[1 := 1, 2 := 2], [Window(10, w0, 1, false, false), Window(11, w1, 2, false, false)], 9)
  }

  lemma SendBoth()
    ensures Execute(TwoWindows(1, 2), 1, Some(0), Send(3, None)) == Done(TwoWindows(3, 2))
    ensures Execute(TwoWindows(3, 2), 2, Some(1), Send(3, None)) == Done(TwoWindows(3, 3))
  {
    assert FirstShowing(map[1 := 1, 2 := 2], 3, None, 3) == None;
  }

  lemma SendsRun()
    ensures RunCommands(TwoWindows(1, 2), [Input(1, Some(0), Send(3, None)), Input(2, Some(1), Send(3, None))])
         == TwoWindows(3, 3)
  {
    var first, second := Input(1, Some(0), Send(3, None)), Input(2, Some(1), Send(3, None));
    SendBoth();
    assert [first, second][1..] == [second] && [second][1..] == [];
    assert RunCommands(TwoWindows(3, 2), [second]) == RunCommands(TwoWindows(3, 3), []);
  }

  lemma TwoWindowsInv(w0: nat, w1: nat)
    requires (w0 == 1 && w1 == 2) || (w0 == 3 && w1 == 3)
    ensures Inv(TwoWindows(w0, w1))
  {
  }

  lemma FocusMisplaces()
    ensures !Inv(Execute(TwoWindows(3, 3), 2, Some(1), FocusId(10)).desktop)
  {
    var r := Execute(TwoWindows(3, 3), 2, Some(1), FocusId(10)).desktop;
    assert FirstWithId(TwoWindows(3, 3).windows, 10) == Some(0);
    assert r.shown[1] == r.windows[1].workspace && r.windows[1].output == 2;
    assert !Placed(r);
  }

  /** Two windows sent to the same hidden workspace from different outputs, and then
      `focus ID` on one of them: the other window stays behind. */
  lemma FocusCanMisplace()
    ensures Inv(TwoWindows(1, 2)) && Inv(TwoWindows(3, 3))
    ensures RunCommands(TwoWindows(1, 2), [Input(1, Some(0), Send(3, None)), Input(2, Some(1), Send(3, None))])
         == TwoWindows(3, 3)
    ensures !Inv(Execute(TwoWindows(3, 3), 2, Some(1), FocusId(10)).desktop)
  {
    TwoWindowsInv(1, 2);
    TwoWindowsInv(3, 3);
    SendsRun();
    FocusMisplaces();
  }

  // ---- what the other commands do ----

  /** A command is refused exactly if its number is out of range, it names an output where it
      may not, or it names one that is not there. */
  lemma RefusedExactly(d: Desktop, out: nat, focused: Option<nat>, cmd: Command)
    ensures Execute(d, out, focused, cmd).Refused? <==>
              || (cmd.ShowWorkspace? && (cmd.n == 0 || cmd.n > d.limit || (cmd.target.Some? && cmd.target.value !in d.shown)))
              || (cmd.Send? && (cmd.n == 0 || cmd.n > d.limit || cmd.target.Some?))
  {
  }

  /** Sending moves the focused window, and no other, to the workspace, and to the output that
      shows it, or else to the active one. */
  lemma SendMoves(d: Desktop, out: nat, i: nat, n: nat, o: nat)
    requires Inv(d) && i < |d.windows| && 1 <= n <= d.limit
    requires if n in d.shown.Values then o in d.shown && d.shown[o] == n else o == out
    ensures Execute(d, out, Some(i), Send(n, None)) ==
              Done(d.(windows := d.windows[i := d.windows[i].(workspace := n, output := o)]))
  {
    var owner := FirstShowing(d.shown, n, None, d.names);
    if owner.Some? { assert d.shown[owner.value] in d.shown.Values; }
  }

  /** Showing the scratchpad after a window was sent there brings that window to the active
      output and its workspace, floating and no longer marked, unless an earlier window is
      marked; and nothing else changes. */
  lemma ScratchpadReturns(d: Desktop, out: nat, i: nat, later: nat, focused: Option<nat>)
    requires i < |d.windows| && later in d.shown && forall k :: 0 <= k < i ==> !d.windows[k].scratchpad
    ensures var sent := Execute(d, out, Some(i), ScratchpadSend);
            && sent.Done?
            && Execute(sent.desktop, later, focused, ScratchpadShow) ==
                 Done(d.(windows := d.windows[i := d.windows[i].(
                   scratchpad := false, floating := true, workspace := d.shown[later], output := later)]))
  {
    var sent := Execute(d, out, Some(i), ScratchpadSend).desktop;
    FirstScratchpadIs(sent.windows, i);
    var w := d.windows[i].(scratchpad := false, floating := true, workspace := d.shown[later], output := later);
    assert sent.windows[i := w] == d.windows[i := w];
  }

  /** `focus ID` shows the window's workspace on the window's output, and changes nothing else. */
  lemma FocusShows(d: Desktop, out: nat, focused: Option<nat>, i: nat)
    requires i < |d.windows| && forall k :: 0 <= k < i ==> d.windows[k].id != d.windows[i].id
    ensures Execute(d, out, focused, FocusId(d.windows[i].id)) ==
              Done(d.(shown := d.shown[d.windows[i].output := d.windows[i].workspace]))
  {
    FirstWithIdIs(d.windows, d.windows[i].id, i);
  }

  // ---- runs of commands ----

  function RunCommands(d: Desktop, inputs: seq<Input>): Desktop
    decreases |inputs|
  {
    if inputs == [] then d
    else
      var o := Execute(d, inputs[0].out, inputs[0].focused, inputs[0].cmd);
      RunCommands(if o.Done? then o.desktop else d, inputs[1..])
  }

  lemma {:induction false} RunKeepsInv(d: Desktop, inputs: seq<Input>)
    requires Inv(d)
    requires forall k :: 0 <= k < |inputs| ==> inputs[k].out in d.shown && !inputs[k].cmd.FocusId?
    ensures Inv(RunCommands(d, inputs)) && RunCommands(d, inputs).shown.Keys == d.shown.Keys
    decreases |inputs|
  {
    if inputs != [] {
      var o := Execute(d, inputs[0].out, inputs[0].focused, inputs[0].cmd);
      if o.Done? { CommandKeepsInv(d, inputs[0].out, inputs[0].focused, inputs[0].cmd); }
      RunKeepsInv(if o.Done? then o.desktop else d, inputs[1..]);
    }
  }

  // ---- plugging outputs in and out ----

  /** The lowest workspace from `n` to 9 that no output shows, or 1. */
  function FirstFree(shown: map<nat, nat>, n: nat): (r: nat)
    requires 1 <= n <= 10
    ensures 1 <= r <= 9
    ensures r !in shown.Values || forall m :: n <= m <= 9 ==> m in shown.Values
    ensures forall m :: n <= m < r ==> m in shown.Values
    ensures (forall m :: n <= m <= 9 ==> m in shown.Values) ==> r == 1
    decreases 10 - n
  {
    if n == 10 then 1 else if n !in shown.Values then n else FirstFree(shown, n + 1)
  }

  function Assigned(shown: map<nat, nat>, outputs: seq<nat>): map<nat, nat>
    decreases |outputs|
  {
    if outputs == [] then shown
    else Assigned(if outputs[0] in shown then shown else shown[outputs[0] := FirstFree(shown, 1)], outputs[1..])
  }

  function Retained(shown: map<nat, nat>, outputs: seq<nat>): map<nat, nat> {
    map o | o in shown && o in outputs :: shown[o]
  }

  function Plugged(d: Desktop, outputs: seq<nat>): Desktop {
    var first := if outputs == [] then 0 else outputs[0];
    d.(shown := Assigned(Retained(d.shown, outputs), outputs),
       windows := seq(|d.windows|, i requires 0 <= i < |d.windows| =>
         if d.windows[i].output in outputs then d.windows[i] else d.windows[i].(output := first)))
  }

  lemma ValuesAdd(shown: map<nat, nat>, o: nat, n: nat)
    requires o !in shown
    ensures var r := shown[o := n];
            && r.Keys == shown.Keys + {o} && r.Values == shown.Values + {n}
            && (Injective(r) <==> Injective(shown) && n !in shown.Values)
  {
    var r := shown[o := n];
    assert r[o] == n;
    assert forall p :: p in shown ==> r[p] == shown[p] && shown[p] in shown.Values;
    if Injective(r) {
      forall p, q | p in shown && q in shown && shown[p] == shown[q]
        ensures p == q
      {
        assert r[p] == r[q];
      }
      forall p | p in shown
        ensures shown[p] != n
      {
        assert r[p] == shown[p];
      }
    }
  }

  lemma {:induction false} ValuesFit(shown: map<nat, nat>)
    ensures |shown.Values| <= |shown.Keys|
    ensures Injective(shown) <==> |shown.Values| == |shown.Keys|
    decreases |shown|
  {
    if shown.Keys == {} {
      assert shown.Values == {};
    } else {
      var o :| o in shown;
      var rest := shown - {o};
      ValuesFit(rest);
      ValuesAdd(rest, o, shown[o]);
      assert shown == rest[o := shown[o]];
    }
  }

  lemma FreeIsUnused(shown: map<nat, nat>)
    requires |shown.Keys| < 9
    ensures FirstFree(shown, 1) !in shown.Values
  {
    if Range(1, 10) <= shown.Values {
      SubsetSize(Range(1, 10), shown.Values);
      ValuesFit(shown);
      assert false;
    }
  }

  lemma {:induction false} AssignedExtends(shown: map<nat, nat>, outputs: seq<nat>)
    ensures var r := Assigned(shown, outputs);
            && r.Keys == shown.Keys + Members(outputs)
            && (forall o :: o in shown ==> r[o] == shown[o])
            && (forall o :: o in r ==> o in shown || 1 <= r[o] <= 9)
    decreases |outputs|
  {
    if outputs != [] {
      var o := outputs[0];
      assert Members(outputs) == {o} + Members(outputs[1..]) by { assert outputs == [o] + outputs[1..]; }
      AssignedExtends(if o in shown then shown else shown[o := FirstFree(shown, 1)], outputs[1..]);
    }
  }

  /** A new output gets the lowest workspace that is shown neither by an output that stayed
      nor by a new one before it, or 1 if there is none: every lower one is taken. */
  lemma {:induction false} AssignedLowest(shown: map<nat, nat>, outputs: seq<nat>, k: nat, m: nat)
    requires k < |outputs| && outputs[k] !in shown && outputs[k] !in outputs[..k]
    requires outputs[k] in Assigned(shown, outputs) && 1 <= m < Assigned(shown, outputs)[outputs[k]]
    ensures var r := Assigned(shown, outputs);
            || (exists p :: p in shown && shown[p] == m)
            || exists j :: 0 <= j < k && outputs[j] in r && r[outputs[j]] == m
    decreases |outputs|
  {
    var o, rest := outputs[0], outputs[1..];
    var next := if o in shown then shown else shown[o := FirstFree(shown, 1)];
    AssignedExtends(shown, outputs);
    AssignedExtends(next, rest);
    assert outputs[k] in Members(outputs);
    if k > 0 {
      assert outputs[k] == rest[k - 1] && outputs[..k] == [o] + rest[..k - 1];
      AssignedLowest(next, rest, k - 1, m);
      if p :| p in next && next[p] == m {
        if p !in shown { assert outputs[0] in Assigned(shown, outputs) && Assigned(shown, outputs)[outputs[0]] == m; }
      } else {
        var j :| 0 <= j < k - 1 && rest[j] in Assigned(next, rest) && Assigned(next, rest)[rest[j]] == m;
        assert outputs[j + 1] in Assigned(shown, outputs) && Assigned(shown, outputs)[outputs[j + 1]] == m;
      }
    }
  }

  /** Windows of outputs that are gone move to the first output that is left; nothing else
      about any window changes. */
  lemma PluggedWindows(d: Desktop, outputs: seq<nat>, i: nat)
    requires i < |d.windows| && outputs != []
    ensures var r := Plugged(d, outputs);
            && |r.windows| == |d.windows|
            && r.windows[i] == d.windows[i].(output := if d.windows[i].output in outputs then d.windows[i].output else outputs[0])
  {
  }

  lemma FreeKeepsInjective(shown: map<nat, nat>, o: nat, all: set<nat>)
    requires Injective(shown) && o !in shown && shown.Keys <= all && o in all && |all| <= 9
    ensures Injective(shown[o := FirstFree(shown, 1)])
  {
    SubsetSize(shown.Keys + {o}, all);
    FreeIsUnused(shown);
    ValuesAdd(shown, o, FirstFree(shown, 1));
  }

  lemma {:induction false} AssignedInjective(shown: map<nat, nat>, outputs: seq<nat>, all: set<nat>)
    requires Injective(shown) && shown.Keys <= all && |all| <= 9
    requires forall k :: 0 <= k < |outputs| ==> outputs[k] in all
    ensures Injective(Assigned(shown, outputs))
    decreases |outputs|
  {
    if outputs != [] {
      var o := outputs[0];
      if o !in shown { FreeKeepsInjective(shown, o, all); }
      AssignedInjective(if o in shown then shown else shown[o := FirstFree(shown, 1)], outputs[1..], all);
    }
  }

  lemma InjectiveFitsNine(shown: map<nat, nat>)
    requires Injective(shown) && forall o :: o in shown ==> 1 <= shown[o] <= 9
    ensures |shown.Keys| <= 9
  {
    ValuesFit(shown);
    SubsetSize(shown.Values, Range(1, 10));
  }

  /** After outputs were plugged in or out, no workspace is shown twice exactly if there
      are at most nine outputs; outputs that stayed keep their workspace. */
  lemma PluggedInjectiveExactly(d: Desktop, outputs: seq<nat>)
    requires WellFormed(d) && Injective(d.shown)
    ensures var shown := Plugged(d, outputs).shown;
            && shown.Keys == Members(outputs)
            && (forall o :: o in d.shown && o in outputs ==> shown[o] == d.shown[o])
            && (Injective(shown) <==> |shown.Keys| <= 9)
  {
    var kept := Retained(d.shown, outputs);
    var shown := Assigned(kept, outputs);
    AssignedExtends(kept, outputs);
    assert kept.Keys + Members(outputs) == Members(outputs);
    if |shown.Keys| <= 9 {
      AssignedInjective(kept, outputs, Members(outputs));
    }
    if Injective(shown) {
      InjectiveFitsNine(shown);
    }
  }

  /** A workspace given to a new output has no windows on the outputs that stayed, and has
      windows of unplugged outputs only if the new output is the first one, which takes those
      windows over. */
  ghost predicate NewOutputsFit(d: Desktop, outputs: seq<nat>) {
    var shown := Plugged(d, outputs).shown;
    forall i, o {:trigger d.windows[i], shown[o]} ::
      0 <= i < |d.windows| && o in outputs && o !in d.shown && o in shown && shown[o] == d.windows[i].workspace ==>
      d.windows[i].output !in outputs && o == outputs[0]
  }

  /** After outputs were plugged in or out, every window of a shown workspace is on the
      output that shows it, exactly if the workspaces given to new outputs fit. */
  lemma PluggedPlacedExactly(d: Desktop, outputs: seq<nat>)
    requires Inv(d)
    ensures Placed(Plugged(d, outputs)) <==> NewOutputsFit(d, outputs)
  {
    var kept, r := Retained(d.shown, outputs), Plugged(d, outputs);
    AssignedExtends(kept, outputs);
    assert forall o :: o in r.shown <==> o in Members(outputs);
    if Placed(r) {
      forall i, o | 0 <= i < |d.windows| && o in outputs && o !in d.shown
                    && o in r.shown && r.shown[o] == d.windows[i].workspace
        ensures d.windows[i].output !in outputs && o == outputs[0]
      {
        assert r.shown[o] == r.windows[i].workspace;
      }
    }
    if NewOutputsFit(d, outputs) {
      forall i, o | 0 <= i < |r.windows| && o in r.shown && r.shown[o] == r.windows[i].workspace
        ensures r.windows[i].output == o
      {
        assert o in Members(outputs);
        if o in d.shown { assert d.shown[o] == d.windows[i].workspace; }
      }
    }
  }

  function Joined(w: nat): Desktop { Desktop(3, map[1 := 1], [Window(10, w, 1, false, false)], 9) }

  lemma JoinedKeepsInv(w: nat)
    requires 1 <= w <= 2
    ensures Inv(Joined(w))
  {
  }

  lemma SendToHidden()
    ensures Inv(Joined(1)) && Execute(Joined(1), 1, Some(0), Send(2, None)) == Done(Joined(2)) && Inv(Joined(2))
  {
    JoinedKeepsInv(1);
    JoinedKeepsInv(2);
    assert FirstShowing(map[1 := 1], 2, None, 3) == None;
    assert Joined(1).windows[0 := Joined(1).windows[0].(workspace := 2, output := 1)] == Joined(2).windows;
  }

  /** A window is sent to a hidden workspace, and then a second output is plugged in: it
      shows that workspace, and the window stays on the first output. */
  lemma PluggedCanMisplace()
    ensures Inv(Joined(1)) && Execute(Joined(1), 1, Some(0), Send(2, None)) == Done(Joined(2))
    ensures !Placed(Plugged(Joined(2), [1, 2]))
  {
    SendToHidden();
    var shown := map[1 := 1];
    assert [1, 2][1..] == [2] && [2][1..] == [];
    assert Retained(shown, [1, 2]) == shown;
    assert 1 in shown && shown[1] in shown.Values && 2 !in shown.Values;
    assert FirstFree(shown, 1) == FirstFree(shown, 2) == 2;
    assert Assigned(shown, [1, 2]) == Assigned(shown, [2]) == Assigned(shown[2 := 2], []);
    var r := Plugged(Joined(2), [1, 2]);
    assert r.shown[2] == r.windows[0].workspace && r.windows[0].output == 1;
  }

  /** Unplugging outputs, while one remains, keeps the invariant. */
  lemma UnplugKeepsInv(d: Desktop, outputs: seq<nat>)
    requires Inv(d) && outputs != [] && Members(outputs) <= d.shown.Keys
    ensures Inv(Plugged(d, outputs)) && Plugged(d, outputs).shown.Keys == Members(outputs)
  {
    var kept, r := Retained(d.shown, outputs), Plugged(d, outputs);
    AssignedExtends(kept, outputs);
    assert kept.Keys == Members(outputs);
    assert outputs[0] in Members(outputs);
    forall i, o | 0 <= i < |r.windows| && o in r.shown && r.shown[o] == r.windows[i].workspace
      ensures r.windows[i].output == o
    {
      assert o in d.shown && d.shown[o] == d.windows[i].workspace;
    }
  }

  // ---- the code ----

  class DesktopState {
    const names: nat
    const limit: nat
    var shown: map<nat, nat>
    var windows: seq<Window>

    constructor (names: nat, limit: nat)
      ensures Value() == Desktop(names, map[], [], limit)
    {
      this.names, this.limit, shown, windows := names, limit, map[], [];
    }

    function Value(): Desktop
      reads this
    {
      Desktop(names, shown, windows, limit)
    }

    method FindShowing(n: nat, except: Option<nat>) returns (r: Option<nat>)
      ensures r == FirstShowing(shown, n, except, names)
    {
      var o := 0;
      r := None;
      while o < names && r.None?
        invariant o <= names
        invariant r == FirstShowing(shown, n, except, o)
      {
        if o in shown && Some(o) != except && shown[o] == n { r := Some(o); }
        o := o + 1;
      }
      FirstShowingStays(shown, n, except, o, names);
    }

    method SwapWindows(previous: nat, n: nat, other: nat, out: nat)
      modifies this`windows
      ensures |windows| == |old(windows)|
      ensures forall i :: 0 <= i < |windows| ==>
        windows[i] == (var w := old(windows)[i];
                       if w.workspace == previous then w.(output := other)
                       else if w.workspace == n then w.(output := out) else w)
    {
      ghost var was := windows;
      var k := 0;
      while k < |windows|
        invariant k <= |windows| == |was|
        invariant forall i :: k <= i < |was| ==> windows[i] == was[i]
        invariant forall i :: 0 <= i < k ==>
          windows[i] == (if was[i].workspace == previous then was[i].(output := other)
                         else if was[i].workspace == n then was[i].(output := out) else was[i])
      {
        var w := windows[k];
        if w.workspace == previous {
          windows := windows[k := w.(output := other)];
        } else if w.workspace == n {
          windows := windows[k := w.(output := out)];
        }
        k := k + 1;
      }
    }

    method PullWindows(n: nat, out: nat)
      modifies this`windows
      ensures |windows| == |old(windows)|
      ensures forall i :: 0 <= i < |windows| ==>
        windows[i] == (var w := old(windows)[i]; if w.workspace == n then w.(output := out) else w)
    {
      ghost var was := windows;
      var k := 0;
      while k < |windows|
        invariant k <= |windows| == |was|
        invariant forall i :: k <= i < |was| ==> windows[i] == was[i]
        invariant forall i :: 0 <= i < k ==>
          windows[i] == (if was[i].workspace == n then was[i].(output := out) else was[i])
      {
        if windows[k].workspace == n { windows := windows[k := windows[k].(output := out)]; }
        k := k + 1;
      }
    }

    method Show(out: nat, n: nat)
      modifies this
      ensures Value() == Showing(old(Value()), out, n)
    {
      ghost var was := Value();
      var previous := Shows(shown, out);
      var other := FindShowing(n, Some(out));
      if other.Some? {
        shown := shown[other.value := previous];
        SwapWindows(previous, n, other.value, out);
      }
      shown := shown[out := n];
      PullWindows(n, out);
      assert windows == Showing(was, out, n).windows;
    }

    method SendFocused(out: nat, focused: Option<nat>, n: nat)
      modifies this
      ensures Value() == Sent(old(Value()), out, focused, n)
    {
      if focused.Some? && focused.value < |windows| {
        var owner := FindShowing(n, None);
        var w := windows[focused.value];
        windows := windows[focused.value := w.(workspace := n, output := if owner.Some? then owner.value else out)];
      }
    }

    method FindScratchpad() returns (r: Option<nat>)
      ensures r == FirstScratchpad(windows)
    {
      var i := 0;
      while i < |windows|
        invariant i <= |windows|
        invariant forall k :: 0 <= k < i ==> !windows[k].scratchpad
      {
        if windows[i].scratchpad {
          FirstScratchpadIs(windows, i);
          return Some(i);
        }
        i := i + 1;
      }
      NoScratchpad(windows);
      r := None;
    }

    method FindId(id: nat) returns (r: Option<nat>)
      ensures r == FirstWithId(windows, id)
    {
      var i := 0;
      while i < |windows|
        invariant i <= |windows|
        invariant forall k :: 0 <= k < i ==> windows[k].id != id
      {
        if windows[i].id == id {
          FirstWithIdIs(windows, id, i);
          return Some(i);
        }
        i := i + 1;
      }
      r := None;
    }

    /** The commands modelled here, with their error returns. */
    method DesktopCommand(out: nat, focused: Option<nat>, cmd: Command) returns (ok: bool)
      modifies this
      ensures ok == Execute(old(Value()), out, focused, cmd).Done?
      ensures Value() == if ok then Execute(old(Value()), out, focused, cmd).desktop else old(Value())
    {
      ok := true;
      match cmd
      case ShowWorkspace(n, target) =>
        if target.Some? && target.value !in shown { return false; }
        if n == 0 || n > limit { return false; }
        Show(if target.Some? then target.value else out, n);
      case Send(n, target) =>
        if target.Some? { return false; }
        if n == 0 || n > limit { return false; }
        SendFocused(out, focused, n);
      case ScratchpadSend =>
        if focused.Some? && focused.value < |windows| {
          windows := windows[focused.value := windows[focused.value].(scratchpad := true)];
        }
      case ScratchpadShow =>
        FirstScratchpadInRange(windows);
        var i := FindScratchpad();
        if i.Some? {
          var w := windows[i.value];
          windows := windows[i.value := w.(scratchpad := false, floating := true,
                                           workspace := Shows(shown, out), output := out)];
        }
      case FocusId(id) =>
        var i := FindId(id);
        if i.Some? { shown := shown[windows[i.value].output := windows[i.value].workspace]; }
    }

    method FindFree() returns (n: nat)
      ensures n == FirstFree(shown, 1)
    {
      n := 1;
      while n <= 9
        invariant 1 <= n <= 10
        invariant FirstFree(shown, 1) == FirstFree(shown, n)
      {
        if n !in shown.Values { return; }
        n := n + 1;
      }
      n := 1;
    }

    /** What `maintain_desktop` does with the outputs that are plugged in now. */
    method MaintainOutputs(outputs: seq<nat>)
      modifies this
      ensures Value() == Plugged(old(Value()), outputs)
    {
      ghost var was := Value();
      shown := map o | o in shown && o in outputs :: shown[o];
      var k := 0;
      while k < |outputs|
        invariant k <= |outputs|
        invariant windows == was.windows
        invariant Assigned(Retained(was.shown, outputs), outputs) == Assigned(shown, outputs[k..])
      {
        assert outputs[k..][0] == outputs[k] && outputs[k..][1..] == outputs[k + 1..];
        if outputs[k] !in shown {
          var n := FindFree();
          shown := shown[outputs[k] := n];
        }
        k := k + 1;
      }
      var defaultOut := if outputs == [] then 0 else outputs[0];
      k := 0;
      while k < |windows|
        invariant k <= |windows| == |was.windows|
        invariant shown == Assigned(Retained(was.shown, outputs), outputs)
        invariant forall i :: k <= i < |windows| ==> windows[i] == was.windows[i]
        invariant forall i :: 0 <= i < k ==> windows[i] == Plugged(was, outputs).windows[i]
      {
        if windows[k].output !in outputs { windows := windows[k := windows[k].(output := defaultOut)]; }
        k := k + 1;
      }
      assert windows == Plugged(was, outputs).windows;
    }
  }

  lemma {:induction false} FirstShowingStays(shown: map<nat, nat>, n: nat, except: Option<nat>, low: nat, high: nat)
    requires low <= high && (low == high || FirstShowing(shown, n, except, low).Some?)
    ensures FirstShowing(shown, n, except, low) == FirstShowing(shown, n, except, high)
    decreases high
  {
    if low < high { FirstShowingStays(shown, n, except, low, high - 1); }
  }

  lemma {:induction false} FirstScratchpadIs(ws: seq<Window>, i: nat)
    requires i < |ws| && ws[i].scratchpad && forall k :: 0 <= k < i ==> !ws[k].scratchpad
    ensures FirstScratchpad(ws) == Some(i)
  {
    if i > 0 { FirstScratchpadIs(ws[1..], i - 1); }
  }

  lemma {:induction false} NoScratchpad(ws: seq<Window>)
    requires forall k :: 0 <= k < |ws| ==> !ws[k].scratchpad
    ensures FirstScratchpad(ws) == None
  {
    if ws != [] { NoScratchpad(ws[1..]); }
  }

  lemma {:induction false} FirstWithIdIs(ws: seq<Window>, id: nat, i: nat)
    requires i < |ws| && ws[i].id == id && forall k :: 0 <= k < i ==> ws[k].id != id
    ensures FirstWithId(ws, id) == Some(i)
  {
    if i > 0 { FirstWithIdIs(ws[1..], id, i - 1); }
  }
}
