/** The floating layer: after windows were mapped, floating windows are raised above the
    tiled ones, each layer keeping its order. Elements are listed from bottom to top. */
module Restack {
  import opened Collections

  /** The elements of `s` that are in `chosen` (or, if `inside` is false, that are not). */
  function Layer(s: seq<nat>, chosen: set<nat>, inside: bool): seq<nat> {
    if s == [] then []
    else (if (s[0] in chosen) == inside then [s[0]] else []) + Layer(s[1..], chosen, inside)
  }

  /** Tiled windows below floating windows. */
  function Restacked(s: seq<nat>, floating: set<nat>): seq<nat> {
    Layer(s, floating, false) + Layer(s, floating, true)
  }

  ghost predicate Below(s: seq<nat>, a: nat, b: nat) {
    exists i, j :: 0 <= i < j < |s| && s[i] == a && s[j] == b
  }

  lemma {:induction false} LayerAppend(s: seq<nat>, t: seq<nat>, chosen: set<nat>, inside: bool)
    ensures Layer(s + t, chosen, inside) == Layer(s, chosen, inside) + Layer(t, chosen, inside)
  {
    if s == [] {
      assert s + t == t;
    } else {
      var u := s + t;
      assert u[0] == s[0] && u[1..] == s[1..] + t;
      LayerAppend(s[1..], t, chosen, inside);
      var head := if (s[0] in chosen) == inside then [s[0]] else [];
      assert Layer(u, chosen, inside) == head + Layer(u[1..], chosen, inside);
    }
  }

  lemma {:induction false} LayerMember(s: seq<nat>, chosen: set<nat>, inside: bool, a: nat)
    ensures a in Layer(s, chosen, inside) <==> a in s && (a in chosen) == inside
  {
    if s != [] { LayerMember(s[1..], chosen, inside, a); }
  }

  lemma {:induction false} LayerOne(a: nat, chosen: set<nat>, inside: bool)
    ensures Layer([a], chosen, inside) == if (a in chosen) == inside then [a] else []
  {
    assert [a][1..] == [];
  }

  lemma BelowAppend(s: seq<nat>, t: seq<nat>, a: nat, b: nat)
    ensures Below(s + t, a, b) <==> Below(s, a, b) || Below(t, a, b) || (a in s && b in t)
  {
    var u := s + t;
    if Below(s, a, b) {
      var i, j :| 0 <= i < j < |s| && s[i] == a && s[j] == b;
      assert u[i] == a && u[j] == b;
    }
    if Below(t, a, b) {
      var i, j :| 0 <= i < j < |t| && t[i] == a && t[j] == b;
      assert u[|s| + i] == a && u[|s| + j] == b;
    }
    if a in s && b in t {
      var i :| 0 <= i < |s| && s[i] == a;
      var j :| 0 <= j < |t| && t[j] == b;
      assert u[i] == a && u[|s| + j] == b;
    }
    if Below(u, a, b) {
      var i, j :| 0 <= i < j < |u| && u[i] == a && u[j] == b;
      if j < |s| {
        assert s[i] == a && s[j] == b;
      } else if i >= |s| {
        assert t[i - |s|] == a && t[j - |s|] == b;
      } else {
        assert s[i] == a && t[j - |s|] == b;
      }
    }
  }

  lemma {:induction false} LayerBelow(s: seq<nat>, chosen: set<nat>, inside: bool, a: nat, b: nat)
    ensures Below(Layer(s, chosen, inside), a, b) <==>
              Below(s, a, b) && (a in chosen) == inside && (b in chosen) == inside
  {
    if s != [] {
      LayerBelow(s[1..], chosen, inside, a, b);
      assert s == [s[0]] + s[1..];
      BelowAppend([s[0]], s[1..], a, b);
      BelowAppend(if (s[0] in chosen) == inside then [s[0]] else [], Layer(s[1..], chosen, inside), a, b);
      LayerMember(s[1..], chosen, inside, b);
    }
  }

  /** What the new order means: a tiled window is below every floating one, and two windows
      of one kind stand as they stood before. */
  lemma RestackedOrder(s: seq<nat>, floating: set<nat>, a: nat, b: nat)
    requires a in s && b in s
    ensures Below(Restacked(s, floating), a, b) <==>
              if (a in floating) == (b in floating) then Below(s, a, b) else b in floating
  {
    var tiled, floats := Layer(s, floating, false), Layer(s, floating, true);
    BelowAppend(tiled, floats, a, b);
    LayerBelow(s, floating, false, a, b);
    LayerBelow(s, floating, true, a, b);
    LayerMember(s, floating, false, a);
    LayerMember(s, floating, true, b);
  }

  lemma {:induction false} RestackedPermutes(s: seq<nat>, floating: set<nat>)
    ensures multiset(Restacked(s, floating)) == multiset(s)
  {
    if s != [] {
      RestackedPermutes(s[1..], floating);
      assert s == [s[0]] + s[1..];
    }
  }

  /** Restacking what is already restacked changes nothing. */
  lemma RestackedTwice(s: seq<nat>, floating: set<nat>)
    ensures Restacked(Restacked(s, floating), floating) == Restacked(s, floating)
  {
    var tiled, floats := Layer(s, floating, false), Layer(s, floating, true);
    forall inside: bool
      ensures Layer(tiled + floats, floating, inside) == if inside then floats else tiled
    {
      LayerAppend(tiled, floats, floating, inside);
      forall x ensures x in tiled ==> x !in floating { LayerMember(s, floating, false, x); }
      forall x ensures x in floats ==> x in floating { LayerMember(s, floating, true, x); }
      LayerWhole(tiled, floating, false);
      LayerWhole(floats, floating, true);
    }
  }

  lemma {:induction false} LayerWhole(s: seq<nat>, chosen: set<nat>, inside: bool)
    requires forall x :: x in s ==> (x in chosen) == inside
    ensures Layer(s, chosen, inside) == s && Layer(s, chosen, !inside) == []
  {
    if s != [] {
      assert s[0] in s && forall x :: x in s[1..] ==> x in s;
      LayerWhole(s[1..], chosen, inside);
    }
  }

  // ---- the code ----

  /** Takes `a` out of `s` and puts it on top. */
  function Raised(s: seq<nat>, a: nat): seq<nat> { Layer(s, {a}, false) + [a] }

  lemma {:induction false} LayerTwice(s: seq<nat>, x: set<nat>, y: set<nat>)
    ensures Layer(Layer(s, x, false), y, false) == Layer(s, x + y, false)
  {
    if s != [] {
      LayerTwice(s[1..], x, y);
      LayerAppend(if s[0] in x then [] else [s[0]], Layer(s[1..], x, false), y, false);
      LayerOne(s[0], y, false);
    }
  }

  lemma {:induction false} LayerDistinct(s: seq<nat>, chosen: set<nat>, inside: bool)
    requires Distinct(s)
    ensures Distinct(Layer(s, chosen, inside))
  {
    if s != [] {
      LayerDistinct(s[1..], chosen, inside);
      LayerMember(s[1..], chosen, inside, s[0]);
    }
  }

  /** One more float raised, after those in `done`. */
  lemma RaiseNext(s: seq<nat>, done: seq<nat>, a: nat)
    requires a !in done
    ensures Raised(Layer(s, Members(done), false) + done, a) == Layer(s, Members(done + [a]), false) + done + [a]
  {
    LayerAppend(Layer(s, Members(done), false), done, {a}, false);
    LayerTwice(s, Members(done), {a});
    assert Members(done + [a]) == Members(done) + {a};
    LayerWhole(done, {a}, false);
  }

  class Space {
    var elements: seq<nat>
    var redraw: bool

    constructor ()
      ensures elements == [] && !redraw
    {
      elements, redraw := [], false;
    }

    method RaiseElement(a: nat)
      modifies this`elements
      ensures elements == Raised(old(elements), a)
    {
      var kept := [];
      var i := 0;
      while i < |elements|
        invariant i <= |elements| && elements == old(elements)
        invariant kept == Layer(elements[..i], {a}, false)
      {
        assert elements[..i + 1] == elements[..i] + [elements[i]];
        LayerNext(elements[..i], elements[i], {a}, false);
        if elements[i] != a { kept := kept + [elements[i]]; }
        i := i + 1;
      }
      assert elements[..i] == elements;
      elements := kept + [a];
    }

    /** The scan finds the floats in order, and whether the stack is out of order. */
    method Scan(floating: set<nat>) returns (floats: seq<nat>, needsRestack: bool)
      ensures floats == Layer(elements, floating, true)
      ensures needsRestack <==> elements != Restacked(elements, floating)
    {
      floats, needsRestack := [], false;
      var i := 0;
      while i < |elements|
        invariant i <= |elements|
        invariant floats == Layer(elements[..i], floating, true)
        invariant needsRestack <==> elements[..i] != Restacked(elements[..i], floating)
      {
        assert elements[..i + 1] == elements[..i] + [elements[i]];
        ScanStep(elements[..i], elements[i], floating);
        if elements[i] in floating {
          floats := floats + [elements[i]];
        } else if floats != [] {
          needsRestack := true;
        }
        i := i + 1;
      }
      assert elements[..i] == elements;
    }

    method RaiseAll(floats: seq<nat>)
      requires Distinct(floats)
      modifies this`elements
      ensures elements == Layer(old(elements), Members(floats), false) + floats
    {
      ghost var was := elements;
      var i := 0;
      assert Members(floats[..0]) == {};
      LayerWhole(was, {}, false);
      while i < |floats|
        invariant i <= |floats|
        invariant elements == Layer(was, Members(floats[..i]), false) + floats[..i]
      {
        assert floats[..i + 1] == floats[..i] + [floats[i]];
        RaiseNext(was, floats[..i], floats[i]);
        RaiseElement(floats[i]);
        i := i + 1;
      }
      assert floats[..i] == floats;
    }

    /** Only a stack that is out of order is changed, and then a redraw is asked for. */
    method RestoreFloats(floating: set<nat>)
      requires Distinct(elements)
      modifies this
      ensures elements == Restacked(old(elements), floating)
      ensures redraw == (old(redraw) || elements != old(elements))
    {
      var floats, needsRestack := Scan(floating);
      if needsRestack {
        LayerDistinct(elements, floating, true);
        FloatsLeave(elements, floating);
        RaiseAll(floats);
        redraw := true;
      }
    }
  }

  lemma RestackedLength(s: seq<nat>, floating: set<nat>)
    ensures |Restacked(s, floating)| == |s|
  {
    RestackedPermutes(s, floating);
    assert |multiset(Restacked(s, floating))| == |multiset(s)|;
  }

  lemma SameLast(s: seq<nat>, t: seq<nat>, a: nat)
    ensures s + [a] == t + [a] <==> s == t
  {
    if s + [a] == t + [a] {
      assert (s + [a])[..|s|] == s && (t + [a])[..|t|] == t;
    }
  }

  /** The scan's flag: the stack seen so far is out of order exactly if it was already, or
      a tiled window follows a floating one. */
  lemma ScanStep(s: seq<nat>, a: nat, floating: set<nat>)
    ensures var t := s + [a];
            t != Restacked(t, floating) <==>
              s != Restacked(s, floating) || (a !in floating && Layer(s, floating, true) != [])
    ensures Layer(s + [a], floating, true) == if a in floating then Layer(s, floating, true) + [a] else Layer(s, floating, true)
  {
    LayerNext(s, a, floating, true);
    if a in floating || Layer(s, floating, true) == [] {
      RestackedNext(s, a, floating);
      SameLast(s, Restacked(s, floating), a);
    } else {
      FloatLast(s, a, floating);
    }
  }

  lemma RestackedNext(s: seq<nat>, a: nat, floating: set<nat>)
    requires a in floating || Layer(s, floating, true) == []
    ensures Restacked(s + [a], floating) == Restacked(s, floating) + [a]
  {
    LayerNext(s, a, floating, true);
    LayerNext(s, a, floating, false);
    Regroup(Layer(s, floating, false), Layer(s, floating, true), a);
  }

  lemma Regroup(s: seq<nat>, t: seq<nat>, a: nat)
    ensures s + (t + [a]) == s + t + [a]
    ensures t == [] ==> s + [a] + t == s + t + [a]
  {
  }

  lemma LayerNext(s: seq<nat>, a: nat, chosen: set<nat>, inside: bool)
    ensures (a in chosen) == inside ==> Layer(s + [a], chosen, inside) == Layer(s, chosen, inside) + [a]
    ensures (a in chosen) != inside ==> Layer(s + [a], chosen, inside) == Layer(s, chosen, inside)
  {
    LayerAppend(s, [a], chosen, inside);
    LayerOne(a, chosen, inside);
  }

  lemma FloatLast(s: seq<nat>, a: nat, floating: set<nat>)
    requires a !in floating && Layer(s, floating, true) != []
    ensures s + [a] != Restacked(s + [a], floating)
  {
    var t, floats := s + [a], Layer(s + [a], floating, true);
    LayerNext(s, a, floating, true);
    LayerMember(t, floating, true, floats[|floats| - 1]);
    RestackedLength(t, floating);
    assert Restacked(t, floating)[|s|] == floats[|floats| - 1] && t[|s|] == a;
  }

  lemma FloatsLeave(s: seq<nat>, floating: set<nat>)
    ensures Layer(s, Members(Layer(s, floating, true)), false) == Layer(s, floating, false)
  {
    forall x | x in s
      ensures x in Members(Layer(s, floating, true)) <==> x in floating
    {
      LayerMember(s, floating, true, x);
    }
    LayerAgrees(s, Members(Layer(s, floating, true)), floating, false);
  }

  lemma {:induction false} LayerAgrees(s: seq<nat>, x: set<nat>, y: set<nat>, inside: bool)
    requires forall a :: a in s ==> (a in x <==> a in y)
    ensures Layer(s, x, inside) == Layer(s, y, inside)
  {
    if s != [] {
      assert s[0] in s && forall a :: a in s[1..] ==> a in s;
      LayerAgrees(s[1..], x, y, inside);
    }
  }
}
