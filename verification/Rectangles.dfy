/** Integer rectangles as sets of pixels: intersection, and the subtraction that splits a
    rectangle around its overlap with another into at most four parts. */
module Rectangles {
  import opened Options

  datatype Rect = Rect(x: int, y: int, w: int, h: int)
  datatype Pixel = Pixel(x: int, y: int)

  predicate Empty(r: Rect) { r.w <= 0 || r.h <= 0 }

  predicate Holds(r: Rect, p: Pixel) {
    r.x <= p.x < r.x + r.w && r.y <= p.y < r.y + r.h
  }

  predicate Covers(rs: seq<Rect>, p: Pixel) {
    exists k :: 0 <= k < |rs| && Holds(rs[k], p)
  }

  function Moved(r: Rect, dx: int, dy: int): Rect { Rect(r.x + dx, r.y + dy, r.w, r.h) }

  function Min(a: int, b: int): int { if a < b then a else b }
  function Max(a: int, b: int): int { if a > b then a else b }

  /** The common part of two rectangles, if it is not empty. */
  function Intersection(a: Rect, b: Rect): (r: Option<Rect>)
    ensures r.Some? ==> !Empty(r.value) && forall p {:trigger Holds(r.value, p)} :: Holds(r.value, p) <==> Holds(a, p) && Holds(b, p)
    ensures r.None? ==> forall p {:trigger Holds(a, p), Holds(b, p)} :: !(Holds(a, p) && Holds(b, p))
  {
    var x, y := Max(a.x, b.x), Max(a.y, b.y);
    var r := Rect(x, y, Min(a.x + a.w, b.x + b.w) - x, Min(a.y + a.h, b.y + b.h) - y);
    if Empty(r) then None else Some(r)
  }

  predicate Disjoint(a: Rect, b: Rect) { Intersection(a, b).None? }

  predicate PairwiseDisjoint(rs: seq<Rect>) {
    forall j, k :: 0 <= j < k < |rs| ==> Disjoint(rs[j], rs[k])
  }

  predicate AllNonempty(rs: seq<Rect>) {
    forall k :: 0 <= k < |rs| ==> !Empty(rs[k])
  }

  function Kept(r: Rect): seq<Rect> { if Empty(r) then [] else [r] }

  /** The parts of `item` above, left of, right of and below its overlap `o` with another. */
  function Split(item: Rect, o: Rect): seq<Rect> {
    Kept(Rect(item.x, item.y, item.w, o.y - item.y)) +
    Kept(Rect(item.x, o.y, o.x - item.x, o.h)) +
    Kept(Rect(o.x + o.w, o.y, item.x + item.w - (o.x + o.w), o.h)) +
    Kept(Rect(item.x, o.y + o.h, item.w, item.y + item.h - (o.y + o.h)))
  }

  function Subtract(item: Rect, other: Rect): seq<Rect> {
    match Intersection(item, other)
    case None => [item]
    case Some(o) => Split(item, o)
  }

  function SubtractAll(items: seq<Rect>, other: Rect): seq<Rect> {
    if items == [] then [] else Subtract(items[0], other) + SubtractAll(items[1..], other)
  }

  lemma KeptExactly(r: Rect, p: Pixel)
    ensures Covers(Kept(r), p) <==> Holds(r, p)
  {
    if Holds(r, p) { assert Holds(Kept(r)[0], p); }
  }

  lemma CoversConcat(a: seq<Rect>, b: seq<Rect>, p: Pixel)
    ensures Covers(a + b, p) <==> Covers(a, p) || Covers(b, p)
  {
    if Covers(a, p) {
      var k :| 0 <= k < |a| && Holds(a[k], p);
      assert Holds((a + b)[k], p);
    }
    if Covers(b, p) {
      var k :| 0 <= k < |b| && Holds(b[k], p);
      assert Holds((a + b)[|a| + k], p);
    }
  }

  lemma SubtractExactly(item: Rect, other: Rect, p: Pixel)
    ensures Covers(Subtract(item, other), p) <==> Holds(item, p) && !Holds(other, p)
  {
    match Intersection(item, other)
    case None =>
      assert Covers([item], p) <==> Holds(item, p) by { if Holds(item, p) { assert Holds([item][0], p); } }
    case Some(o) =>
      assert Holds(o, p) <==> Holds(item, p) && Holds(other, p);
      var above, left := Rect(item.x, item.y, item.w, o.y - item.y), Rect(item.x, o.y, o.x - item.x, o.h);
      var right := Rect(o.x + o.w, o.y, item.x + item.w - (o.x + o.w), o.h);
      var below := Rect(item.x, o.y + o.h, item.w, item.y + item.h - (o.y + o.h));
      KeptExactly(above, p);
      KeptExactly(left, p);
      KeptExactly(right, p);
      KeptExactly(below, p);
      CoversConcat(Kept(above), Kept(left), p);
      CoversConcat(Kept(above) + Kept(left), Kept(right), p);
      CoversConcat(Kept(above) + Kept(left) + Kept(right), Kept(below), p);
  }

  lemma KeptDisjoint(a: Rect, b: Rect, c: Rect, d: Rect)
    requires Disjoint(a, b) && Disjoint(a, c) && Disjoint(a, d) && Disjoint(b, c) && Disjoint(b, d) && Disjoint(c, d)
    ensures var kept := Kept(a) + Kept(b) + Kept(c) + Kept(d);
            AllNonempty(kept) && PairwiseDisjoint(kept) && |kept| <= 4
  {
  }

  lemma Apart(a: Rect, b: Rect)
    requires a.x + a.w <= b.x || a.y + a.h <= b.y
    ensures Disjoint(a, b)
  {
  }

  lemma SplitDisjoint(item: Rect, o: Rect)
    requires item.x <= o.x && item.y <= o.y && o.x + o.w <= item.x + item.w && o.y + o.h <= item.y + item.h && !Empty(o)
    ensures AllNonempty(Split(item, o)) && PairwiseDisjoint(Split(item, o)) && |Split(item, o)| <= 4
  {
    var above, left := Rect(item.x, item.y, item.w, o.y - item.y), Rect(item.x, o.y, o.x - item.x, o.h);
    var right := Rect(o.x + o.w, o.y, item.x + item.w - (o.x + o.w), o.h);
    var below := Rect(item.x, o.y + o.h, item.w, item.y + item.h - (o.y + o.h));
    Apart(above, left);
    Apart(above, right);
    Apart(above, below);
    Apart(left, right);
    Apart(left, below);
    Apart(right, below);
    KeptDisjoint(above, left, right, below);
    assert Split(item, o) == Kept(above) + Kept(left) + Kept(right) + Kept(below);
  }

  lemma SubtractDisjoint(item: Rect, other: Rect)
    requires !Empty(item)
    ensures AllNonempty(Subtract(item, other)) && PairwiseDisjoint(Subtract(item, other)) && |Subtract(item, other)| <= 4
  {
    match Intersection(item, other)
    case None =>
    case Some(o) => SplitDisjoint(item, o);
  }

  lemma SubtractWithin(item: Rect, other: Rect, third: Rect)
    requires Disjoint(item, third)
    ensures forall k :: 0 <= k < |Subtract(item, other)| ==> Disjoint(Subtract(item, other)[k], third)
  {
  }

  /** Subtraction keeps fragments nonempty and disjoint, and removes exactly the pixels of
      the subtracted rectangle. */
  lemma {:induction false} SubtractAllExactly(items: seq<Rect>, other: Rect, p: Pixel)
    ensures Covers(SubtractAll(items, other), p) <==> Covers(items, p) && !Holds(other, p)
  {
    if items != [] {
      assert items == [items[0]] + items[1..];
      CoversConcat([items[0]], items[1..], p);
      assert Covers([items[0]], p) <==> Holds(items[0], p) by {
        if Holds(items[0], p) { assert Holds([items[0]][0], p); }
      }
      SubtractExactly(items[0], other, p);
      SubtractAllExactly(items[1..], other, p);
      CoversConcat(Subtract(items[0], other), SubtractAll(items[1..], other), p);
    }
  }

  lemma {:induction false} SubtractAllWithin(items: seq<Rect>, other: Rect, third: Rect)
    requires forall k :: 0 <= k < |items| ==> Disjoint(third, items[k])
    ensures forall k :: 0 <= k < |SubtractAll(items, other)| ==> Disjoint(third, SubtractAll(items, other)[k])
  {
    if items != [] {
      SubtractAllWithin(items[1..], other, third);
      SubtractWithin(items[0], other, third);
      assert forall k :: 0 <= k < |Subtract(items[0], other)| ==> Disjoint(Subtract(items[0], other)[k], third);
    }
  }

  lemma {:induction false} SubtractAllDisjoint(items: seq<Rect>, other: Rect)
    requires AllNonempty(items) && PairwiseDisjoint(items)
    ensures AllNonempty(SubtractAll(items, other)) && PairwiseDisjoint(SubtractAll(items, other))
  {
    if items != [] {
      SubtractAllDisjoint(items[1..], other);
      SubtractDisjoint(items[0], other);
      var first, rest := Subtract(items[0], other), SubtractAll(items[1..], other);
      forall j | 0 <= j < |first|
        ensures forall k :: 0 <= k < |rest| ==> Disjoint(first[j], rest[k])
      {
        forall k | 0 <= k < |items| - 1
          ensures Disjoint(first[j], items[1..][k])
        {
          assert Disjoint(items[0], items[k + 1]);
          SubtractWithin(items[0], other, items[k + 1]);
        }
        SubtractAllWithin(items[1..], other, first[j]);
      }
    }
  }
}
