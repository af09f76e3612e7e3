/** Animated cursors: which image of the nearest size is shown at a time, and how long until
    the next one. Delays of images are in milliseconds, times in nanoseconds. */
module CursorAnimation {
  import opened Arithmetic
  import opened Options

  const MILLISECOND: nat := 1_000_000

  datatype Image = Image(size: nat, width: nat, height: nat, delay: nat)

  datatype Shown = Shown(image: Image, remaining: Option<nat>)

  // ---- the images of the nearest size ----

  function Distance(a: nat, b: nat): nat { if a < b then b - a else a - b }

  /** The first image whose nominal size is nearest. */
  function Nearest(size: nat, images: seq<Image>): (k: nat)
    requires images != []
    ensures k < |images|
  {
    if |images| == 1 then 0
    else
      var k := Nearest(size, images[..|images| - 1]);
      if Distance(size, images[|images| - 1].size) < Distance(size, images[k].size) then |images| - 1 else k
  }

  function SameSize(like: Image, images: seq<Image>): seq<Image> {
    if images == [] then []
    else (if images[0].width == like.width && images[0].height == like.height then [images[0]] else []) +
         SameSize(like, images[1..])
  }

  function NearestImages(size: nat, images: seq<Image>): seq<Image>
    requires images != []
  {
    SameSize(images[Nearest(size, images)], images)
  }

  lemma {:induction false} NearestIsFirstBest(size: nat, images: seq<Image>)
    requires images != []
    ensures var k := Nearest(size, images);
            && (forall j :: 0 <= j < |images| ==> Distance(size, images[k].size) <= Distance(size, images[j].size))
            && (forall j :: 0 <= j < k ==> Distance(size, images[k].size) < Distance(size, images[j].size))
  {
    if |images| > 1 {
      var before := images[..|images| - 1];
      NearestIsFirstBest(size, before);
      assert forall j :: 0 <= j < |before| ==> images[j] == before[j];
    }
  }

  lemma {:induction false} SameSizeMember(like: Image, images: seq<Image>, i: Image)
    ensures i in SameSize(like, images) <==> i in images && i.width == like.width && i.height == like.height
  {
    if images != [] { SameSizeMember(like, images[1..], i); }
  }

  /** The chosen images are the ones as large as the nearest, which is among them. */
  lemma NearestImagesExactly(size: nat, images: seq<Image>, i: Image)
    requires images != []
    ensures NearestImages(size, images) != []
    ensures var like := images[Nearest(size, images)];
            i in NearestImages(size, images) <==> i in images && i.width == like.width && i.height == like.height
  {
    var like := images[Nearest(size, images)];
    SameSizeMember(like, images, i);
    SameSizeMember(like, images, like);
  }

  // ---- the cycle ----

  function Cycle(images: seq<Image>): nat {
    if images == [] then 0 else images[0].delay * MILLISECOND + Cycle(images[1..])
  }

  function Moving(images: seq<Image>): nat {
    if images == [] then 0 else (if images[0].delay > 0 then 1 else 0) + Moving(images[1..])
  }

  /** The first image from `k` on that has a delay, or `|images|`. */
  function FirstMoving(images: seq<Image>, k: nat): (r: nat)
    requires k <= |images|
    ensures k <= r <= |images| && (r < |images| ==> images[r].delay > 0)
    ensures forall j :: k <= j < r ==> images[j].delay == 0
    decreases |images| - k
  {
    if k == |images| || images[k].delay > 0 then k else FirstMoving(images, k + 1)
  }

  /** When image `k` starts within the cycle. */
  function StartOf(images: seq<Image>, k: nat): nat
    requires k <= |images|
  {
    Cycle(images[..k])
  }

  lemma {:induction false} CycleAppend(s: seq<Image>, t: seq<Image>)
    ensures Cycle(s + t) == Cycle(s) + Cycle(t)
  {
    if s == [] {
      assert s + t == t;
    } else {
      assert (s + t)[0] == s[0] && (s + t)[1..] == s[1..] + t;
      CycleAppend(s[1..], t);
    }
  }

  lemma StartStep(images: seq<Image>, k: nat)
    requires k < |images|
    ensures StartOf(images, k + 1) == StartOf(images, k) + images[k].delay * MILLISECOND
  {
    assert images[..k + 1] == images[..k] + [images[k]];
    CycleAppend(images[..k], [images[k]]);
    assert [images[k]][1..] == [];
  }

  lemma {:induction false} StartMonotone(images: seq<Image>, j: nat, k: nat)
    requires j <= k <= |images|
    ensures StartOf(images, j) <= StartOf(images, k) <= Cycle(images)
    ensures StartOf(images, 0) == 0 && StartOf(images, |images|) == Cycle(images)
    decreases |images| - j
  {
    assert images[..|images|] == images;
    if j < k {
      StartStep(images, j);
      StartMonotone(images, j + 1, k);
    } else if j < |images| {
      StartStep(images, j);
      StartMonotone(images, j + 1, |images|);
    }
  }

  /** Image `k` is on display `elapsed` into the cycle. */
  predicate ShownAt(images: seq<Image>, elapsed: nat, k: nat) {
    k < |images| && StartOf(images, k) <= elapsed < StartOf(images, k) + images[k].delay * MILLISECOND
  }

  lemma ShownAtUnique(images: seq<Image>, elapsed: nat, j: nat, k: nat)
    requires ShownAt(images, elapsed, j) && ShownAt(images, elapsed, k)
    ensures j == k
  {
    StartStep(images, j);
    StartStep(images, k);
    if j < k {
      StartMonotone(images, j + 1, k);
    } else if k < j {
      StartMonotone(images, k + 1, j);
    }
  }

  // ---- the code ----

  /** What `frame` is to show, among the images of the nearest size. */
  ghost predicate Frame(images: seq<Image>, time: nat, shown: Shown)
    requires images != []
  {
    if Moving(images) <= 1 then
      var k := FirstMoving(images, 0);
      shown == Shown(images[if k < |images| then k else 0], None)
    else
      Cycle(images) > 0 &&
      exists k: nat :: Displays(images, time % Cycle(images), k, shown)
  }

  /** Image `k` is shown, for the rest of its delay. */
  predicate Displays(images: seq<Image>, elapsed: nat, k: nat, shown: Shown) {
    && ShownAt(images, elapsed, k)
    && shown == Shown(images[k], Some(StartOf(images, k) + images[k].delay * MILLISECOND - elapsed))
  }

  lemma {:induction false} MovingCycle(images: seq<Image>)
    ensures Moving(images) == 0 <==> Cycle(images) == 0
    ensures Moving(images) == 0 ==> FirstMoving(images, 0) == |images|
    ensures Moving(images) <= |images|
  {
    if images != [] { MovingCycle(images[1..]); }
    if Moving(images) == 0 { NoneMoving(images, 0); }
  }

  lemma {:induction false} NoneMoving(images: seq<Image>, k: nat)
    requires k <= |images| && Moving(images) == 0
    ensures FirstMoving(images, k) == |images|
    decreases |images| - k
  {
    if k < |images| {
      StillAt(images, k);
      NoneMoving(images, k + 1);
    }
  }

  lemma {:induction false} StillAt(images: seq<Image>, k: nat)
    requires k < |images| && Moving(images) == 0
    ensures images[k].delay == 0
  {
    if k > 0 { StillAt(images[1..], k - 1); }
  }

  /** The loop over the images always comes upon the one to show. */
  method Find(images: seq<Image>, time: nat) returns (shown: Shown)
    requires images != [] && Moving(images) > 1
    ensures Frame(images, time, shown)
  {
    MovingCycle(images);
    var elapsed: nat := time % Cycle(images);
    ghost var offset := elapsed;
    var k := 0;
    StartMonotone(images, 0, 0);
    while k < |images|
      invariant k <= |images|
      invariant elapsed + StartOf(images, k) == offset
    {
      StartStep(images, k);
      var delay := images[k].delay * MILLISECOND;
      if elapsed < delay {
        shown := Shown(images[k], Some(delay - elapsed));
        assert Displays(images, offset, k, shown);
        return;
      }
      elapsed := elapsed - delay;
      k := k + 1;
    }
    assert false;
  }

  method FrameAt(time: nat, size: nat, images: seq<Image>) returns (shown: Shown)
    requires images != []
    ensures NearestImages(size, images) != [] && Frame(NearestImages(size, images), time, shown)
  {
    var chosen := NearestImages(size, images);
    NearestImagesExactly(size, images, images[0]);
    MovingCycle(chosen);
    if |chosen| <= 1 || Cycle(chosen) == 0 {
      if |chosen| == 1 && chosen[0].delay > 0 { assert FirstMoving(chosen, 0) == 0; }
      return Shown(chosen[0], None);
    }
    if Moving(chosen) == 1 {
      SomeMoving(chosen);
      return Shown(chosen[FirstMoving(chosen, 0)], None);
    }
    shown := Find(chosen, time);
  }

  lemma SomeMoving(images: seq<Image>)
    requires Moving(images) > 0
    ensures FirstMoving(images, 0) < |images|
  {
    if FirstMoving(images, 0) == |images| { AllStill(images); }
  }

  lemma {:induction false} AllStill(images: seq<Image>)
    requires forall j :: 0 <= j < |images| ==> images[j].delay == 0
    ensures Moving(images) == 0
  {
    if images != [] { AllStill(images[1..]); }
  }

  // ---- what the frames mean ----

  /** There is a deadline exactly if two images of the chosen size have a delay. */
  lemma DeadlineExactly(images: seq<Image>, time: nat, shown: Shown)
    requires images != [] && Frame(images, time, shown)
    ensures shown.remaining.Some? <==> Moving(images) > 1
    ensures shown.remaining.Some? ==> 0 < shown.remaining.value <= shown.image.delay * MILLISECOND
  {
  }

  lemma FrameUnique(images: seq<Image>, time: nat, a: Shown, b: Shown)
    requires images != [] && Frame(images, time, a) && Frame(images, time, b)
    ensures a == b
  {
    if Moving(images) > 1 {
      var j: nat :| Displays(images, time % Cycle(images), j, a);
      var k: nat :| Displays(images, time % Cycle(images), k, b);
      ShownAtUnique(images, time % Cycle(images), j, k);
    }
  }

  lemma ModAdd(time: nat, d: nat, cycle: nat)
    requires cycle > 0 && time % cycle + d <= cycle
    ensures (time + d) % cycle == if time % cycle + d == cycle then 0 else time % cycle + d
  {
    var q, r := time / cycle, time % cycle;
    assert time + d == q * cycle + (r + d);
    if r + d == cycle {
      assert time + d == (q + 1) * cycle;
      DivUnique(time + d, cycle, q + 1, 0);
    } else {
      DivUnique(time + d, cycle, q, r + d);
    }
  }

  /** A repaint before the deadline shows the same image and keeps its deadline. */
  lemma RepaintKeepsDeadline(images: seq<Image>, time: nat, d: nat, now: Shown, later: Shown)
    requires images != [] && Frame(images, time, now) && now.remaining.Some? && d < now.remaining.value
    requires Frame(images, time + d, later)
    ensures later == Shown(now.image, Some(now.remaining.value - d))
  {
    var cycle := Cycle(images);
    var k: nat :| Displays(images, time % cycle, k, now);
    StartStep(images, k);
    EndsWithin(images, k);
    ModAdd(time, d, cycle);
    assert Displays(images, (time + d) % cycle, k, Shown(images[k], Some(now.remaining.value - d)));
    FrameUnique(images, time + d, later, Shown(images[k], Some(now.remaining.value - d)));
  }

  /** The image after `k`, going round the cycle. */
  function Following(images: seq<Image>, k: nat): nat
    requires k < |images|
  {
    var next := FirstMoving(images, k + 1);
    if next < |images| then next else FirstMoving(images, 0)
  }

  lemma {:induction false} StartOfFirst(images: seq<Image>, k: nat, next: nat)
    requires k <= next <= |images| && forall j :: k <= j < next ==> images[j].delay == 0
    ensures StartOf(images, next) == StartOf(images, k)
    decreases next - k
  {
    if k < next {
      StartStep(images, k);
      StartOfFirst(images, k + 1, next);
    }
  }

  /** At the end of image `k`, the following image with a delay starts. */
  lemma FollowingStarts(images: seq<Image>, k: nat)
    requires k < |images| && images[k].delay > 0
    ensures var next := Following(images, k);
            && next < |images| && images[next].delay > 0
            && StartOf(images, next) == if StartOf(images, k + 1) == Cycle(images) then 0 else StartOf(images, k + 1)
  {
    var next := FirstMoving(images, k + 1);
    StartOfFirst(images, k + 1, next);
    if next < |images| {
      EndsWithin(images, next);
    } else {
      StartMonotone(images, 0, 0);
      StartOfFirst(images, 0, FirstMoving(images, 0));
    }
  }

  lemma EndsWithin(images: seq<Image>, k: nat)
    requires k < |images|
    ensures StartOf(images, k) + images[k].delay * MILLISECOND <= Cycle(images)
  {
    StartStep(images, k);
    StartMonotone(images, k + 1, k + 1);
  }

  lemma NextDisplays(images: seq<Image>, elapsed: nat, k: nat)
    requires ShownAt(images, elapsed, k)
    ensures var next, remaining := Following(images, k), StartOf(images, k) + images[k].delay * MILLISECOND - elapsed;
            && next < |images| && images[next].delay > 0 && elapsed + remaining <= Cycle(images)
            && Displays(images, if elapsed + remaining == Cycle(images) then 0 else elapsed + remaining, next,
                        Shown(images[next], Some(images[next].delay * MILLISECOND)))
  {
    StartStep(images, k);
    EndsWithin(images, k);
    FollowingStarts(images, k);
  }

  /** A repaint at the deadline shows the following image with a delay, for its full delay. */
  lemma DeadlineShowsNext(images: seq<Image>, time: nat, k: nat, now: Shown, later: Shown)
    requires images != [] && Moving(images) > 1 && Frame(images, time, now) && now.remaining.Some?
    requires ShownAt(images, time % Cycle(images), k) && Frame(images, time + now.remaining.value, later)
    ensures var next := images[Following(images, k)];
            now.image == images[k] && later == Shown(next, Some(next.delay * MILLISECOND)) && next.delay > 0
  {
    var cycle := Cycle(images);
    var j: nat :| Displays(images, time % cycle, j, now);
    ShownAtUnique(images, time % cycle, j, k);
    NextDisplays(images, time % cycle, k);
    ModAdd(time, now.remaining.value, cycle);
    var next := Following(images, k);
    FrameUnique(images, time + now.remaining.value, later, Shown(images[next], Some(images[next].delay * MILLISECOND)));
  }

  lemma {:induction false} OneMoving(images: seq<Image>, k: nat)
    requires k < |images| && images[k].delay > 0 && Moving(images) <= 1
    ensures FirstMoving(images, 0) == k
  {
    var first := FirstMoving(images, 0);
    if first != k { TwoMoving(images, first, k); }
  }

  lemma {:induction false} TwoMoving(images: seq<Image>, j: nat, k: nat)
    requires j < k < |images| && images[j].delay > 0 && images[k].delay > 0
    ensures Moving(images) >= 2
  {
    if j > 0 {
      TwoMoving(images[1..], j - 1, k - 1);
    } else {
      MovingAt(images[1..], k - 1);
    }
  }

  lemma {:induction false} MovingAt(images: seq<Image>, k: nat)
    requires k < |images| && images[k].delay > 0
    ensures Moving(images) >= 1
  {
    if k > 0 { MovingAt(images[1..], k - 1); }
  }

  /** A cursor that does not move shows its only image with a delay, or else its first one. */
  lemma StillExactly(images: seq<Image>, time: nat, shown: Shown, k: nat)
    requires images != [] && Moving(images) <= 1 && Frame(images, time, shown) && k < |images|
    requires images[k].delay > 0 || (k == 0 && forall j :: 0 <= j < |images| ==> images[j].delay == 0)
    ensures shown == Shown(images[k], None)
  {
    if images[k].delay > 0 { OneMoving(images, k); }
  }

  /** A cycle starts with the first image that has a delay, for its full delay. */
  lemma CycleStarts(images: seq<Image>, time: nat, shown: Shown)
    requires images != [] && Moving(images) > 1 && Cycle(images) > 0 && time % Cycle(images) == 0
    requires Frame(images, time, shown)
    ensures var first := FirstMoving(images, 0);
            first < |images| && shown == Shown(images[first], Some(images[first].delay * MILLISECOND))
  {
    var first := FirstMoving(images, 0);
    SomeMoving(images);
    StartOfFirst(images, 0, first);
    StartMonotone(images, 0, 0);
    var start := Shown(images[first], Some(images[first].delay * MILLISECOND));
    assert Displays(images, 0, first, start);
    FrameUnique(images, time, shown, start);
  }
}
