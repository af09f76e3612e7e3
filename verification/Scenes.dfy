/** The opaque regions of a composed element, and the decision of `scene` that marks the
    background as covered. */
module Scenes {
  import opened Options
  import opened Rectangles
  import opened RoundedMask
  import opened Coverage

  /** An element of the scene: `geometry` is that of the wrapped element, whose opaque
      regions are relative to it. `background` says that its surface is a background layer. */
  datatype Element = Element(
    background: bool, blur: bool, geometryOverride: Option<Rect>, geometry: Rect,
    innerAlpha: real, opacity: real, box: Box, radius: real, innerOpaque: seq<Rect>)

  function Geometry(e: Element): Rect {
    if e.geometryOverride.Some? then e.geometryOverride.value else e.geometry
  }

  function Alpha(e: Element): real { e.innerAlpha * e.opacity }

  /** The intersections of one region with each clip, in the region's coordinates. */
  function ClipEach(region: Rect, clips: seq<Rect>, dx: int, dy: int): seq<Rect> {
    if clips == [] then []
    else
      (match Intersection(region, Moved(clips[0], -dx, -dy)) case None => [] case Some(r) => [r])
      + ClipEach(region, clips[1..], dx, dy)
  }

  function ClipAll(regions: seq<Rect>, clips: seq<Rect>, dx: int, dy: int): seq<Rect> {
    if regions == [] then [] else ClipEach(regions[0], clips, dx, dy) + ClipAll(regions[1..], clips, dx, dy)
  }

  /** `EffectElement::opaque_regions`. */
  function OpaqueRegions(e: Element): seq<Rect> {
    if e.geometryOverride.Some? then []
    else if Alpha(e) < 1.0 then []
    else if e.radius > 0.0 then
      ClipAll(e.innerOpaque, RoundedInterior(e.box, e.radius), Geometry(e).x, Geometry(e).y)
    else e.innerOpaque
  }

  function Globally(regions: seq<Rect>, dx: int, dy: int): seq<Rect> {
    seq(|regions|, k requires 0 <= k < |regions| => Moved(regions[k], dx, dy))
  }

  /** The regions that `scene` hands to `fully_covered`, in output coordinates. */
  function SceneRegions(es: seq<Element>): seq<Rect> {
    if es == [] then []
    else
      (if es[0].background then [] else Globally(OpaqueRegions(es[0]), Geometry(es[0]).x, Geometry(es[0]).y))
      + SceneRegions(es[1..])
  }

  function Relative(p: Pixel, r: Rect): Pixel { Pixel(p.x - r.x, p.y - r.y) }

  /** The element hides whatever is behind pixel `p`: it is no background, it is drawn
      opaquely and where its own geometry says, and the pixel is in an opaque part of its
      surface and, for rounded elements, inside the mask beyond the antialiased edge. */
  ghost predicate Hides(e: Element, p: Pixel) {
    && !e.background && e.geometryOverride.None? && Alpha(e) >= 1.0
    && Covers(e.innerOpaque, Relative(p, e.geometry))
    && (e.radius > 0.0 ==> CenterWithin(e.box, e.radius, p, -0.75))
  }

  lemma {:induction false} ClipEachExactly(region: Rect, clips: seq<Rect>, dx: int, dy: int, p: Pixel)
    ensures Covers(ClipEach(region, clips, dx, dy), Pixel(p.x - dx, p.y - dy)) <==>
              Holds(region, Pixel(p.x - dx, p.y - dy)) && Covers(clips, p)
  {
    if clips != [] {
      var q := Pixel(p.x - dx, p.y - dy);
      var first := match Intersection(region, Moved(clips[0], -dx, -dy)) case None => [] case Some(r) => [r];
      ClipEachExactly(region, clips[1..], dx, dy, p);
      CoversConcat(first, ClipEach(region, clips[1..], dx, dy), q);
      assert clips == [clips[0]] + clips[1..];
      CoversConcat([clips[0]], clips[1..], p);
      assert Covers([clips[0]], p) <==> Holds(clips[0], p) by {
        if Holds(clips[0], p) { assert Holds([clips[0]][0], p); }
      }
      assert Holds(Moved(clips[0], -dx, -dy), q) <==> Holds(clips[0], p);
      assert Covers(first, q) <==> Holds(region, q) && Holds(clips[0], p) by {
        if first != [] { assert Holds(first[0], q) <==> Holds(region, q) && Holds(clips[0], p); }
      }
    }
  }

  lemma {:induction false} ClipAllExactly(regions: seq<Rect>, clips: seq<Rect>, dx: int, dy: int, p: Pixel)
    ensures Covers(ClipAll(regions, clips, dx, dy), Pixel(p.x - dx, p.y - dy)) <==>
              Covers(regions, Pixel(p.x - dx, p.y - dy)) && Covers(clips, p)
  {
    if regions != [] {
      var q := Pixel(p.x - dx, p.y - dy);
      ClipEachExactly(regions[0], clips, dx, dy, p);
      ClipAllExactly(regions[1..], clips, dx, dy, p);
      CoversConcat(ClipEach(regions[0], clips, dx, dy), ClipAll(regions[1..], clips, dx, dy), q);
      assert regions == [regions[0]] + regions[1..];
      CoversConcat([regions[0]], regions[1..], q);
      assert Covers([regions[0]], q) <==> Holds(regions[0], q) by {
        if Holds(regions[0], q) { assert Holds([regions[0]][0], q); }
      }
    }
  }

  /** An element's regions, moved to output coordinates, contain a pixel exactly if the
      element is drawn opaquely there and the pixel is in an opaque part of its surface and,
      for rounded elements, in the interior of the mask. */
  lemma RegionsExactly(e: Element, p: Pixel)
    ensures Covers(Globally(OpaqueRegions(e), Geometry(e).x, Geometry(e).y), p) <==>
              && e.geometryOverride.None? && Alpha(e) >= 1.0
              && Covers(e.innerOpaque, Relative(p, e.geometry))
              && (e.radius > 0.0 ==> Covers(RoundedInterior(e.box, e.radius), p))
  {
    var g, regions := Geometry(e), OpaqueRegions(e);
    var moved, q := Globally(regions, g.x, g.y), Pixel(p.x - g.x, p.y - g.y);
    assert forall k :: 0 <= k < |regions| ==> (Holds(moved[k], p) <==> Holds(regions[k], q));
    if Covers(regions, q) {
      var k :| 0 <= k < |regions| && Holds(regions[k], q);
      assert Holds(moved[k], p);
    }
    assert Covers(moved, p) <==> Covers(regions, q);
    if e.geometryOverride.None? && e.radius > 0.0 {
      ClipAllExactly(e.innerOpaque, RoundedInterior(e.box, e.radius), g.x, g.y, p);
    }
  }

  /** The element is opaque at pixel `p`, as far as its regions tell: it is no background, it
      is drawn opaquely and where its own geometry says, and the pixel is in an opaque part of
      its surface and, for rounded elements, in the interior of the mask. */
  ghost predicate Occludes(e: Element, p: Pixel) {
    && !e.background && e.geometryOverride.None? && Alpha(e) >= 1.0
    && Covers(e.innerOpaque, Relative(p, e.geometry))
    && (e.radius > 0.0 ==> Covers(RoundedInterior(e.box, e.radius), p))
  }

  lemma OccludingHides(e: Element, p: Pixel)
    requires Occludes(e, p)
    ensures Hides(e, p)
  {
    if e.radius > 0.0 {
      InteriorInsideMask(e.box, e.radius, p);
      DistanceMonotone(e.box, e.radius, p, -1.5, -0.75);
    }
  }

  /** The regions of a scene contain exactly the pixels that some element occludes. */
  lemma {:induction false} SceneRegionsExactly(es: seq<Element>, p: Pixel)
    ensures Covers(SceneRegions(es), p) <==> exists e :: e in es && Occludes(e, p)
  {
    if es != [] {
      var first := if es[0].background then [] else Globally(OpaqueRegions(es[0]), Geometry(es[0]).x, Geometry(es[0]).y);
      CoversConcat(first, SceneRegions(es[1..]), p);
      RegionsExactly(es[0], p);
      SceneRegionsExactly(es[1..], p);
      assert Covers(first, p) <==> Occludes(es[0], p);
      assert forall e :: e in es <==> e == es[0] || e in es[1..] by { assert es == [es[0]] + es[1..]; }
    }
  }

  /** How many regions the elements of a scene have. */
  function RegionCount(es: seq<Element>): nat {
    if es == [] then 0 else (if es[0].background then 0 else |OpaqueRegions(es[0])|) + RegionCount(es[1..])
  }

  lemma {:induction false} SceneRegionsCount(es: seq<Element>)
    ensures |SceneRegions(es)| == RegionCount(es)
  {
    if es != [] { SceneRegionsCount(es[1..]); }
  }

  /** The decision in `scene`. If the background is marked as covered, then nothing is
      blurred, the output is not rotated, and every pixel of it is occluded by some element,
      which hides it beyond its antialiased edge. If it is not marked, then something is
      blurred, the output is rotated or empty, some pixel is occluded by no element, or the
      work exceeds its limits. */
  method MarkCovered(normalTransform: bool, output: Rect, es: seq<Element>) returns (covered: bool)
    ensures !covered ==>
              || !normalTransform || (exists e :: e in es && e.blur) || Empty(output)
              || (exists p {:trigger Holds(output, p)} :: Holds(output, p) && forall e :: e in es ==> !Occludes(e, p))
              || RegionCount(es) > MAX_REGIONS
              || exists k :: 0 < k <= |SceneRegions(es)| && |Fragments(output, SceneRegions(es)[..k])| > MAX_FRAGMENTS
    ensures covered ==>
              && normalTransform && !Empty(output) && (forall e :: e in es ==> !e.blur)
              && forall p {:trigger Holds(output, p)} :: Holds(output, p) ==>
                   exists e :: e in es && Occludes(e, p) && Hides(e, p)
  {
    if !normalTransform { return false; }
    for k := 0 to |es|
      invariant forall j :: 0 <= j < k ==> !es[j].blur
    {
      if es[k].blur { return false; }
    }
    covered := FullyCovered(output, SceneRegions(es));
    SceneRegionsCount(es);
    if covered {
      forall p | Holds(output, p)
        ensures exists e :: e in es && Occludes(e, p) && Hides(e, p)
      {
        SceneRegionsExactly(es, p);
        var e :| e in es && Occludes(e, p);
        OccludingHides(e, p);
      }
    } else if !Covered(output, SceneRegions(es)) {
      var p :| Holds(output, p) && !Covers(SceneRegions(es), p);
      SceneRegionsExactly(es, p);
    }
  }
}
