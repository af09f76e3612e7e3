/** `fully_covered`: the visibility proof that lets the compositor pause its background. */
module Coverage {
  import opened Rectangles

  const MAX_REGIONS := 4096
  const MAX_FRAGMENTS := 256

  /** What is left of `area` after all of `regions` were subtracted. */
  function Fragments(area: Rect, regions: seq<Rect>): seq<Rect> {
    if regions == [] then [area]
    else SubtractAll(Fragments(area, regions[..|regions| - 1]), regions[|regions| - 1])
  }

  /** The fragments are nonempty, disjoint, and together exactly the uncovered pixels. */
  lemma {:induction false} FragmentsExact(area: Rect, regions: seq<Rect>)
    requires !Empty(area)
    ensures AllNonempty(Fragments(area, regions)) && PairwiseDisjoint(Fragments(area, regions))
    ensures forall p {:trigger Covers(Fragments(area, regions), p)} ::
              Covers(Fragments(area, regions), p) <==> Holds(area, p) && !Covers(regions, p)
  {
    if regions == [] {
      forall p ensures Covers([area], p) <==> Holds(area, p)
      {
        if Holds(area, p) { assert Holds([area][0], p); }
      }
    } else {
      var n := |regions| - 1;
      var before := regions[..n];
      FragmentsExact(area, before);
      SubtractAllDisjoint(Fragments(area, before), regions[n]);
      forall p
        ensures Covers(Fragments(area, regions), p) <==> Holds(area, p) && !Covers(regions, p)
      {
        SubtractAllExactly(Fragments(area, before), regions[n], p);
        assert regions == before + [regions[n]];
        CoversConcat(before, [regions[n]], p);
        assert Covers([regions[n]], p) <==> Holds(regions[n], p) by {
          if Holds(regions[n], p) { assert Holds([regions[n]][0], p); }
        }
      }
    }
  }

  /** Every pixel of the area lies in one of the regions. */
  ghost predicate Covered(area: Rect, regions: seq<Rect>) {
    forall p {:trigger Holds(area, p)} :: Holds(area, p) ==> Covers(regions, p)
  }

  lemma NothingLeft(area: Rect, regions: seq<Rect>)
    requires !Empty(area)
    ensures Fragments(area, regions) == [] <==> Covered(area, regions)
  {
    FragmentsExact(area, regions);
    var left := Fragments(area, regions);
    if left != [] {
      var p := Pixel(left[0].x, left[0].y);
      assert Holds(left[0], p) && Covers(left, p);
    } else {
      forall p | Holds(area, p)
        ensures Covers(regions, p)
      {
        assert !Covers(left, p);
      }
    }
  }

  /** Exact within its limits: true only if every pixel is covered; false only if the area
      is empty, a pixel is uncovered, there are too many regions, or the regions leave too
      many fragments at some point. */
  method FullyCovered(area: Rect, regions: seq<Rect>) returns (covered: bool)
    ensures covered ==> !Empty(area) && Covered(area, regions)
    ensures !covered ==>
              || Empty(area)
              || !Covered(area, regions)
              || |regions| > MAX_REGIONS
              || exists k :: 0 < k <= |regions| && |Fragments(area, regions[..k])| > MAX_FRAGMENTS
  {
    if Empty(area) { return false; }
    var remaining := [area];
    var index := 0;
    assert regions[..0] == [];
    while index < |regions|
      invariant index <= |regions| && index <= MAX_REGIONS
      invariant remaining == Fragments(area, regions[..index]) && remaining != []
    {
      if index >= MAX_REGIONS { return false; }
      remaining := SubtractAll(remaining, regions[index]);
      index := index + 1;
      assert regions[..index][..index - 1] == regions[..index - 1];
      if remaining == [] {
        NothingLeft(area, regions[..index]);
        forall p | Holds(area, p)
          ensures Covers(regions, p)
        {
          var k :| 0 <= k < index && Holds(regions[..index][k], p);
          assert Holds(regions[k], p);
        }
        return true;
      }
      if |remaining| > MAX_FRAGMENTS { return false; }
    }
    assert regions[..index] == regions;
    NothingLeft(area, regions);
    return false;
  }
}
