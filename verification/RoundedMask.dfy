/** The rounded-corner mask and its conservative opaque interior, over real coordinates. */
module RoundedMask {
  import opened Rectangles

  /** The rectangle that the shader rounds, in physical pixels. */
  datatype Box = Box(x: real, y: real, w: real, h: real)

  function MinR(a: real, b: real): real { if a < b then a else b }
  function MaxR(a: real, b: real): real { if a > b then a else b }
  function AbsR(a: real): real { if a < 0.0 then -a else a }

  function Ceil(a: real): (c: int)
    ensures c as real - 1.0 < a <= c as real
  {
    -((-a).Floor)
  }

  /** The corner radius that the shader uses. */
  function MaskRadius(box: Box, radius: real): (r: real)
    ensures r <= radius && r <= box.w / 2.0 && r <= box.h / 2.0
    ensures r == radius || r == box.w / 2.0 || r == box.h / 2.0
  {
    MinR(radius, MinR(box.w / 2.0, box.h / 2.0))
  }

  /** The square root of `s` is at most `b`. */
  predicate RootAtMost(s: real, b: real) { 0.0 <= b && s <= b * b }

  /** One component of the shader's `q = abs(point - center) - half + r`. */
  function Beyond(c: real, low: real, size: real, r: real): real {
    AbsR(c - low - size / 2.0) - size / 2.0 + r
  }

  /** The square of `length(max(q, 0))`. */
  function CornerSquare(qx: real, qy: real): real {
    MaxR(qx, 0.0) * MaxR(qx, 0.0) + MaxR(qy, 0.0) * MaxR(qy, 0.0)
  }

  /** The shader's signed distance from a point to the rounded rectangle,
      `length(max(q, 0)) + min(max(q.x, q.y), 0) - r`, is at most `bound`. */
  predicate DistanceAtMost(box: Box, radius: real, x: real, y: real, bound: real) {
    var r := MaskRadius(box, radius);
    var qx, qy := Beyond(x, box.x, box.w, r), Beyond(y, box.y, box.h, r);
    RootAtMost(CornerSquare(qx, qy), bound + r - MinR(MaxR(qx, qy), 0.0))
  }

  predicate CenterWithin(box: Box, radius: real, p: Pixel, bound: real) {
    DistanceAtMost(box, radius, p.x as real + 0.5, p.y as real + 0.5, bound)
  }

  /** The point of the interval that is nearest to `c`. */
  function Nearest(c: real, low: real, high: real): real {
    if c < low then low else if c > high then high else c
  }

  lemma BeyondIsDistance(c: real, low: real, size: real, r: real, d: real)
    requires r <= size / 2.0
    ensures var q, n := Beyond(c, low, size, r), Nearest(c, low + r, low + size - r);
            && MaxR(q, 0.0) == (if c < n then n - c else c - n)
            && (q <= r - d <==> low + d <= c <= low + size - d)
  {
  }

  /** The square of the distance between two points. */
  function Square(x: real, y: real, nx: real, ny: real): real {
    (x - nx) * (x - nx) + (y - ny) * (y - ny)
  }

  lemma CornerIsDistance(box: Box, r: real, x: real, y: real)
    requires r <= box.w / 2.0 && r <= box.h / 2.0
    ensures CornerSquare(Beyond(x, box.x, box.w, r), Beyond(y, box.y, box.h, r)) ==
      Square(x, y, Nearest(x, box.x + r, box.x + box.w - r), Nearest(y, box.y + r, box.y + box.h - r))
  {
    var nx, ny := Nearest(x, box.x + r, box.x + box.w - r), Nearest(y, box.y + r, box.y + box.h - r);
    BeyondIsDistance(x, box.x, box.w, r, 0.0);
    BeyondIsDistance(y, box.y, box.h, r, 0.0);
    assert (nx - x) * (nx - x) == (x - nx) * (x - nx);
    assert (ny - y) * (ny - y) == (y - ny) * (y - ny);
  }

  /** What the shader's distance means. A point is at least `d` inside the rounded rectangle
      exactly if it is within `r - d` of the rectangle that the corner radius `r` leaves on
      all sides, or, for `d` above `r`, if it is at least `d` inside the straight edges. */
  lemma MaskExactly(box: Box, radius: real, x: real, y: real, d: real)
    ensures var r := MaskRadius(box, radius);
            var nx, ny := Nearest(x, box.x + r, box.x + box.w - r), Nearest(y, box.y + r, box.y + box.h - r);
            DistanceAtMost(box, radius, x, y, -d) <==>
              if d <= r then RootAtMost(Square(x, y, nx, ny), r - d)
              else box.x + d <= x <= box.x + box.w - d && box.y + d <= y <= box.y + box.h - d
  {
    var r := MaskRadius(box, radius);
    var qx, qy := Beyond(x, box.x, box.w, r), Beyond(y, box.y, box.h, r);
    CornerIsDistance(box, r, x, y);
    RootExactly(qx, qy, r - d);
    assert -d + r - MinR(MaxR(qx, qy), 0.0) == r - d - MinR(MaxR(qx, qy), 0.0);
    BeyondIsDistance(x, box.x, box.w, r, d);
    BeyondIsDistance(y, box.y, box.h, r, d);
  }

  lemma RootExactly(qx: real, qy: real, b: real)
    ensures RootAtMost(CornerSquare(qx, qy), b - MinR(MaxR(qx, qy), 0.0)) <==>
              if b >= 0.0 then RootAtMost(CornerSquare(qx, qy), b) else qx <= b && qy <= b
  {
    var q := MaxR(qx, qy);
    if q <= 0.0 {
      assert CornerSquare(qx, qy) == 0.0;
      SquareNotNegative(b - q);
      SquareNotNegative(b);
    } else if b < 0.0 {
      assert !RootAtMost(CornerSquare(qx, qy), b);
    }
  }

  lemma SquareNotNegative(a: real)
    ensures a * a >= 0.0
  {
  }

  function Sides(x1: int, y1: int, x2: int, y2: int): seq<Rect> {
    if x2 > x1 && y2 > y1 then [Rect(x1, y1, x2 - x1, y2 - y1)] else []
  }

  /** A vertical bar and the two side bars beside it. */
  function Bars(left: int, top: int, right: int, bottom: int,
                innerLeft: int, innerTop: int, innerRight: int, innerBottom: int): seq<Rect> {
    Sides(innerLeft, top, innerRight, bottom) +
    Sides(left, innerTop, Min(innerLeft, right), innerBottom) +
    Sides(Max(Max(innerRight, innerLeft), left), innerTop, right, innerBottom)
  }

  /** The bars for a corner radius that fits the rectangle. */
  function BarsFor(box: Box, r: real): seq<Rect> {
    Bars(Ceil(box.x + 1.0), Ceil(box.y + 1.0), (box.x + box.w - 1.0).Floor, (box.y + box.h - 1.0).Floor,
         Ceil(box.x + r + 1.0), Ceil(box.y + r + 1.0), (box.x + box.w - r - 1.0).Floor, (box.y + box.h - r - 1.0).Floor)
  }

  /** `rounded_interior`. */
  function RoundedInterior(box: Box, radius: real): seq<Rect> {
    BarsFor(box, MaxR(MaskRadius(box, radius), 0.0))
  }

  lemma InteriorDisjoint(box: Box, radius: real)
    ensures PairwiseDisjoint(RoundedInterior(box, radius)) && AllNonempty(RoundedInterior(box, radius))
  {
  }

  lemma SquareMonotone(a: real, b: real)
    requires 0.0 <= a <= b
    ensures a * a <= b * b
  {
    assert b * b - a * a == (b - a) * (b + a);
  }

  /** One coordinate at least 1.5 inside the straight edges of its axis. */
  predicate InsideBy(c: real, low: real, size: real, inset: real) {
    low + inset + 1.5 <= c <= low + size - inset - 1.5
  }

  /** A point 1.5 inside one pair of edges, and 1.5 plus the corner radius inside the
      other, is 1.5 inside the mask. */
  lemma BarInside(box: Box, radius: real, x: real, y: real)
    requires var r := MaxR(MaskRadius(box, radius), 0.0);
             || (InsideBy(x, box.x, box.w, r) && InsideBy(y, box.y, box.h, 0.0))
             || (InsideBy(x, box.x, box.w, 0.0) && InsideBy(y, box.y, box.h, r))
    ensures DistanceAtMost(box, radius, x, y, -1.5)
  {
    var r := MaskRadius(box, radius);
    var qx, qy := Beyond(x, box.x, box.w, r), Beyond(y, box.y, box.h, r);
    var b := -1.5 + r - MinR(MaxR(qx, qy), 0.0);
    assert (qx <= 0.0 && MaxR(qy, 0.0) <= b) || (qy <= 0.0 && MaxR(qx, 0.0) <= b);
    if qx <= 0.0 && MaxR(qy, 0.0) <= b {
      SquareMonotone(MaxR(qy, 0.0), b);
    } else {
      SquareMonotone(MaxR(qx, 0.0), b);
    }
  }

  /** Every pixel of the interior has its centre at least 1.5 inside the mask, twice the
      0.75 at which the antialiased edge begins. */
  lemma InteriorInsideMask(box: Box, radius: real, p: Pixel)
    requires Covers(RoundedInterior(box, radius), p)
    ensures CenterWithin(box, radius, p, -1.5)
  {
    var x, y := p.x as real + 0.5, p.y as real + 0.5;
    var r := MaxR(MaskRadius(box, radius), 0.0);
    var k :| 0 <= k < |RoundedInterior(box, radius)| && Holds(RoundedInterior(box, radius)[k], p);
    assert || (InsideBy(x, box.x, box.w, r) && InsideBy(y, box.y, box.h, 0.0))
           || (InsideBy(x, box.x, box.w, 0.0) && InsideBy(y, box.y, box.h, r));
    BarInside(box, radius, x, y);
  }

  lemma DistanceMonotone(box: Box, radius: real, p: Pixel, bound: real, weaker: real)
    requires CenterWithin(box, radius, p, bound) && bound <= weaker
    ensures CenterWithin(box, radius, p, weaker)
  {
    var r := MaskRadius(box, radius);
    var qx, qy := Beyond(p.x as real + 0.5, box.x, box.w, r), Beyond(p.y as real + 0.5, box.y, box.h, r);
    var depth := r - MinR(MaxR(qx, qy), 0.0);
    RootMonotone(CornerSquare(qx, qy), bound + depth, weaker + depth);
  }

  lemma RootMonotone(s: real, b: real, c: real)
    requires RootAtMost(s, b) && b <= c
    ensures RootAtMost(s, c)
  {
    SquareMonotone(b, c);
  }

  /** The whole pixel from `c` to `c + 1` is at least `inset` inside the edges of its axis. */
  predicate PixelInset(c: int, low: real, size: real, inset: real) {
    low + inset <= c as real && (c + 1) as real <= low + size - inset
  }

  lemma CeilAtMost(a: real, c: int)
    ensures Ceil(a) <= c <==> a <= c as real
  {
  }

  lemma FloorAtLeast(a: real, c: int)
    ensures c <= a.Floor <==> c as real <= a
  {
  }

  lemma SidesExactly(x1: int, y1: int, x2: int, y2: int, p: Pixel)
    ensures Covers(Sides(x1, y1, x2, y2), p) <==> x1 <= p.x < x2 && y1 <= p.y < y2
  {
    var sides := Sides(x1, y1, x2, y2);
    if sides != [] { assert Holds(sides[0], p) <==> x1 <= p.x < x2 && y1 <= p.y < y2; }
  }

  /** The two side bars and the part between them make up a whole lying bar. */
  lemma BarsExactly(left: int, top: int, right: int, bottom: int,
                    innerLeft: int, innerTop: int, innerRight: int, innerBottom: int, p: Pixel)
    requires left <= innerLeft && innerRight <= right && top <= innerTop && innerBottom <= bottom
    ensures Covers(Bars(left, top, right, bottom, innerLeft, innerTop, innerRight, innerBottom), p) <==>
              || (innerLeft <= p.x < innerRight && top <= p.y < bottom)
              || (left <= p.x < right && innerTop <= p.y < innerBottom)
  {
    var bar := Sides(innerLeft, top, innerRight, bottom);
    var west := Sides(left, innerTop, Min(innerLeft, right), innerBottom);
    var east := Sides(Max(Max(innerRight, innerLeft), left), innerTop, right, innerBottom);
    CoversConcat(bar, west, p);
    CoversConcat(bar + west, east, p);
    SidesExactly(innerLeft, top, innerRight, bottom, p);
    SidesExactly(left, innerTop, Min(innerLeft, right), innerBottom, p);
    SidesExactly(Max(Max(innerRight, innerLeft), left), innerTop, right, innerBottom, p);
  }

  lemma BoundsOrder(low: real, size: real, r: real)
    requires r >= 0.0
    ensures Ceil(low + 1.0) <= Ceil(low + r + 1.0) && (low + size - r - 1.0).Floor <= (low + size - 1.0).Floor
  {
    CeilAtMost(low + 1.0, Ceil(low + r + 1.0));
    FloorAtLeast(low + size - 1.0, (low + size - r - 1.0).Floor);
  }

  lemma BarsForExactly(box: Box, r: real, p: Pixel)
    requires r >= 0.0
    ensures Covers(BarsFor(box, r), p) <==>
              || (Ceil(box.x + r + 1.0) <= p.x < (box.x + box.w - r - 1.0).Floor
                  && Ceil(box.y + 1.0) <= p.y < (box.y + box.h - 1.0).Floor)
              || (Ceil(box.x + 1.0) <= p.x < (box.x + box.w - 1.0).Floor
                  && Ceil(box.y + r + 1.0) <= p.y < (box.y + box.h - r - 1.0).Floor)
  {
    var left, innerLeft := Ceil(box.x + 1.0), Ceil(box.x + r + 1.0);
    var right, innerRight := (box.x + box.w - 1.0).Floor, (box.x + box.w - r - 1.0).Floor;
    var top, innerTop := Ceil(box.y + 1.0), Ceil(box.y + r + 1.0);
    var bottom, innerBottom := (box.y + box.h - 1.0).Floor, (box.y + box.h - r - 1.0).Floor;
    assert left <= innerLeft && innerRight <= right by { BoundsOrder(box.x, box.w, r); }
    assert top <= innerTop && innerBottom <= bottom by { BoundsOrder(box.y, box.h, r); }
    BarsExactly(left, top, right, bottom, innerLeft, innerTop, innerRight, innerBottom, p);
  }

  /** Which pixels are in the interior: those of a cross, whose upright bar is one pixel
      inside the top and bottom edges and one pixel plus the corner radius inside the others,
      and whose lying bar is the other way round. */
  lemma InteriorExactly(box: Box, radius: real, p: Pixel)
    ensures var r := MaxR(MaskRadius(box, radius), 0.0);
            Covers(RoundedInterior(box, radius), p) <==>
              || (PixelInset(p.x, box.x, box.w, r + 1.0) && PixelInset(p.y, box.y, box.h, 1.0))
              || (PixelInset(p.x, box.x, box.w, 1.0) && PixelInset(p.y, box.y, box.h, r + 1.0))
  {
    var r := MaxR(MaskRadius(box, radius), 0.0);
    BarsForExactly(box, r, p);
    InsetBounds(p.x, box.x, box.w, r);
    InsetBounds(p.y, box.y, box.h, r);
    OneInset(p.x, box.x, box.w);
    OneInset(p.y, box.y, box.h);
  }

  lemma OneInset(c: int, low: real, size: real)
    ensures PixelInset(c, low, size, 1.0) <==> Ceil(low + 1.0) <= c < (low + size - 1.0).Floor
  {
    CeilAtMost(low + 1.0, c);
    FloorAtLeast(low + size - 1.0, c + 1);
  }

  lemma InsetBounds(c: int, low: real, size: real, r: real)
    ensures PixelInset(c, low, size, r + 1.0) <==> Ceil(low + r + 1.0) <= c < (low + size - r - 1.0).Floor
  {
    CeilAtMost(low + r + 1.0, c);
    FloorAtLeast(low + size - r - 1.0, c + 1);
  }
}
