/** The polygon predicates of the utility class (src/core/utils.ts): winding order,
    ray casting, and the segment/polygon intersection tests. A polygon is the sequence of
    its corners; its edges join each corner to the next, the last one closing the loop. */
module Polygons {
  import opened Wrappers
  import opened Modular
  import opened Geometry

  /** The corner after corner `i` of `n`, wrapping from the last to the first. */
  function NextCorner(i: int, n: int): (j: int)
    requires 0 <= i < n
    ensures 0 <= j < n
  {
    if i + 1 < n then i + 1 else 0
  }

  /** The source reaches the next corner with `(i + 1) % n`; that is `NextCorner`. */
  lemma NextCornerIsModulo(i: int, n: int)
    requires 0 <= i < n
    ensures (i + 1) % n == NextCorner(i, n)
  {
    if i + 1 < n {
      ModUnique(i + 1, n, 0, i + 1);
    } else {
      ModUnique(i + 1, n, 1, 0);
    }
  }

  /** Edge `i` of a polygon: from corner `i` to the next corner. */
  function Edge(corners: seq<Point>, i: int): Segment
    requires 0 <= i < |corners|
  {
    Segment(corners[i], corners[NextCorner(i, |corners|)])
  }

  // ---------------------------------------------------------------------------
  // isClockwise
  // ---------------------------------------------------------------------------

  /** The contribution `(c2.x - c1.x) * (c2.y + c1.y)` of one edge to the winding sum. */
  function ShoelaceTerm(c1: Point, c2: Point): real
  {
    (c2.x - c1.x) * (c2.y + c1.y)
  }

  /** The winding sum over the first `k` edges. */
  function ShoelacePrefix(corners: seq<Point>, k: int): real
    requires 0 <= k <= |corners|
  {
    if k == 0 then 0.0
    else ShoelacePrefix(corners, k - 1) + ShoelaceTerm(Edge(corners, k - 1).from, Edge(corners, k - 1).to)
  }

  /** The winding sum over all edges, the closing one included. */
  function ShoelaceSum(corners: seq<Point>): real
  {
    ShoelacePrefix(corners, |corners|)
  }

  /** `Math.min(...xs)` of a non-empty list. */
  function Min(xs: seq<real>): (m: real)
    requires |xs| > 0
    ensures forall i :: 0 <= i < |xs| ==> m <= xs[i]
    ensures exists i :: 0 <= i < |xs| && m == xs[i]
  {
    if |xs| == 1 then xs[0]
    else
      var rest := Min(xs[1..]);
      assert forall i :: 1 <= i < |xs| ==> xs[i] == xs[1..][i - 1];
      if xs[0] <= rest then xs[0] else rest
  }

  /** The x coordinates of the corners, in order. */
  function Xs(corners: seq<Point>): (xs: seq<real>)
    ensures |xs| == |corners| && forall i :: 0 <= i < |corners| ==> xs[i] == corners[i].x
  {
    seq(|corners|, i requires 0 <= i < |corners| => corners[i].x)
  }

  /** The y coordinates of the corners, in order. */
  function Ys(corners: seq<Point>): (ys: seq<real>)
    ensures |ys| == |corners| && forall i :: 0 <= i < |corners| ==> ys[i] == corners[i].y
  {
    seq(|corners|, i requires 0 <= i < |corners| => corners[i].y)
  }

  /** Every corner moved by `(-dx, -dy)`. */
  function Translate(corners: seq<Point>, dx: real, dy: real): (r: seq<Point>)
    ensures |r| == |corners|
    ensures forall i :: 0 <= i < |corners| ==> r[i] == Point(corners[i].x - dx, corners[i].y - dy)
  {
    seq(|corners|, i requires 0 <= i < |corners| => Point(corners[i].x - dx, corners[i].y - dy))
  }

  /** `isClockwise(points)`: false below three points; otherwise the corners are moved by
      `Math.min(0, ...)` of each coordinate (so that none is negative) and the result is
      whether the winding sum of the moved polygon is at least 0. Moving does not change
      the sum, so the result is the sign test of the original polygon's sum; for three or
      more corners, that is "the signed area is not positive". */
  method IsClockwise(points: seq<Point>) returns (clockwise: bool)
    ensures clockwise <==> |points| >= 3 && ShoelaceSum(points) >= 0.0
    ensures clockwise <==> |points| >= 3 && SignedAreaPrefix(points, |points|) <= 0.0
  {
    ShoelaceIsNegatedArea(points);
    if |points| < 3 {
      return false;
    }
    var subX := Min([0.0] + Xs(points));
    var subY := Min([0.0] + Ys(points));
    var translated := Translate(points, subX, subY);
    var sum := WindingSum(translated);
    ShoelaceTranslationInvariant(points, subX, subY);
    return sum >= 0.0;
  }

  /** The loop of `isClockwise`: the winding sum, edge by edge. */
  method WindingSum(corners: seq<Point>) returns (sum: real)
    ensures sum == ShoelaceSum(corners)
  {
    sum := 0.0;
    var i := 0;
    while i < |corners|
      invariant 0 <= i <= |corners|
      invariant sum == ShoelacePrefix(corners, i)
    {
      var c1 := corners[i];
      NextCornerIsModulo(i, |corners|);
      var c2 := corners[(i + 1) % |corners|];
      sum := sum + ShoelaceTerm(c1, c2);
      i := i + 1;
    }
  }

  /** The moved corners of `isClockwise` have no negative coordinate. */
  lemma TranslatedNonNegative(points: seq<Point>)
    ensures var t := Translate(points, Min([0.0] + Xs(points)), Min([0.0] + Ys(points)));
            forall i :: 0 <= i < |t| ==> t[i].x >= 0.0 && t[i].y >= 0.0
  {
    var xs, ys := [0.0] + Xs(points), [0.0] + Ys(points);
    forall i | 0 <= i < |points|
      ensures Min(xs) <= points[i].x && Min(ys) <= points[i].y
    {
      assert xs[i + 1] == points[i].x && ys[i + 1] == points[i].y;
    }
  }

  /** Moving an edge shifts its term by `2 * dy` times its rise in x. */
  lemma ShoelaceTermShift(c1: Point, c2: Point, dx: real, dy: real)
    ensures ShoelaceTerm(Point(c1.x - dx, c1.y - dy), Point(c2.x - dx, c2.y - dy))
            == ShoelaceTerm(c1, c2) - 2.0 * dy * (c2.x - c1.x)
  {
    var d1, d2 := Point(c1.x - dx, c1.y - dy), Point(c2.x - dx, c2.y - dy);
    TermShiftScalar(c1.x, c1.y, c2.x, c2.y, d1.x, d1.y, d2.x, d2.y, dx, dy);
  }

  /** `ShoelaceTermShift` on coordinates. */
  lemma TermShiftScalar(x1: real, y1: real, x2: real, y2: real,
                        u1: real, v1: real, u2: real, v2: real, dx: real, dy: real)
    requires u1 == x1 - dx && v1 == y1 - dy && u2 == x2 - dx && v2 == y2 - dy
    ensures (u2 - u1) * (v2 + v1) == (x2 - x1) * (y2 + y1) - 2.0 * dy * (x2 - x1)
  {
  }

  /** The rise in x over the first `k` edges. */
  function XRise(corners: seq<Point>, k: int): real
    requires 0 <= k <= |corners|
  {
    if k == 0 then 0.0 else XRise(corners, k - 1) + (Edge(corners, k - 1).to.x - Edge(corners, k - 1).from.x)
  }

  /** The rises telescope: over the first `k` edges they add up to the distance in x from
      corner 0 to corner `k`, and over the closed loop to 0. */
  lemma {:induction false} XRiseTelescopes(corners: seq<Point>, k: int)
    requires 0 < |corners| && 0 <= k <= |corners|
    ensures k < |corners| ==> XRise(corners, k) == corners[k].x - corners[0].x
    ensures k == |corners| ==> XRise(corners, k) == 0.0
  {
    if k > 0 {
      XRiseTelescopes(corners, k - 1);
    }
  }

  /** Solver helper: `k * (a + b) == k * a + k * b`, with the sum named. */
  lemma Distribute(k: real, s: real, a: real, b: real)
    requires s == a + b
    ensures k * s == k * a + k * b
  {
  }

  /** Moving the polygon changes the winding sum of the first `k` edges by
      `2 * dy` times their rise in x. */
  lemma {:induction false} ShoelacePrefixShift(corners: seq<Point>, dx: real, dy: real, k: int)
    requires 0 <= k <= |corners|
    ensures ShoelacePrefix(Translate(corners, dx, dy), k) == ShoelacePrefix(corners, k) - 2.0 * dy * XRise(corners, k)
  {
    if k > 0 {
      ShoelacePrefixShift(corners, dx, dy, k - 1);
      var e := Edge(corners, k - 1);
      EdgeOfTranslate(corners, dx, dy, k - 1);
      ShoelaceTermShift(e.from, e.to, dx, dy);
      Distribute(2.0 * dy, XRise(corners, k), XRise(corners, k - 1), e.to.x - e.from.x);
    }
  }

  /** Edge `i` of the moved polygon is edge `i` of the polygon, moved. */
  lemma EdgeOfTranslate(corners: seq<Point>, dx: real, dy: real, i: int)
    requires 0 <= i < |corners|
    ensures Edge(Translate(corners, dx, dy), i)
            == Segment(Point(Edge(corners, i).from.x - dx, Edge(corners, i).from.y - dy),
                       Point(Edge(corners, i).to.x - dx, Edge(corners, i).to.y - dy))
  {
  }

  /** Solver helper: `k * 0 == 0`, with the zero named. */
  lemma TimesZero(k: real, z: real)
    requires z == 0.0
    ensures k * z == 0.0
  {
  }

  /** The winding sum does not depend on where the polygon is: the x differences are
      unchanged and the y shift adds `2 * dy` times the total rise in x, which is 0. */
  lemma ShoelaceTranslationInvariant(corners: seq<Point>, dx: real, dy: real)
    ensures ShoelaceSum(Translate(corners, dx, dy)) == ShoelaceSum(corners)
  {
    ShoelacePrefixShift(corners, dx, dy, |corners|);
    if |corners| > 0 {
      XRiseTelescopes(corners, |corners|);
      TimesZero(2.0 * dy, XRise(corners, |corners|));
    }
  }

  /** Twice the signed area of the polygon (the shoelace formula): positive when the
      corners run counter-clockwise with the y axis pointing up. */
  function SignedAreaPrefix(corners: seq<Point>, k: int): real
    requires 0 <= k <= |corners|
  {
    if k == 0 then 0.0
    else
      var e := Edge(corners, k - 1);
      SignedAreaPrefix(corners, k - 1) + (e.from.x * e.to.y - e.to.x * e.from.y)
  }

  /** The product `x * y` of a corner. */
  function Moment(c: Point): real
  {
    c.x * c.y
  }

  /** One edge's winding term is its moment difference minus its signed-area term. */
  lemma ShoelaceTermSplit(c1: Point, c2: Point)
    ensures ShoelaceTerm(c1, c2) == (Moment(c2) - Moment(c1)) - (c1.x * c2.y - c2.x * c1.y)
  {
  }

  /** The moments telescope as the rises do. */
  function MomentRise(corners: seq<Point>, k: int): real
    requires 0 <= k <= |corners|
  {
    if k == 0 then 0.0 else MomentRise(corners, k - 1) + (Moment(Edge(corners, k - 1).to) - Moment(Edge(corners, k - 1).from))
  }

  lemma {:induction false} MomentRiseTelescopes(corners: seq<Point>, k: int)
    requires 0 < |corners| && 0 <= k <= |corners|
    ensures k < |corners| ==> MomentRise(corners, k) == Moment(corners[k]) - Moment(corners[0])
    ensures k == |corners| ==> MomentRise(corners, k) == 0.0
  {
    if k > 0 {
      MomentRiseTelescopes(corners, k - 1);
    }
  }

  lemma {:induction false} ShoelacePrefixSplit(corners: seq<Point>, k: int)
    requires 0 <= k <= |corners|
    ensures ShoelacePrefix(corners, k) == MomentRise(corners, k) - SignedAreaPrefix(corners, k)
  {
    if k > 0 {
      ShoelacePrefixSplit(corners, k - 1);
      var e := Edge(corners, k - 1);
      ShoelaceTermSplit(e.from, e.to);
      assert ShoelacePrefix(corners, k) == ShoelacePrefix(corners, k - 1) + ShoelaceTerm(e.from, e.to);
      assert MomentRise(corners, k) == MomentRise(corners, k - 1) + (Moment(e.to) - Moment(e.from));
      assert SignedAreaPrefix(corners, k) == SignedAreaPrefix(corners, k - 1) + (e.from.x * e.to.y - e.to.x * e.from.y);
    }
  }

  /** The winding sum is minus twice the signed area, so for three or more corners
      `isClockwise` holds exactly when the signed area is not positive: clockwise with the
      y axis pointing up, which is counter-clockwise on a screen whose y axis points down. */
  lemma ShoelaceIsNegatedArea(corners: seq<Point>)
    ensures ShoelaceSum(corners) == -SignedAreaPrefix(corners, |corners|)
  {
    ShoelacePrefixSplit(corners, |corners|);
    if |corners| > 0 {
      MomentRiseTelescopes(corners, |corners|);
    }
  }

  /** The square (0,0), (10,0), (10,10), (0,10) winds with sum -200, the reverse order
      with sum 200: the first is not clockwise, the second is. */
  method SquareWindings() returns (forward: bool, backward: bool)
    ensures !forward && backward
  {
    var square := [Point(0.0, 0.0), Point(10.0, 0.0), Point(10.0, 10.0), Point(0.0, 10.0)];
    var reversed := [Point(0.0, 0.0), Point(0.0, 10.0), Point(10.0, 10.0), Point(10.0, 0.0)];
    SquareSums(square, reversed);
    forward := IsClockwise(square);
    backward := IsClockwise(reversed);
  }

  lemma SquareSums(square: seq<Point>, reversed: seq<Point>)
    requires |square| == 4 && square[0] == Point(0.0, 0.0) && square[1] == Point(10.0, 0.0)
    requires square[2] == Point(10.0, 10.0) && square[3] == Point(0.0, 10.0)
    requires |reversed| == 4 && reversed[0] == Point(0.0, 0.0) && reversed[1] == Point(0.0, 10.0)
    requires reversed[2] == Point(10.0, 10.0) && reversed[3] == Point(10.0, 0.0)
    ensures ShoelaceSum(square) == -200.0 && ShoelaceSum(reversed) == 200.0
  {
    FourCornerSum(square);
    assert ShoelaceTerm(square[2], square[3]) == -200.0;
    FourCornerSum(reversed);
    assert ShoelaceTerm(reversed[1], reversed[2]) == 200.0;
  }

  /** The winding sum of a quadrilateral, term by term. */
  lemma FourCornerSum(q: seq<Point>)
    requires |q| == 4
    ensures ShoelaceSum(q) == ShoelaceTerm(q[0], q[1]) + ShoelaceTerm(q[1], q[2])
                              + ShoelaceTerm(q[2], q[3]) + ShoelaceTerm(q[3], q[0])
  {
    assert ShoelacePrefix(q, 1) == ShoelaceTerm(q[0], q[1]);
    assert ShoelacePrefix(q, 2) == ShoelacePrefix(q, 1) + ShoelaceTerm(q[1], q[2]);
    assert ShoelacePrefix(q, 3) == ShoelacePrefix(q, 2) + ShoelaceTerm(q[2], q[3]);
  }

  // ---------------------------------------------------------------------------
  // pointInPolygon
  // ---------------------------------------------------------------------------

  /** The number of the first `k` edges that `lineLineIntersect` the segment `ray`. */
  function Crossings(ray: Segment, corners: seq<Point>, k: int): nat
    requires 0 <= k <= |corners|
  {
    if k == 0 then 0
    else Crossings(ray, corners, k - 1) + (if LineLineIntersect(ray, Edge(corners, k - 1)) then 1 else 0)
  }

  /** The default start coordinate `Math.min(...cs) - 10`. The source computes `Infinity`
      for an empty polygon, whose start is never used; 0 stands in for it here. */
  function DefaultStart(cs: seq<real>): (r: real)
    ensures |cs| > 0 ==> (forall i :: 0 <= i < |cs| ==> r <= cs[i] - 10.0) && exists i :: 0 <= i < |cs| && r == cs[i] - 10.0
  {
    if |cs| == 0 then 0.0 else Min(cs) - 10.0
  }

  /** The start of the ray: each coordinate the caller gives, or its default (`??=`). A
      defaulted coordinate lies strictly left of (below) every corner. */
  function RayStart(corners: seq<Point>, startX: Option<real>, startY: Option<real>): (r: Point)
    ensures startX.Some? ==> r.x == startX.value
    ensures startY.Some? ==> r.y == startY.value
    ensures startX.None? ==> forall i :: 0 <= i < |corners| ==> r.x < corners[i].x
    ensures startY.None? ==> forall i :: 0 <= i < |corners| ==> r.y < corners[i].y
    ensures startX.None? ==> r.x == DefaultStart(Xs(corners))
    ensures startY.None? ==> r.y == DefaultStart(Ys(corners))
  {
    Point(startX.GetOr(DefaultStart(Xs(corners))), startY.GetOr(DefaultStart(Ys(corners))))
  }

  /** The ray-casting test: an odd number of edges crosses the segment from `start` to `p`. */
  predicate Inside(p: Point, corners: seq<Point>, start: Point)
  {
    Crossings(Segment(start, p), corners, |corners|) % 2 == 1
  }

  /** `pointInPolygon(x, y, corners, startX?, startY?)`: counts the edges crossing the
      segment from the start to `p` and answers whether the count is odd. */
  method PointInPolygon(p: Point, corners: seq<Point>, startX: Option<real>, startY: Option<real>)
    returns (inside: bool)
    ensures inside <==> Inside(p, corners, RayStart(corners, startX, startY))
  {
    var sx := startX.GetOr(DefaultStart(Xs(corners)));
    var sy := startY.GetOr(DefaultStart(Ys(corners)));
    var intersects := CountCrossings(Segment(Point(sx, sy), p), corners);
    return intersects % 2 == 1;
  }

  /** The loop of `pointInPolygon`: the number of edges crossing `ray`, edge by edge. */
  method CountCrossings(ray: Segment, corners: seq<Point>) returns (intersects: nat)
    ensures intersects == Crossings(ray, corners, |corners|)
  {
    intersects := 0;
    var i := 0;
    while i < |corners|
      invariant 0 <= i <= |corners|
      invariant intersects == Crossings(ray, corners, i)
    {
      var a := corners[i];
      NextCornerIsModulo(i, |corners|);
      var b := corners[(i + 1) % |corners|];
      assert Segment(a, b) == Edge(corners, i);
      if LineLineIntersect(ray, Segment(a, b)) {
        intersects := intersects + 1;
      }
      i := i + 1;
    }
  }

  /** No point is inside a polygon without corners. */
  lemma NothingInsideEmpty(p: Point, start: Point)
    ensures !Inside(p, [], start)
  {
  }

  // ---------------------------------------------------------------------------
  // linePolygonIntersect, polygonPolygonIntersect
  // ---------------------------------------------------------------------------

  /** Some edge of the polygon, the closing one included, crosses the segment. */
  predicate SegmentCrossesPolygon(s: Segment, corners: seq<Point>)
  {
    exists i :: 0 <= i < |corners| && LineLineIntersect(s, Edge(corners, i))
  }

  /** `linePolygonIntersect(x1, y1, x2, y2, corners)`: the edges are tried in order and
      the first one that crosses the segment from `a` to `b` answers true. */
  method LinePolygonIntersect(a: Point, b: Point, corners: seq<Point>) returns (r: bool)
    ensures r <==> SegmentCrossesPolygon(Segment(a, b), corners)
  {
    var i := 0;
    while i < |corners|
      invariant 0 <= i <= |corners|
      invariant forall j :: 0 <= j < i ==> !LineLineIntersect(Segment(a, b), Edge(corners, j))
    {
      var c1 := corners[i];
      NextCornerIsModulo(i, |corners|);
      var c2 := corners[(i + 1) % |corners|];
      if LineLineIntersect(Segment(a, b), Segment(c1, c2)) {
        assert LineLineIntersect(Segment(a, b), Edge(corners, i));
        return true;
      }
      i := i + 1;
    }
    return false;
  }

  /** Some edge of the first polygon crosses some edge of the second. */
  predicate PolygonsCross(first: seq<Point>, second: seq<Point>)
  {
    exists i :: 0 <= i < |first| && SegmentCrossesPolygon(Edge(first, i), second)
  }

  /** `polygonPolygonIntersect(firstCorners, secondCorners)`: each edge of the first
      polygon in turn is tested against the second with `linePolygonIntersect`. */
  method PolygonPolygonIntersect(first: seq<Point>, second: seq<Point>) returns (r: bool)
    ensures r <==> PolygonsCross(first, second)
  {
    var i := 0;
    while i < |first|
      invariant 0 <= i <= |first|
      invariant forall j :: 0 <= j < i ==> !SegmentCrossesPolygon(Edge(first, j), second)
    {
      var c1 := first[i];
      NextCornerIsModulo(i, |first|);
      var c2 := first[(i + 1) % |first|];
      var hit := LinePolygonIntersect(c1, c2, second);
      if hit {
        assert SegmentCrossesPolygon(Edge(first, i), second);
        return true;
      }
      i := i + 1;
    }
    return false;
  }

  /** The polygon test does not depend on which polygon is given first. */
  lemma PolygonsCrossSymmetric(first: seq<Point>, second: seq<Point>)
    ensures PolygonsCross(first, second) <==> PolygonsCross(second, first)
  {
    forall i, j | 0 <= i < |first| && 0 <= j < |second|
      ensures LineLineIntersect(Edge(first, i), Edge(second, j)) <==> LineLineIntersect(Edge(second, j), Edge(first, i))
    {
      LineLineIntersectSymmetric(Edge(first, i), Edge(second, j));
    }
  }

  /** A polygon without corners crosses no segment, and no polygon in either position. */
  lemma EmptyPolygonCrossesNothing(s: Segment, empty: seq<Point>, other: seq<Point>)
    requires |empty| == 0
    ensures !SegmentCrossesPolygon(s, empty)
    ensures !PolygonsCross(empty, other) && !PolygonsCross(other, empty)
  {
  }

  // ---------------------------------------------------------------------------
  // polygonInsidePolygon, polygonOutsidePolygon
  // ---------------------------------------------------------------------------

  /** Every corner of `inner` passes the ray-casting test against `outer`. */
  predicate AllInside(inner: seq<Point>, outer: seq<Point>, start: Point)
  {
    forall i :: 0 <= i < |inner| ==> Inside(inner[i], outer, start)
  }

  /** No corner of `inner` passes the ray-casting test against `outer`. */
  predicate NoneInside(inner: seq<Point>, outer: seq<Point>, start: Point)
  {
    forall i :: 0 <= i < |inner| ==> !Inside(inner[i], outer, start)
  }

  /** `polygonInsidePolygon(insideCorners, outsideCorners, startX?, startY?)`: false at
      the first corner of the inner polygon that `pointInPolygon` places outside. */
  method PolygonInsidePolygon(inner: seq<Point>, outer: seq<Point>, startX: Option<real>, startY: Option<real>)
    returns (r: bool)
    ensures r <==> AllInside(inner, outer, RayStart(outer, startX, startY))
  {
    ghost var start := RayStart(outer, startX, startY);
    var i := 0;
    while i < |inner|
      invariant 0 <= i <= |inner|
      invariant forall j :: 0 <= j < i ==> Inside(inner[j], outer, start)
    {
      var inside := PointInPolygon(inner[i], outer, startX, startY);
      if !inside {
        return false;
      }
      i := i + 1;
    }
    return true;
  }

  /** `polygonOutsidePolygon(insideCorners, outsideCorners, startX?, startY?)`: false at
      the first corner of the inner polygon that `pointInPolygon` places inside. */
  method PolygonOutsidePolygon(inner: seq<Point>, outer: seq<Point>, startX: Option<real>, startY: Option<real>)
    returns (r: bool)
    ensures r <==> NoneInside(inner, outer, RayStart(outer, startX, startY))
  {
    ghost var start := RayStart(outer, startX, startY);
    var i := 0;
    while i < |inner|
      invariant 0 <= i <= |inner|
      invariant forall j :: 0 <= j < i ==> !Inside(inner[j], outer, start)
    {
      var inside := PointInPolygon(inner[i], outer, startX, startY);
      if inside {
        return false;
      }
      i := i + 1;
    }
    return true;
  }

  /** With the same start, a non-empty polygon is never both inside and outside another. */
  lemma InsideOutsideExclusive(inner: seq<Point>, outer: seq<Point>, start: Point)
    requires |inner| > 0
    ensures !(AllInside(inner, outer, start) && NoneInside(inner, outer, start))
  {
    if AllInside(inner, outer, start) {
      assert Inside(inner[0], outer, start);
    }
  }

  /** With no corners, the inner polygon is both inside and outside any polygon. */
  lemma EmptyInnerBoth(outer: seq<Point>, start: Point)
    ensures AllInside([], outer, start) && NoneInside([], outer, start)
  {
  }
}
