/** Point and segment primitives of the utility class (src/core/utils.ts):
    projection of a point on a segment and the segment intersection test.
    Coordinates are exact reals; the source computes with IEEE doubles. */
module Geometry {

  /** A point of the floor plan. */
  datatype Point = Point(x: real, y: real)

  /** The segment from `from` to `to` (the source passes its four coordinates). */
  datatype Segment = Segment(from: Point, to: Point)

  /** The point a fraction `t` of the way from `a` to `b`. */
  function Lerp(a: Point, b: Point, t: real): Point
  {
    Point(a.x + t * (b.x - a.x), a.y + t * (b.y - a.y))
  }

  /** Squared Euclidean distance (the source's `distance` without its square root). */
  function SqDist(p: Point, q: Point): real
  {
    (q.x - p.x) * (q.x - p.x) + (q.y - p.y) * (q.y - p.y)
  }

  // ---------------------------------------------------------------------------
  // closestPointOnLine
  // ---------------------------------------------------------------------------

  /** The source's `dot`: the vector from `a` to `p` against the direction from `a` to `b`. */
  function DotAlong(p: Point, a: Point, b: Point): real
  {
    (p.x - a.x) * (b.x - a.x) + (p.y - a.y) * (b.y - a.y)
  }

  /** `dot / lenSq`, where `lenSq` is the squared length of the segment: where the
      perpendicular from `p` meets the line through `a` and `b`, as a fraction of the way
      from `a` to `b`; 0 when the length is 0. */
  function ProjectionParam(p: Point, a: Point, b: Point): real
  {
    if SqDist(a, b) != 0.0 then DotAlong(p, a, b) / SqDist(a, b) else 0.0
  }

  /** `closestPointOnLine(x, y, x1, y1, x2, y2)`: the projection of `p` on the segment
      from `a` to `b`, clamped to its end points. The result always lies on the segment. */
  function ClosestPointOnLine(p: Point, a: Point, b: Point): (r: Point)
    ensures exists t :: 0.0 <= t <= 1.0 && r == Lerp(a, b, t)
  {
    var param := ProjectionParam(p, a, b);
    if param < 0.0 || (a.x == b.x && a.y == b.y) then
      assert a == Lerp(a, b, 0.0);
      a
    else if param > 1.0 then
      assert b == Lerp(a, b, 1.0);
      b
    else
      assert Point(a.x + param * (b.x - a.x), a.y + param * (b.y - a.y)) == Lerp(a, b, param);
      Point(a.x + param * (b.x - a.x), a.y + param * (b.y - a.y))
  }

  /** A squared distance is never negative. */
  lemma SqDistNonNegative(p: Point, q: Point)
    ensures SqDist(p, q) >= 0.0
    ensures p == q ==> SqDist(p, q) == 0.0
  {
  }

  /** The square of a positive number, named `s`, is positive. */
  lemma SquareOfPositive(d: real, s: real)
    requires d > 0.0 && s == d * d
    ensures s > 0.0
  {
    calc {
      s;
    ==
      d * d;
    >
      0.0;
    }
  }

  /** The square of a non-zero number, named `s`, is positive. */
  lemma SquareOfNonZero(d: real, s: real)
    requires d != 0.0 && s == d * d
    ensures s > 0.0
  {
    if d > 0.0 {
      SquareOfPositive(d, s);
    } else {
      calc {
        s;
      ==
        d * d;
      ==
        (-d) * (-d);
      }
      SquareOfPositive(-d, s);
    }
  }

  /** A square, named `s`, is never negative. */
  lemma SquareNonNegative(d: real, s: real)
    requires s == d * d
    ensures s >= 0.0
  {
    if d != 0.0 {
      SquareOfNonZero(d, s);
    } else {
      calc {
        s;
      ==
        d * d;
      ==
        0.0;
      }
    }
  }

  /** Distinct points are a positive squared distance apart. */
  lemma SqDistPositive(a: Point, b: Point)
    requires a != b
    ensures SqDist(a, b) > 0.0
  {
    var u, v := b.x - a.x, b.y - a.y;
    var su, sv := u * u, v * v;
    SquareNonNegative(u, su);
    SquareNonNegative(v, sv);
    if u != 0.0 {
      SquareOfNonZero(u, su);
    } else {
      SquareOfNonZero(v, sv);
    }
    assert SqDist(a, b) == su + sv;
  }

  /** Real division undone by multiplication. */
  lemma QuotientTimesDivisor(n: real, d: real)
    requires d != 0.0
    ensures (n / d) * d == n
  {
  }

  /** How the quotient `dot / lenSq` compares with 0 and 1. */
  lemma QuotientBounds(dot: real, lenSq: real)
    requires lenSq > 0.0
    ensures dot / lenSq < 0.0 <==> dot < 0.0
    ensures dot / lenSq > 1.0 <==> dot > lenSq
  {
    var q := dot / lenSq;
    QuotientTimesDivisor(dot, lenSq);
    assert (q - 1.0) * lenSq == dot - lenSq;
  }

  /** The projection parameter of a segment of non-zero length, in terms of `dot` and
      `lenSq`. */
  lemma ProjectionParamFacts(p: Point, a: Point, b: Point)
    requires SqDist(a, b) != 0.0
    ensures SqDist(a, b) > 0.0
    ensures ProjectionParam(p, a, b) * SqDist(a, b) == DotAlong(p, a, b)
    ensures ProjectionParam(p, a, b) < 0.0 <==> DotAlong(p, a, b) < 0.0
    ensures ProjectionParam(p, a, b) > 1.0 <==> DotAlong(p, a, b) > SqDist(a, b)
  {
    SqDistNonNegative(a, b);
    QuotientTimesDivisor(DotAlong(p, a, b), SqDist(a, b));
    QuotientBounds(DotAlong(p, a, b), SqDist(a, b));
  }

  /** The outcomes of the projection. A degenerate segment gives its start; otherwise a
      parameter below 0 gives `a`, above 1 gives `b`, and in between the result is the foot
      of the perpendicular: the vector from it to `p` is orthogonal to the segment. */
  lemma ClosestPointCases(p: Point, a: Point, b: Point)
    ensures a == b ==> ClosestPointOnLine(p, a, b) == a
    ensures a != b && ProjectionParam(p, a, b) < 0.0 ==> ClosestPointOnLine(p, a, b) == a
    ensures a != b && ProjectionParam(p, a, b) > 1.0 ==> ClosestPointOnLine(p, a, b) == b
    ensures 0.0 <= ProjectionParam(p, a, b) <= 1.0 ==>
              ClosestPointOnLine(p, a, b) == Lerp(a, b, ProjectionParam(p, a, b))
    ensures 0.0 <= ProjectionParam(p, a, b) <= 1.0 && a != b ==>
              var r := ClosestPointOnLine(p, a, b);
              (p.x - r.x) * (b.x - a.x) + (p.y - r.y) * (b.y - a.y) == 0.0
  {
    if a != b {
      SqDistPositive(a, b);
    }
    var param := ProjectionParam(p, a, b);
    var C, D := b.x - a.x, b.y - a.y;
    var r := ClosestPointOnLine(p, a, b);
    if SqDist(a, b) != 0.0 && 0.0 <= param <= 1.0 {
      ProjectionParamFacts(p, a, b);
      assert r == Point(a.x + param * C, a.y + param * D);
      calc {
        (p.x - r.x) * C + (p.y - r.y) * D;
        ((p.x - a.x) - param * C) * C + ((p.y - a.y) - param * D) * D;
        DotAlong(p, a, b) - param * SqDist(a, b);
      }
    }
  }

  /** The squared distance from `p` to the point at fraction `t` along the segment, as a
      quadratic in `t`. */
  lemma SqDistAlong(p: Point, a: Point, b: Point, t: real)
    ensures SqDist(p, Lerp(a, b, t)) == SqDist(p, a) - 2.0 * t * DotAlong(p, a, b) + t * t * SqDist(a, b)
  {
    var q := Lerp(a, b, t);
    var distT, dist0, dot, lenSq := SqDist(p, q), SqDist(p, a), DotAlong(p, a, b), SqDist(a, b);
    SqDistDef(p, q);
    SqDistDef(p, a);
    SqDistDef(a, b);
    DotAlongDef(p, a, b);
    QuadraticAlong(p.x, p.y, a.x, a.y, b.x, b.y, t, q.x, q.y, distT, dist0, dot, lenSq);
  }

  /** Solver helper: `SqDist` written out, as a separate step that keeps the solver's work small. */
  lemma SqDistDef(p: Point, q: Point)
    ensures SqDist(p, q) == (q.x - p.x) * (q.x - p.x) + (q.y - p.y) * (q.y - p.y)
  {
  }

  /** Solver helper: `DotAlong` written out. */
  lemma DotAlongDef(p: Point, a: Point, b: Point)
    ensures DotAlong(p, a, b) == (p.x - a.x) * (b.x - a.x) + (p.y - a.y) * (b.y - a.y)
  {
  }

  /** `SqDistAlong` on coordinates: the two coordinates `(qx, qy)` of the point at fraction
      `t`, and the four squared distances and dot product named as numbers. */
  lemma QuadraticAlong(px: real, py: real, ax: real, ay: real, bx: real, bY: real, t: real,
                       qx: real, qy: real, distT: real, dist0: real, dot: real, lenSq: real)
    requires qx == ax + t * (bx - ax) && qy == ay + t * (bY - ay)
    requires distT == (qx - px) * (qx - px) + (qy - py) * (qy - py)
    requires dist0 == (ax - px) * (ax - px) + (ay - py) * (ay - py)
    requires dot == (px - ax) * (bx - ax) + (py - ay) * (bY - ay)
    requires lenSq == (bx - ax) * (bx - ax) + (bY - ay) * (bY - ay)
    ensures distT == dist0 - 2.0 * t * dot + t * t * lenSq
  {
  }

  /** Before the start of the segment: the squared distance grows along the segment by
      `t * (t * lenSq - 2 * dot)` with `dot < 0`. */
  lemma NearestBeforeStart(dist0: real, distT: real, dot: real, lenSq: real, t: real)
    requires 0.0 <= t <= 1.0 && dot < 0.0 && lenSq > 0.0
    requires distT == dist0 - 2.0 * t * dot + t * t * lenSq
    ensures dist0 <= distT
  {
  }

  /** Past the end of the segment: the squared distance at `t` exceeds the one at 1 by
      `(1 - t) * (2 * dot - (1 + t) * lenSq)` with `dot > lenSq`. */
  lemma NearestPastEnd(dist0: real, distT: real, dist1: real, dot: real, lenSq: real, t: real)
    requires 0.0 <= t <= 1.0 && dot > lenSq && lenSq > 0.0
    requires distT == dist0 - 2.0 * t * dot + t * t * lenSq
    requires dist1 == dist0 - 2.0 * dot + lenSq
    ensures dist1 <= distT
  {
    var k := 2.0 * dot - (1.0 + t) * lenSq;
    assert (1.0 + t) * lenSq <= 2.0 * lenSq;
    assert k >= 0.0;
    assert (1.0 - t) * k >= 0.0;
    assert distT - dist1 == (1.0 - t) * k;
  }

  /** Inside the segment: the squared distance at `t` exceeds the one at `param` by
      `lenSq * (t - param)^2`. */
  lemma NearestInside(dist0: real, distT: real, distP: real, dot: real, lenSq: real, t: real, param: real)
    requires lenSq > 0.0 && param * lenSq == dot
    requires distT == dist0 - 2.0 * t * dot + t * t * lenSq
    requires distP == dist0 - 2.0 * param * dot + param * param * lenSq
    ensures distP <= distT
  {
    var w := t - param;
    assert w * w >= 0.0;
    assert lenSq * (w * w) >= 0.0;
    assert distT - distP == lenSq * (w * w);
  }

  /** Parameter below 0: the start of the segment is nearest. */
  lemma NearestCaseStart(p: Point, a: Point, b: Point, t: real)
    requires 0.0 <= t <= 1.0 && SqDist(a, b) != 0.0 && ProjectionParam(p, a, b) < 0.0
    ensures SqDist(p, a) <= SqDist(p, Lerp(a, b, t))
  {
    ProjectionParamFacts(p, a, b);
    SqDistAlong(p, a, b, t);
    NearestBeforeStart(SqDist(p, a), SqDist(p, Lerp(a, b, t)), DotAlong(p, a, b), SqDist(a, b), t);
  }

  /** Parameter above 1: the end of the segment is nearest. */
  lemma NearestCaseEnd(p: Point, a: Point, b: Point, t: real)
    requires 0.0 <= t <= 1.0 && SqDist(a, b) != 0.0 && ProjectionParam(p, a, b) > 1.0
    ensures SqDist(p, b) <= SqDist(p, Lerp(a, b, t))
  {
    ProjectionParamFacts(p, a, b);
    SqDistAlong(p, a, b, t);
    SqDistAlong(p, a, b, 1.0);
    assert Lerp(a, b, 1.0) == b;
    NearestPastEnd(SqDist(p, a), SqDist(p, Lerp(a, b, t)), SqDist(p, b), DotAlong(p, a, b), SqDist(a, b), t);
  }

  /** Parameter in [0, 1]: the foot of the perpendicular is nearest. */
  lemma NearestCaseInside(p: Point, a: Point, b: Point, t: real)
    requires SqDist(a, b) != 0.0
    ensures SqDist(p, Lerp(a, b, ProjectionParam(p, a, b))) <= SqDist(p, Lerp(a, b, t))
  {
    ProjectionParamFacts(p, a, b);
    NearestAtFoot(p, a, b, t, ProjectionParam(p, a, b));
  }

  /** The foot of the perpendicular, given by any `param` with `param * lenSq == dot`,
      is at least as near to `p` as every point of the line. */
  lemma NearestAtFoot(p: Point, a: Point, b: Point, t: real, param: real)
    requires SqDist(a, b) > 0.0 && param * SqDist(a, b) == DotAlong(p, a, b)
    ensures SqDist(p, Lerp(a, b, param)) <= SqDist(p, Lerp(a, b, t))
  {
    SqDistAlong(p, a, b, t);
    SqDistAlong(p, a, b, param);
    var dist0, distT, distP := SqDist(p, a), SqDist(p, Lerp(a, b, t)), SqDist(p, Lerp(a, b, param));
    var dot, lenSq := DotAlong(p, a, b), SqDist(a, b);
    NearestInside(dist0, distT, distP, dot, lenSq, t, param);
  }

  /** The result is the point of the segment nearest to `p`. */
  lemma ClosestPointIsNearest(p: Point, a: Point, b: Point, t: real)
    requires 0.0 <= t <= 1.0
    ensures SqDist(p, ClosestPointOnLine(p, a, b)) <= SqDist(p, Lerp(a, b, t))
  {
    if a != b {
      SqDistPositive(a, b);
    }
    var param := ProjectionParam(p, a, b);
    ClosestPointCases(p, a, b);
    if a == b {
      assert Lerp(a, b, t) == a;
    } else if param < 0.0 {
      NearestCaseStart(p, a, b, t);
    } else if param > 1.0 {
      NearestCaseEnd(p, a, b, t);
    } else {
      NearestCaseInside(p, a, b, t);
    }
  }

  // ---------------------------------------------------------------------------
  // lineLineIntersect
  // ---------------------------------------------------------------------------

  /** Twice the signed area of the triangle p, q, r: positive when r lies to the left of
      the directed line from p to q (y axis pointing up). */
  function Orientation(p: Point, q: Point, r: Point): real
  {
    (q.x - p.x) * (r.y - p.y) - (q.y - p.y) * (r.x - p.x)
  }

  /** The source's `ccw(p1, p2, p3)` helper, compared exactly as written: `p3` lies
      strictly to the left of the directed line from `p1` to `p2`. */
  predicate Ccw(p1: Point, p2: Point, p3: Point): (r: bool)
    ensures r <==> Orientation(p1, p2, p3) > 0.0
  {
    (p3.y - p1.y) * (p2.x - p1.x) > (p2.y - p1.y) * (p3.x - p1.x)
  }

  /** `lineLineIntersect`: each segment has one end strictly left of the other segment's
      line and the other end not strictly left of it. */
  predicate LineLineIntersect(s: Segment, t: Segment): (r: bool)
    ensures r <==> (Orientation(t.from, t.to, s.from) > 0.0) != (Orientation(t.from, t.to, s.to) > 0.0)
                   && (Orientation(s.from, s.to, t.from) > 0.0) != (Orientation(s.from, s.to, t.to) > 0.0)
  {
    var a, b, c, d := s.from, s.to, t.from, t.to;
    CcwIsOrientation(a, c, d);
    CcwIsOrientation(b, c, d);
    Ccw(a, c, d) != Ccw(b, c, d) && Ccw(a, b, c) != Ccw(a, b, d)
  }

  /** `ccw` is the sign test of the orientation, which is invariant under rotating its
      three arguments. */
  lemma CcwIsOrientation(p: Point, q: Point, r: Point)
    ensures Ccw(p, q, r) <==> Orientation(p, q, r) > 0.0
    ensures Orientation(p, q, r) == Orientation(q, r, p)
  {
    var ux, uy, vx, vy := q.x - p.x, q.y - p.y, r.x - p.x, r.y - p.y;
    assert Orientation(q, r, p) == (vx - ux) * (-uy) - (vy - uy) * (-ux);
  }

  /** The test does not depend on which segment is given first. */
  lemma LineLineIntersectSymmetric(s: Segment, t: Segment)
    ensures LineLineIntersect(s, t) == LineLineIntersect(t, s)
  {
    var a, b, c, d := s.from, s.to, t.from, t.to;
    CcwIsOrientation(a, c, d);
    CcwIsOrientation(b, c, d);
    CcwIsOrientation(c, a, b);
    CcwIsOrientation(d, a, b);
    CcwIsOrientation(a, b, c);
    CcwIsOrientation(a, b, d);
    CcwIsOrientation(c, d, a);
    CcwIsOrientation(c, d, b);
  }

  /** Collinear segments are never reported, overlapping or not: when both ends of one
      segment lie on the other's line, every `ccw` that decides the result is false. */
  lemma CollinearNotReported(s: Segment, t: Segment)
    requires (Orientation(s.from, s.to, t.from) == 0.0 && Orientation(s.from, s.to, t.to) == 0.0)
          || (Orientation(t.from, t.to, s.from) == 0.0 && Orientation(t.from, t.to, s.to) == 0.0)
    ensures !LineLineIntersect(s, t)
  {
    var a, b, c, d := s.from, s.to, t.from, t.to;
    CcwIsOrientation(a, b, c);
    CcwIsOrientation(a, b, d);
    CcwIsOrientation(a, c, d);
    CcwIsOrientation(b, c, d);
  }

  /** A proper crossing is reported: when the ends of each segment lie strictly on
      opposite sides of the other segment's line, the test answers true. */
  lemma ProperCrossingReported(s: Segment, t: Segment)
    requires (Orientation(t.from, t.to, s.from) > 0.0 && Orientation(t.from, t.to, s.to) < 0.0)
          || (Orientation(t.from, t.to, s.from) < 0.0 && Orientation(t.from, t.to, s.to) > 0.0)
    requires (Orientation(s.from, s.to, t.from) > 0.0 && Orientation(s.from, s.to, t.to) < 0.0)
          || (Orientation(s.from, s.to, t.from) < 0.0 && Orientation(s.from, s.to, t.to) > 0.0)
    ensures LineLineIntersect(s, t)
  {
    var a, b, c, d := s.from, s.to, t.from, t.to;
    CcwIsOrientation(a, c, d);
    CcwIsOrientation(b, c, d);
    CcwIsOrientation(a, b, c);
    CcwIsOrientation(a, b, d);
  }

  /** A quotient `n / e` with `n` between 0 and `e` lies in [0, 1]. */
  lemma QuotientInUnit(n: real, e: real)
    requires (0.0 <= n <= e && e != 0.0) || (e <= n <= 0.0 && e != 0.0)
    ensures 0.0 <= n / e <= 1.0
  {
    if e > 0.0 {
      QuotientBounds(n, e);
    } else {
      QuotientBounds(-n, -e);
      QuotientTimesDivisor(n, e);
      QuotientTimesDivisor(-n, -e);
      CancelFactor(n / e, (-n) / (-e), e);
    }
  }

  /** A non-zero factor cancels. */
  lemma CancelFactor(x: real, y: real, e: real)
    requires x * e == y * e && e != 0.0
    ensures x == y
  {
  }

  /** The intersection point of the two supporting lines, in the multiplied-out form
      that the soundness proof needs (every term of the identity cancels). */
  lemma MeetIdentity(a: Point, b: Point, c: Point, d: Point)
    ensures Orientation(c, d, a) - Orientation(c, d, b) == Orientation(a, b, d) - Orientation(a, b, c)
    ensures (Orientation(c, d, a) - Orientation(c, d, b)) * (a.x - c.x)
            + Orientation(c, d, a) * (b.x - a.x) + Orientation(a, b, c) * (d.x - c.x) == 0.0
    ensures (Orientation(c, d, a) - Orientation(c, d, b)) * (a.y - c.y)
            + Orientation(c, d, a) * (b.y - a.y) + Orientation(a, b, c) * (d.y - c.y) == 0.0
  {
  }

  /** One coordinate of the meeting point: with `u = g / (g - h)` and
      `v = -al / (g - h)`, the identity of `MeetIdentity` puts the point at `u` on the
      first line and the point at `v` on the second at the same place. */
  lemma MeetCoordinate(ax: real, bx: real, cx: real, dx: real, u: real, v: real, g: real, h: real, al: real)
    requires g - h != 0.0 && u * (g - h) == g && v * (g - h) == -al
    requires (g - h) * (ax - cx) + g * (bx - ax) + al * (dx - cx) == 0.0
    ensures ax + u * (bx - ax) == cx + v * (dx - cx)
  {
    var e := g - h;
    assert u * e * (bx - ax) == g * (bx - ax);
    assert v * e * (dx - cx) == -al * (dx - cx);
    CancelFactor(ax + u * (bx - ax), cx + v * (dx - cx), e);
  }

  /** A reported intersection is real: the two segments share a point. */
  lemma LineLineIntersectSound(s: Segment, t: Segment)
    requires LineLineIntersect(s, t)
    ensures exists u, v :: 0.0 <= u <= 1.0 && 0.0 <= v <= 1.0 && Lerp(s.from, s.to, u) == Lerp(t.from, t.to, v)
  {
    var a, b, c, d := s.from, s.to, t.from, t.to;
    CcwIsOrientation(a, c, d);
    CcwIsOrientation(b, c, d);
    CcwIsOrientation(a, b, c);
    CcwIsOrientation(a, b, d);
    var g, h := Orientation(c, d, a), Orientation(c, d, b);
    var al, be := Orientation(a, b, c), Orientation(a, b, d);
    assert (g > 0.0) != (h > 0.0) && (al > 0.0) != (be > 0.0);
    MeetIdentity(a, b, c, d);
    CrossingMeets(a, b, c, d, g, h, al, be);
  }

  /** Two segments whose end points lie strictly on opposite sides of each other's line
      meet, where `g`, `h` are the orientations of `a`, `b` against `c`-`d` and `al`, `be`
      those of `c`, `d` against `a`-`b` (tied together as `MeetIdentity` states): the
      meeting point is at `u = g / (g - h)` along the first and `v = -al / (g - h)`
      along the second. */
  lemma CrossingMeets(a: Point, b: Point, c: Point, d: Point, g: real, h: real, al: real, be: real)
    requires g - h == be - al
    requires (g - h) * (a.x - c.x) + g * (b.x - a.x) + al * (d.x - c.x) == 0.0
    requires (g - h) * (a.y - c.y) + g * (b.y - a.y) + al * (d.y - c.y) == 0.0
    requires (g > 0.0) != (h > 0.0) && (al > 0.0) != (be > 0.0)
    ensures exists u, v :: 0.0 <= u <= 1.0 && 0.0 <= v <= 1.0 && Lerp(a, b, u) == Lerp(c, d, v)
  {
    QuotientInUnit(g, g - h);
    QuotientInUnit(-al, g - h);
    var u, v := g / (g - h), (-al) / (g - h);
    QuotientTimesDivisor(g, g - h);
    QuotientTimesDivisor(-al, g - h);
    MeetCoordinate(a.x, b.x, c.x, d.x, u, v, g, h, al);
    MeetCoordinate(a.y, b.y, c.y, d.y, u, v, g, h, al);
    assert Lerp(a, b, u) == Lerp(c, d, v);
  }
}
