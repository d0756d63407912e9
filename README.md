# blueprint3d core utilities in Dafny

This project models the static utility class `BP3D.Core.Utils` of blueprint3d
(`src/core/utils.ts`). The floor-plan editor uses it for two things:

- **2D geometry.** Projection of a point on a wall segment (`closestPointOnLine`),
  the winding order of a room outline (`isClockwise`), the strict segment
  intersection test (`lineLineIntersect`), ray casting (`pointInPolygon`), and the
  polygon-level tests built on them (`linePolygonIntersect`, `polygonPolygonIntersect`,
  `polygonInsidePolygon`, `polygonOutsidePolygon`).
- **Generic array helpers.** `cycle`, `unique`, `removeValue`, `removeIf`, `subtract`
  and `hasValue`.

The model computes with exact arithmetic. Coordinates are `real`, not IEEE doubles, so
every fact proved here holds over the reals. None of them is claimed bit for bit for
the floating-point program.

## Layout

| file | module | what it holds |
|---|---|---|
| `wrappers.dfy` | `Wrappers` | `Option`, for the optional `startX` / `startY` arguments and their `??=` defaults |
| `modular.dfy` | `Modular` | JavaScript's truncating `%` (`JsRemainder`) and facts about Dafny's Euclidean `%` |
| `array_helpers.dfy` | `ArrayHelpers` | the array helpers |
| `geometry.dfy` | `Geometry` | `Point`, `Segment`, `closestPointOnLine`, `lineLineIntersect` |
| `polygons.dfy` | `Polygons` | polygon edges, `isClockwise`, `pointInPolygon` and the polygon tests |

The source's form is kept where it matters:

- **Loops become methods.** Where the source accumulates in a loop or returns early from
  one, the model is a method with a `while` loop. This covers `isClockwise`,
  `pointInPolygon`, the two intersection tests and the two containment tests. Each method
  is proved against a specification function (`ShoelaceSum`, `Crossings`,
  `SegmentCrossesPolygon`, `PolygonsCross`, `AllInside`, `NoneInside`), and the
  properties are proved about those functions.
- **`removeValue` mutates its argument.** A JavaScript array is a shared, resizable object,
  so the model is the class `DynamicArray` with a `seq` field. The method walks it from
  the back and splices, as the source does.
- **The other helpers are pure.** `removeIf`, `subtract`, `hasValue`, `cycle` and `unique`
  are pure functions on sequences.
- **The closing edge.** The source finds the corner after `i` as `(i + 1) % n`. The
  loops compute exactly that. `Polygons.NextCorner` is the same index written without
  `%`, and `NextCornerIsModulo` proves the two agree.
- **The shift of `cycle`.** `cycle` normalises its shift with `((shift % n) + n) % n`,
  using JavaScript's truncating `%`. `NormalisedShift` writes out that expression and
  proves that it equals the Euclidean remainder, so a negative shift rotates right.

## Model

| member | source | states |
|---|---|---|
| Modular.JsRemainder | blueprint3d-master/src/core/utils.ts:215 | JavaScript's `%` lies strictly between `-n` and `n`; it agrees with the Euclidean remainder for a non-negative dividend and is never positive for a negative one |
| Modular.NormalisedJsRemainder | blueprint3d-master/src/core/utils.ts:215 | `((a % n) + n) % n` with truncating `%` is the Euclidean remainder of `a` by `n`, for negative `a` too |
| ArrayHelpers.NormalisedShift | blueprint3d-master/src/core/utils.ts:215 | the normalised shift lies in `[0, n)` and is congruent to the shift modulo `n` |
| ArrayHelpers.RemoveIf | blueprint3d-master/src/core/utils.ts:209-211 | no element of the result satisfies the predicate, and the result is no longer than the input |
| ArrayHelpers.RemoveIfCounts | blueprint3d-master/src/core/utils.ts:209-211 | a value satisfying the predicate has no copy left; any other value keeps all its copies |
| ArrayHelpers.RemoveIfIsSubsequence | blueprint3d-master/src/core/utils.ts:209-211 | the kept elements stay in their original order (the result is a subsequence of the input) |
| ArrayHelpers.RemoveIfMembership | blueprint3d-master/src/core/utils.ts:209-211 | a value is in the result iff it is in the input and does not satisfy the predicate |
| ArrayHelpers.Subtract | blueprint3d-master/src/core/utils.ts:241-244 | no element of the result occurs in `subArray`, and the result is no longer than the input |
| ArrayHelpers.SubtractMembership | blueprint3d-master/src/core/utils.ts:241-244 | a value is in the result iff it is in `array` and not in `subArray` |
| ArrayHelpers.SubtractKeepsOrderAndCopies | blueprint3d-master/src/core/utils.ts:241-244 | the result is an order-preserving subsequence, and it keeps every copy of each value not in `subArray` |
| ArrayHelpers.HasValue | blueprint3d-master/src/core/utils.ts:237-239 | true iff some index of the array holds the value |
| ArrayHelpers.HasValueAfterSubtract | blueprint3d-master/src/core/utils.ts:237-244 | after `subtract`, a value is present iff the first array has it and the second does not |
| ArrayHelpers.Cycle | blueprint3d-master/src/core/utils.ts:213-217 | rotation keeps the length; the empty array gives the empty array |
| ArrayHelpers.CycleAt | blueprint3d-master/src/core/utils.ts:213-217 | element `k` of the result is element `(k + shift) mod n` of the input, for any integer shift, negative ones included |
| ArrayHelpers.CycleIndices | blueprint3d-master/src/core/utils.ts:213-217 | the same index law, for all indices at once |
| ArrayHelpers.CyclePermutes | blueprint3d-master/src/core/utils.ts:213-217 | the result is a permutation of the input (equal multisets) |
| ArrayHelpers.CycleByMultiple | blueprint3d-master/src/core/utils.ts:213-217 | a shift that is a multiple of the length returns the input unchanged |
| ArrayHelpers.CycleInverse | blueprint3d-master/src/core/utils.ts:213-217 | cycling by `-shift` undoes cycling by `shift` |
| ArrayHelpers.UniqueBy | blueprint3d-master/src/core/utils.ts:219-227 | `unique(arr, hashFunc)`: the result is a subsequence of the input and no two kept items share a key |
| ArrayHelpers.Unique | blueprint3d-master/src/core/utils.ts:219-227 | `unique(arr)` without `hashFunc`: the result is a subsequence of the input with no value kept twice |
| ArrayHelpers.UniqueIsFirstOccurrences | blueprint3d-master/src/core/utils.ts:219-227 | `unique` equals an independent reference definition: the items that are the first with their key, in index order |
| ArrayHelpers.UniqueSpec | blueprint3d-master/src/core/utils.ts:219-227 | the result is a subsequence of the input, no two kept items share a key, and the result has exactly the keys of the input |
| ArrayHelpers.UniqueIdempotent | blueprint3d-master/src/core/utils.ts:219-227 | applying `unique` to its own result changes nothing |
| ArrayHelpers.RemoveAllCopies | blueprint3d-master/src/core/utils.ts:229-235 | filtering out a value leaves no copy of it, keeps the rest in order, and shortens the array by the number of copies |
| ArrayHelpers.RemoveValue | blueprint3d-master/src/core/utils.ts:229-235 | the array object's new contents are the old contents without the value, in order, shorter by the value's count; nothing else changes |
| ArrayHelpers.SpliceStep | blueprint3d-master/src/core/utils.ts:230-234 | one backward iteration, splice or no splice, extends the filtered suffix by one index |
| Geometry.SqDistPositive | blueprint3d-master/src/core/utils.ts:33-34 | distinct end points give a positive `lenSq`, so the division of line 34 happens exactly for a segment that is not a single point |
| Geometry.ProjectionParamFacts | blueprint3d-master/src/core/utils.ts:32-34 | for a segment of non-zero length, `param * lenSq == dot`, `param < 0` iff `dot < 0`, and `param > 1` iff `dot > lenSq` |
| Geometry.ClosestPointCases | blueprint3d-master/src/core/utils.ts:27-49 | a single-point segment (`a == b`) or `param < 0` gives the start and `param > 1` gives the end; otherwise the result is the point at `param` along the segment, and the vector from it to `p` is perpendicular to the segment |
| Geometry.ClosestPointOnLine | blueprint3d-master/src/core/utils.ts:22-50 | `closestPointOnLine`; its result lies on the segment: it is the point at some `t` in `[0, 1]` (its three branches are stated by `ClosestPointCases`) |
| Geometry.SqDistAlong | blueprint3d-master/src/core/utils.ts:27-34 | the squared distance from `p` to the point at `t` is the quadratic `dist0 - 2 t dot + t^2 lenSq` in the source's `dot` and `lenSq` |
| Geometry.NearestCaseStart | blueprint3d-master/src/core/utils.ts:38-40 | when `param < 0`, the start is at least as near to `p` as every point of the segment |
| Geometry.NearestCaseEnd | blueprint3d-master/src/core/utils.ts:41-43 | when `param > 1`, the end is at least as near to `p` as every point of the segment |
| Geometry.NearestCaseInside | blueprint3d-master/src/core/utils.ts:44-46 | the foot of the perpendicular is at least as near to `p` as every point of the line |
| Geometry.ClosestPointIsNearest | blueprint3d-master/src/core/utils.ts:22-50 | the result is a nearest point of the segment to `p`: no point of the segment is nearer |
| Geometry.Ccw | blueprint3d-master/src/core/utils.ts:135-136 | the source's `ccw`: true iff the third point lies strictly left of the directed line through the first two (positive orientation) |
| Geometry.LineLineIntersect | blueprint3d-master/src/core/utils.ts:131-142 | `lineLineIntersect`: true iff the ends of each segment fall on different sides of the other's line, "strictly left" against "not strictly left" |
| Geometry.CcwIsOrientation | blueprint3d-master/src/core/utils.ts:135-136 | `ccw` is exactly "the signed area is positive", and the signed area is invariant under rotating its three points |
| Geometry.LineLineIntersectSymmetric | blueprint3d-master/src/core/utils.ts:131-142 | swapping the two segments does not change the result |
| Geometry.CollinearNotReported | blueprint3d-master/src/core/utils.ts:135-141 | when both ends of one segment lie on the other's line, the result is false, overlapping or not |
| Geometry.ProperCrossingReported | blueprint3d-master/src/core/utils.ts:131-142 | when the ends of each segment lie strictly on opposite sides of the other segment's line, the test answers true |
| Geometry.LineLineIntersectSound | blueprint3d-master/src/core/utils.ts:131-142 | a reported intersection is real: some point lies on both segments |
| Polygons.NextCornerIsModulo | blueprint3d-master/src/core/utils.ts:85 | the source's `(i + 1) % n` is the next corner, wrapping from the last to the first |
| Polygons.Min | blueprint3d-master/src/core/utils.ts:77-78 | `Math.min` of a non-empty list is a lower bound of the list and one of its elements |
| Polygons.TranslatedNonNegative | blueprint3d-master/src/core/utils.ts:77-80 | after the move no corner has a negative coordinate |
| Polygons.WindingSum | blueprint3d-master/src/core/utils.ts:82-87 | the loop adds up `(c2.x - c1.x) * (c2.y + c1.y)` over every edge, the closing edge included |
| Polygons.XRiseTelescopes | blueprint3d-master/src/core/utils.ts:82-87 | the x differences of the edges telescope, and sum to 0 over the closed loop |
| Polygons.ShoelacePrefixShift | blueprint3d-master/src/core/utils.ts:80-87 | moving the polygon changes the partial winding sum by `2 dy` times the partial x rise |
| Polygons.ShoelaceTranslationInvariant | blueprint3d-master/src/core/utils.ts:77-89 | moving the polygon does not change its winding sum |
| Polygons.IsClockwise | blueprint3d-master/src/core/utils.ts:74-90 | false below three points; otherwise true iff the winding sum of the original, unmoved polygon is at least 0, that is, iff its signed area is not positive |
| Polygons.ShoelaceIsNegatedArea | blueprint3d-master/src/core/utils.ts:82-89 | the winding sum is minus twice the signed (shoelace) area, for every polygon |
| Polygons.SquareSums | blueprint3d-master/src/core/utils.ts:82-87 | the square (0,0),(10,0),(10,10),(0,10) has winding sum -200, and its reverse has winding sum 200 |
| Polygons.SquareWindings | blueprint3d-master/src/core/utils.ts:74-90 | that square is not clockwise, and its reverse is |
| Polygons.FourCornerSum | blueprint3d-master/src/core/utils.ts:82-87 | the winding sum of four corners is the sum of their four edge terms, the closing edge included |
| Polygons.CountCrossings | blueprint3d-master/src/core/utils.ts:154-161 | the loop counts the edges, the closing edge included, that `lineLineIntersect` the ray |
| Polygons.PointInPolygon | blueprint3d-master/src/core/utils.ts:145-163 | true iff an odd number of edges cross the segment from the start (given, or defaulted) to the point |
| Polygons.DefaultStart | blueprint3d-master/src/core/utils.ts:151-152 | for a non-empty list, exactly `Math.min(...) - 10`: at least 10 below every value and exactly 10 below one of them |
| Polygons.RayStart | blueprint3d-master/src/core/utils.ts:151-152 | a coordinate the caller gives is used as is; a missing one (`??=`) is the default of that coordinate, which lies strictly left of (below) every corner |
| Polygons.NothingInsideEmpty | blueprint3d-master/src/core/utils.ts:154-162 | a polygon without corners contains no point |
| Polygons.LinePolygonIntersect | blueprint3d-master/src/core/utils.ts:116-128 | true iff some edge of the polygon, the closing edge included, `lineLineIntersect`s the segment |
| Polygons.PolygonPolygonIntersect | blueprint3d-master/src/core/utils.ts:101-113 | true iff some edge of the first polygon crosses some edge of the second |
| Polygons.PolygonsCrossSymmetric | blueprint3d-master/src/core/utils.ts:101-128 | the polygon intersection test does not depend on the order of the two polygons |
| Polygons.EmptyPolygonCrossesNothing | blueprint3d-master/src/core/utils.ts:101-128 | a polygon without corners crosses no segment, and no polygon whether it is given first or second |
| Polygons.PolygonInsidePolygon | blueprint3d-master/src/core/utils.ts:166-178 | true iff every corner of the inner polygon passes `pointInPolygon` against the outer one |
| Polygons.PolygonOutsidePolygon | blueprint3d-master/src/core/utils.ts:181-193 | true iff no corner of the inner polygon passes `pointInPolygon` against the outer one |
| Polygons.InsideOutsideExclusive | blueprint3d-master/src/core/utils.ts:166-193 | with the same start, a non-empty inner polygon is never both inside and outside |
| Polygons.EmptyInnerBoth | blueprint3d-master/src/core/utils.ts:166-193 | an inner polygon without corners is both inside and outside every polygon |

## Left out

- `distance`, `pointDistanceFromLine`, `angle` and `angle2pi` (utils.ts:10-19, 53-71) rest on
  `Math.sqrt`, `Math.atan2` and π. Only the squared distance `Geometry.SqDist` is modelled.
- `guid` (utils.ts:93-98) depends on `Math.random`.
- `forEach`, `forEachIndexed` and `map` (utils.ts:197-207) only forward to the built-in
  array methods. Their callbacks may have any effect, so there is nothing of their own to
  state.
- IEEE-754 doubles are not modelled. This covers rounding, overflow to infinity, NaN and
  signed zero. Coordinates are exact reals and every property holds over the reals only.
- The optional `hashFunc` of `unique` and the `predicate` of `removeIf` are pure, total
  Dafny functions; a JavaScript callback that throws or has side effects is not
  modelled. Every equality the source uses is Dafny's `==`: `===` in `removeValue`, and the SameValueZero comparison
  of `includes` and `Set` in `hasValue`, `subtract` and `unique`. Both NaN behaviours are
  therefore lost: under `===` NaN is unequal to itself, while `includes` and `Set` treat
  it as equal to itself.
- The shift of `cycle` is an integer. A fractional or NaN shift, which the source would
  pass on to `slice`, is not modelled.
- `pointInPolygon` with an empty polygon and no start defaults the start to
  `Infinity - 10`. There are no edges, so the start is never used; the model puts 0 there
  (`Polygons.DefaultStart`).
- Polygons.PointInPolygon: the model does not prove that the answer is independent of
  where the ray starts. That independence holds only for points off the boundary, and
  proving it needs a Jordan-curve argument that is beyond this model.
- `src/three/*` (meshes, materials, scene callbacks), `src/floorplanner/*` (mouse and
  canvas handling) and `src/blueprint3d.ts` (option wiring) are not part of this model.
  The wall graph and room derivation in `src/model/*` are not part of this model either.
