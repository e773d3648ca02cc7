# Form-line generalisation, modelled in Dafny

This project models how the map generator picks and cuts its **form lines**. Form lines are the intermediate contours whose elevation, truncated to an integer, is not a multiple of 5 (so an elevation of 5.5 is drawn as a normal contour). The code is in `src/contours.rs`. It works in five stages:

1. **Tiers.** `render_contours_to_png` puts every contour with at least two vertices into a tier: master (truncated elevation a multiple of 25), normal (a multiple of 5) or form. Only form contours are generalised.
2. **Neighbours.** `keep_relevant_form_contours` finds the contours exactly 2.5 above and 2.5 below the form contour. If either side has none, the whole form contour is kept.
3. **Keep rule.** Each vertex is tagged keep or discard. The tag depends on its distance to the nearest neighbour above (dA) and below (dB). The vertex is kept when either holds:
   - it is clear of both neighbours and much nearer one than the other, by relative difference;
   - it is far from one of them.
4. **Mask passes.** Two passes rewrite the mask:
   - `remove_gaps_from_tagged_form_line_polyline` refills every short run of discarded vertices that ends at a closing vertex. The measured arc runs from the kept vertex before the run (or from index 0) through the closing vertex. A trailing run after the last closing vertex is never refilled;
   - `add_tails_to_tagged_form_line_polyline` extends kept stretches by tails. A tail grows only from an interior edge vertex: a kept vertex with one discarded and one kept neighbour. So a lone kept vertex between two discarded ones gets no tail, and a stretch touching index 0 or `len - 1` gets none on that side. The arc length is compared with the limit before each vertex is added, so a tail can exceed `additional_tail_length` by its last segment.
5. **Extraction.** Each maximal run of kept vertices becomes one polyline to draw.

## Modules

| module | file | contents |
|---|---|---|
| `Geometry` | `geometry.dfy` | vertex distance (`magnitude`), distance to a segment and to a polyline, `polyline_length` |
| `Tiers` | `tiers.dfy` | `Contour`, Rust's `as i32` and `%`, the tier test |
| `Config` | `config.dfy` | the `FormLineConfig` record and its defaults |
| `Tagged` | `tagged.dfy` | `TaggedPoint` masks and the relations the passes keep |
| `Gaps` | `gaps.dfy` | the gap-removal pass |
| `Tails` | `tails.dfy` | the tail pass |
| `Segments` | `segments.dfy` | cutting the mask into kept runs |
| `FormLines` | `form_lines.dfy` | neighbours, keep rule, `keep_relevant_form_contours`, and the loop over form contours |

### Modelling choices

- **Square root.** Dafny's reals have no square root. Every geometric member therefore takes `sqrt: real -> real` with `requires IsSqrt(sqrt)`: the result is non-negative and squares back to its argument. This makes `Magnitude` exactly the Euclidean norm. Facts such as `Dist(p, p) == 0`, symmetry and `Dist >= 0` are proved, not assumed.
- **Each pass has two forms:**
  - a declarative description: `KeptAfterGapRemoval`, `KeptAfterTails`, `SplitIntoRuns`;
  - a method that follows the source loop, proved equal to that description.
- **Panic as an error.** A form contour with vertices whose neighbour set holds an empty polyline makes the source panic: `distance_point_to_polyline` panics explicitly on an empty polyline (src/contours.rs:367-369). The model returns `Failure` for exactly that case.
- **Degenerate segments are skipped.** When a segment's two extremities coincide, the source's projection parameter is NaN. `distance_point_to_segment` then returns NaN, and NaN never compares below the running minimum in `distance_point_to_polyline`. `PolylineDistance` therefore skips such segments, and `SegmentDistance` requires distinct extremities.
- **Zero smaller distance.** When `min(dA, dB) == 0` the source divides by zero. `DifferenceExceeds` gives the IEEE outcome:
  - for equal distances the quotient is NaN, so the test is false;
  - otherwise it is an infinity, so the test is true.

  The model handles this case exactly; it does not add a precondition to rule it out.
- **Negative radicand.** Over the reals the radicand of the segment formula is exactly the squared distance to the foot point (`RadicandIsSquaredDist`). It is never negative, so no clamping is needed.

## Model

| member | source | states |
|---|---|---|
| `Tiers.TruncateToI32` | src/contours.rs:48-49 | `as i32` truncates toward zero: inside the i32 range the result lies within one of the elevation, on the zero side; at or beyond `i32::MAX` it is `i32::MAX`, and at or below `i32::MIN` it is `i32::MIN` |
| `Tiers.RustRem` | src/contours.rs:48-49 | Rust's `%`: the dividend minus the remainder is a multiple of `b`, and the remainder takes the dividend's sign, lying in `[0, b)` for a non-negative dividend and in `(-b, 0]` for a non-positive one |
| `Tiers.RemainderZeroAgrees` | src/contours.rs:48-49 | the test `% 5 == 0` (and `% 25 == 0`) gives the same answer under truncated and Euclidean remainder, negative elevations included |
| `Tiers.TierTestsAreDivisibility` | src/contours.rs:48-49 | `IsNormalContour` and `IsMasterContour` hold exactly when the truncated elevation is divisible by 5 and by 25 respectively |
| `Tiers.ContourTier` | src/contours.rs:47-84 | each tier, as an if-and-only-if: skipped iff fewer than 2 vertices; master iff the truncated elevation is a multiple of 25; normal iff a multiple of 5 but not of 25; form iff not a multiple of 5. Every contour is in exactly one tier |
| `Tiers.MasterIsAlsoNormal` | src/contours.rs:48-58 | every master elevation also passes the normal test, so the order of the tests matters |
| `Tiers.TierUsesIntegerPart` | src/contours.rs:48-49 | two contours whose elevations truncate to the same integer get the same tier |
| `Tiers.TierExamples` | src/contours.rs:47-84 | 25, 0 and -25 are master; 10 is normal; 2307.5 truncates to 2307 and -2.5 to -2, and both are form |
| `Config.DefaultFormLineConfig` | src/config.rs:101-111 | the defaults: threshold 0.05, distances 5 and 100, min length 10, min gap 50, tail 15; the minimum distance is positive and below the maximum |
| `Geometry.Magnitude` | src/contours.rs:424-426 | `magnitude` is never negative |
| `Geometry.Dist` | src/contours.rs:424-426 | the distance between two vertices, the magnitude of their difference, is never negative |
| `Geometry.MagnitudeSquared` | src/contours.rs:424-426 | the magnitude squared is `x^2 + y^2` |
| `Geometry.DistZeroIff` | src/contours.rs:424-426 | the distance between two vertices is zero exactly when they coincide |
| `Geometry.DistSymmetric` | src/contours.rs:424-426 | the distance does not depend on the order of the two vertices |
| `Geometry.DotProductWithItself` | src/contours.rs:428-430 | `dot_product` is symmetric, a vector's dot product with itself is its squared magnitude, and that is zero only for the zero vector (the case where the projection in `distance_point_to_segment` divides by zero) |
| `Geometry.ProjectionParameterFromMagnitude` | src/contours.rs:389-394 | the source's `r`, the dot product divided by the squared magnitude of the segment, is the exact projection parameter of the point onto the segment's line |
| `Geometry.SegmentDistanceIsClosest` | src/contours.rs:388-405 | `SegmentDistance`, the model of `distance_point_to_segment`, is the distance to the nearest point of the segment; for `r < 0` it is the distance to `extremity1` and for `r > 1` to `extremity2` |
| `Geometry.SegmentDistanceIsMinimal` | src/contours.rs:388-405 | no point of the segment is nearer than the returned distance |
| `Geometry.SegmentDistanceAtMostEndpoints` | src/contours.rs:388-405 | the segment distance is at most the distance to either extremity |
| `Geometry.RadicandIsSquaredDist` | src/contours.rs:402-404 | the subtraction under the square root equals the squared distance to the foot of the perpendicular |
| `Geometry.PolylineDistanceIsLowerBound` | src/contours.rs:366-386 | `PolylineDistance`, the model of `distance_point_to_polyline`, is at most the distance to every vertex and to every proper consecutive segment |
| `Geometry.PolylineDistanceIsAttained` | src/contours.rs:366-386 | `PolylineDistance` is the distance to the first vertex or to some proper segment; for a one-vertex polyline it is the distance to that vertex |
| `Geometry.PolylineDistanceNonNegative` | src/contours.rs:366-386 | the distance to a polyline is never negative |
| `Geometry.PolylineLength` | src/contours.rs:407-422 | `polyline_length` is non-negative and is zero for fewer than two vertices |
| `Geometry.LengthAppend` | src/contours.rs:407-422 | appending a vertex adds its distance to the last vertex, so the length never decreases |
| `Geometry.LengthConcat` | src/contours.rs:407-422 | the length of two joined polylines is the sum of their lengths plus the distance across the joint |
| `Geometry.LengthPrepend` | src/contours.rs:407-422 | prepending a vertex adds its distance to the first vertex |
| `Geometry.LengthSliceMonotone` | src/contours.rs:407-422 | a sub-slice is never longer than a slice that contains it |
| `Geometry.LengthReverse` | src/contours.rs:407-422 | reversing a polyline keeps its length, so a tail accumulated backwards measures the same arc |
| `Gaps.PreviousCloser` | src/contours.rs:258-272 | the last gap-closing vertex before `k`: it closes a gap and no vertex between it and `k` does |
| `Gaps.NextCloser` | src/contours.rs:274-289 | the first gap-closing vertex at or after `k`, with no closing vertex before it |
| `Gaps.GapStart` | src/contours.rs:265-272 | where a gap's arc starts: the preceding closing vertex, or index 0 when the gap touches the start of the line |
| `Gaps.RemoveGaps` | src/contours.rs:250-293 | the pass keeps the points, never clears a flag, and leaves each flag as `KeptAfterGapRemoval` says: kept before, or inside a gap whose arc from its anchor through its closing vertex is shorter than `min_gap_length` |
| `Gaps.CloseGap` | src/contours.rs:274-289 | closing a gap measures the arc from the gap start through the closing vertex; if it is short, every index in it becomes kept; nothing outside it changes |
| `Gaps.GapMember` | src/contours.rs:274-289 | a vertex inside a gap that ends at a closing vertex is judged by that gap's arc |
| `Gaps.TrailingIndicesUnchanged` | src/contours.rs:274-292 | indices after the last closing vertex keep their flags |
| `Gaps.NonPositiveMinGapIsIdentity` | src/contours.rs:283 | with `min_gap_length <= 0` the pass changes nothing |
| `Gaps.GapFilledIffShort` | src/contours.rs:274-289 | a gap is filled entirely if its arc is shorter than `min_gap_length`, and otherwise left as it was |
| `Gaps.LonelyVertexJoinsGap` | src/contours.rs:259-263 | a kept interior vertex with two discarded neighbours does not close the gap; both neighbours share one closing vertex and one arc, so they are filled together or not at all |
| `Gaps.GapRemovalMonotone` | src/contours.rs:283-287 | a larger `min_gap_length` keeps at least the same vertices |
| `Tails.EdgesBelowExact` | src/contours.rs:302-320 | the edge list holds exactly the start (or end) edges below `n`, in increasing order |
| `Tails.CollectEdges` | src/contours.rs:302-320 | start and end edges are read from the input mask, before any flag changes. They are exactly the interior kept vertices with a discarded previous and a kept next neighbour (start) or the reverse (end), listed in increasing order |
| `Tails.GrowStartTail` | src/contours.rs:322-335 | the tail grown back from start edge `s` covers exactly the indices `k >= 1` whose arc from `k + 1` to `s` is at most `additional_tail_length` |
| `Tails.GrowEndTail` | src/contours.rs:342-356 | the tail grown forward from end edge `e` covers exactly the indices `k < len - 1` whose arc from `e` to `k - 1` is at most `additional_tail_length` |
| `Tails.AddStartTails` | src/contours.rs:322-340 | the start-tail loop leaves the points in place and sets exactly the flags that were kept or that some start edge's tail reaches |
| `Tails.AddEndTails` | src/contours.rs:342-361 | the end-tail loop, run on the start-tail result, sets in addition exactly the flags that some end edge's tail reaches |
| `Tails.KeepIndexes` | src/contours.rs:337-339 | setting the listed indices to kept: the same points, and each flag is its old value or membership in the list |
| `Tails.AddTails` | src/contours.rs:295-364 | the pass keeps the points, never clears a flag, and never changes the first or last entry. A vertex ends up kept iff it was kept, or a start tail or an end tail reaches it |
| `Tails.AllTailsApplied` | src/contours.rs:322-361 | once the tail of every start edge and every end edge has been applied, the mask is the tail pass's description |
| `Tails.EdgeListsDecide` | src/contours.rs:302-361 | with complete edge lists, a vertex is reached by a tail iff some listed edge reaches it |
| `Tails.TailsKeepEnds` | src/contours.rs:327-356 | indices 0 and `len - 1` are never reached by a tail |
| `Tails.TailsMonotone` | src/contours.rs:295-364 | a larger `additional_tail_length` keeps at least the same vertices |
| `Tails.StartTailContiguous` | src/contours.rs:327-335 | a start tail is contiguous: if it reaches `k`, it reaches every index between `k` and its edge |
| `Tails.EndTailContiguous` | src/contours.rs:347-356 | an end tail is contiguous in the same way |
| `Tails.FirstTailStep` | src/contours.rs:327-356 | with a non-negative tail length, the neighbour just outside an edge is always added, unless it is index 0 or `len - 1` |
| `Segments.RunEnd` | src/contours.rs:229-247 | a run from `a` ends at or after `a` and within the mask |
| `Segments.RunStartsBelowExact` | src/contours.rs:229-247 | the run openers below `n` are listed exactly once each, in increasing order. An opener is a kept vertex that is first or follows a discarded one |
| `Segments.RunEndIsMaximal` | src/contours.rs:229-247 | every vertex of a run is kept, and the run stops at a discarded vertex or at the end of the mask |
| `Segments.ExtractSegments` | src/contours.rs:229-247 | the extraction loop emits one non-empty polyline per maximal kept run, in order, holding that run's points. Concatenated, the polylines give the kept points in order |
| `Segments.AllKeptIsOneRun` | src/contours.rs:229-247 | an all-kept mask has a single run, spanning the whole line |
| `Segments.AllKeptSplit` | src/contours.rs:229-247 | an all-kept mask is extracted as the whole line |
| `Segments.NoneKeptIsNoRun` | src/contours.rs:229-247 | an all-discarded mask yields no polyline |
| `Segments.RunCount` | src/contours.rs:229-247 | the number of polylines equals the number of discard-to-keep transitions, plus one when index 0 is kept |
| `FormLines.PolylinesAtExact` | src/contours.rs:155-162 | `PolylinesAt`, the neighbour list, holds the polyline of every contour exactly at the given elevation, and only those |
| `FormLines.PanicsIffEmptyNeighbour` | src/contours.rs:155-197 | `Panics` holds exactly when the form line has a vertex, both neighbour sides exist, and some contour 2.5 above or below has an empty polyline, which `distance_point_to_polyline` rejects (src/contours.rs:367-369) |
| `FormLines.NearestDistanceIsMinimum` | src/contours.rs:172-197 | `NearestDistance`, the minimum over a neighbour set, is non-negative, at most the distance to each neighbour polyline, and equal to one of them |
| `FormLines.DifferenceExceedsMeans` | src/contours.rs:199-206 | `DifferenceExceeds`, for positive distances, holds iff `abs(dA - dB) > threshold * min(dA, dB)` |
| `FormLines.KeepRuleMeans` | src/contours.rs:199-210 | `KeepRule`, without any division: kept iff both distances exceed the minimum and differ by more than `threshold` times the smaller (or, when the smaller is zero, they differ at all), or either exceeds the maximum |
| `FormLines.KeepRuleSymmetric` | src/contours.rs:199-210 | swapping the above and below distances does not change the decision |
| `FormLines.HalfwayIsDropped` | src/contours.rs:199-210 | with a non-negative threshold, a vertex exactly halfway and not beyond the maximum distance is discarded |
| `FormLines.TaggingFollowsKeepRule` | src/contours.rs:170-217 | for every vertex `i` of the form line and any `dA`, `dB` that are the least distances to the polylines above and below, the tagged mask has that vertex's point at `i`, and its flag is set iff the division-free keep rule holds for `dA` and `dB` |
| `FormLines.KeepRelevantFormContours` | src/contours.rs:142-248 | it fails exactly when the source panics. With a missing neighbour side, the result is exactly the whole form line. Otherwise the polylines are the maximal kept runs of the mask after tagging, gap removal and tails, and together they hold the kept points |
| `FormLines.SelectedVerticesSurvive` | src/contours.rs:219-227 | the post-processing passes keep the points and every vertex the keep rule selected |
| `FormLines.AllSelectedIsWholeLine` | src/contours.rs:204-247 | if the keep rule selects every vertex, the result is the whole form line |
| `FormLines.FormContoursExact` | src/contours.rs:47-85 | the contours sent to `keep_relevant_form_contours` are exactly the form-tier contours |
| `FormLines.GeneraliseFormContours` | src/contours.rs:47-108 | drawing all form contours fails exactly when some form contour panics. Otherwise it yields, in order, the generalised polylines of every form contour |

## Left out

- Reading `contours.shp` and parsing its `elev` attribute (src/contours.rs:25-45) is file I/O through an external library. The model starts from a sequence of `Contour` values.
- All `Canvas` calls are left out: stroke cap, colour, line width, dash, Bézier drawing and `save_as`. They go to an external drawing surface whose code is not part of this model. The pixel transform in `draw_bezier_curve_from_polyline_on_image` (src/contours.rs:117-135) only feeds that surface.
- Master and normal contours are drawn unchanged. The model assigns their tier but does not model their drawing.
- f64 rounding is not modelled: the model computes over exact reals. The neighbour test `elevation == form.elevation ± 2.5` is therefore exact equality of reals. A NaN elevation cannot occur either.
- Rust's square root is a parameter. Each geometric member takes a function that returns the exact non-negative root, and no floating-point root is modelled.
- `min_length` is part of `FormLineConfig` but the generalisation never reads it. The model carries the field and attaches no behaviour to it.
- `FormLineConfig`'s serde defaults and the `config.json` read (src/config.rs:114-117) are library and I/O code. Only the record and `default()` are modelled.
- src/vectors.rs and src/main.rs are not part of this model: they hold subprocess calls, downloads and tile bookkeeping, with no form-line logic.
- The list of gap indices that the gap pass collects is modelled as the index range from the gap start through the closing vertex, which holds the same indices.
- The panic on an empty neighbour polyline is modelled as a `Failure` value carrying a message, not as a process abort.
