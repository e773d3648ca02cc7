/** Form-line generalisation (`keep_relevant_form_contours`). The keep rule
    selects a vertex of a form contour where it is clear of both neighbouring
    contours and much closer to one than to the other, or where it is far from
    either of them. Gap removal and tails then add vertices back, and the kept
    runs are cut into polylines. */
module FormLines {
  import opened Geometry
  import opened Tagged
  import opened Tiers
  import opened Config
  import opened Gaps
  import opened Tails
  import opened Segments

  /** What the generalisation of one form contour returns, or the panic it
      raises. */
  datatype Result<+R> = Success(value: R) | Failure(error: string)

  /** The message of the panic in `distance_point_to_polyline`. */
  const EmptyPolylineMessage: string := "Trying to compute distance to an empty polyline."

  /** Half the contour interval: the neighbours of a form contour lie 2.5
      above and 2.5 below it. */
  const HalfInterval: real := 2.5

  /** The polylines of the contours lying exactly at `elevation`, in the order
      of the contour list. */
  function PolylinesAt(contours: seq<Contour>, elevation: real): seq<seq<Point>> {
    if |contours| == 0 then []
    else
      PolylinesAt(contours[..|contours| - 1], elevation)
      + (if contours[|contours| - 1].elevation == elevation then [contours[|contours| - 1].polyline] else [])
  }

  /** `PolylinesAt` gathers the polyline of every contour at `elevation` and
      nothing else. */
  lemma {:induction false} PolylinesAtExact(contours: seq<Contour>, elevation: real)
    ensures |PolylinesAt(contours, elevation)| <= |contours|
    ensures forall p :: p in PolylinesAt(contours, elevation) ==>
              exists c :: c in contours && c.elevation == elevation && c.polyline == p
    ensures forall c :: c in contours && c.elevation == elevation ==> c.polyline in PolylinesAt(contours, elevation)
  {
    if |contours| > 0 {
      var front := contours[..|contours| - 1];
      var last := contours[|contours| - 1];
      PolylinesAtExact(front, elevation);
      assert contours == front + [last];
      assert forall c :: c in front ==> c in contours;
      assert last in contours;
    }
  }

  /** The neighbours above: contours at the form contour's elevation + 2.5. */
  function Above(form: Contour, contours: seq<Contour>): seq<seq<Point>> {
    PolylinesAt(contours, form.elevation + HalfInterval)
  }

  /** The neighbours below: contours at the form contour's elevation - 2.5. */
  function Below(form: Contour, contours: seq<Contour>): seq<seq<Point>> {
    PolylinesAt(contours, form.elevation - HalfInterval)
  }

  /** Both sides have at least one neighbour, so the keep rule is applied;
      otherwise the form contour is kept whole. */
  predicate HasBothNeighbours(form: Contour, contours: seq<Contour>) {
    |Above(form, contours)| > 0 && |Below(form, contours)| > 0
  }

  predicate NoEmptyPolyline(pls: seq<seq<Point>>) {
    forall i :: 0 <= i < |pls| ==> |pls[i]| > 0
  }

  /** The source panics when it measures a vertex against an empty
      neighbouring polyline: that happens when there is a vertex to measure,
      the fallback did not apply, and some neighbour is empty. */
  predicate Panics(form: Contour, contours: seq<Contour>) {
    && |form.polyline| > 0
    && HasBothNeighbours(form, contours)
    && !(NoEmptyPolyline(Above(form, contours)) && NoEmptyPolyline(Below(form, contours)))
  }

  /** The panic condition in terms of the contour list: a form contour with
      vertices and neighbours on both sides, one of which has no vertices. */
  lemma PanicsIffEmptyNeighbour(form: Contour, contours: seq<Contour>)
    ensures Panics(form, contours) <==>
              && |form.polyline| > 0
              && HasBothNeighbours(form, contours)
              && (exists c :: && c in contours
                              && |c.polyline| == 0
                              && (c.elevation == form.elevation + HalfInterval
                                  || c.elevation == form.elevation - HalfInterval))
  {
    var above, below := Above(form, contours), Below(form, contours);
    PolylinesAtExact(contours, form.elevation + HalfInterval);
    PolylinesAtExact(contours, form.elevation - HalfInterval);
    if !NoEmptyPolyline(above) {
      var i :| 0 <= i < |above| && |above[i]| == 0;
      assert above[i] in above;
    } else if !NoEmptyPolyline(below) {
      var i :| 0 <= i < |below| && |below[i]| == 0;
      assert below[i] in below;
    }
    if c :| (&& c in contours
             && |c.polyline| == 0
             && (c.elevation == form.elevation + HalfInterval || c.elevation == form.elevation - HalfInterval)) {
      if c.elevation == form.elevation + HalfInterval {
        var i :| 0 <= i < |above| && above[i] == c.polyline;
      } else {
        var i :| 0 <= i < |below| && below[i] == c.polyline;
      }
    }
  }

  /** The distance from `p` to the nearest of several polylines: the distance
      to the first, lowered by every later one that is strictly nearer. */
  function NearestDistance(sqrt: real -> real, p: Point, pls: seq<seq<Point>>): real
    requires IsSqrt(sqrt)
    requires |pls| > 0 && NoEmptyPolyline(pls)
    decreases |pls|
  {
    var n := |pls|;
    if n == 1 then
      PolylineDistance(sqrt, p, pls[0])
    else
      var d := PolylineDistance(sqrt, p, pls[n - 1]);
      var best := NearestDistance(sqrt, p, pls[..n - 1]);
      if d < best then d else best
  }

  /** `NearestDistance` is the least of the distances to the polylines: no
      larger than any of them, and equal to one of them. */
  lemma {:induction false} NearestDistanceIsMinimum(sqrt: real -> real, p: Point, pls: seq<seq<Point>>)
    requires IsSqrt(sqrt)
    requires |pls| > 0 && NoEmptyPolyline(pls)
    ensures 0.0 <= NearestDistance(sqrt, p, pls)
    ensures forall i :: 0 <= i < |pls| ==> NearestDistance(sqrt, p, pls) <= PolylineDistance(sqrt, p, pls[i])
    ensures exists i :: 0 <= i < |pls| && NearestDistance(sqrt, p, pls) == PolylineDistance(sqrt, p, pls[i])
    decreases |pls|
  {
    var n := |pls|;
    PolylineDistanceNonNegative(sqrt, p, pls[n - 1]);
    if n > 1 {
      var front := pls[..n - 1];
      assert forall i :: 0 <= i < n - 1 ==> front[i] == pls[i];
      NearestDistanceIsMinimum(sqrt, p, front);
    }
  }

  function Min(a: real, b: real): real {
    if a <= b then a else b
  }

  function Abs(a: real): real {
    if a < 0.0 then -a else a
  }

  /** The normalised-difference test: the difference of the two distances,
      divided by the smaller one, exceeds `threshold` in absolute value. When
      the smaller distance is zero the quotient is IEEE NaN if the distances
      are equal (every comparison is false) and an infinity otherwise (above
      any threshold). */
  predicate DifferenceExceeds(dA: real, dB: real, threshold: real) {
    var m := Min(dA, dB);
    if m == 0.0 then dA != dB else Abs(Ratio(dA - dB, m)) > threshold
  }

  /** The per-vertex keep rule: the vertex is clear of both neighbours and
      clearly nearer one of them than the other, or it is far from one of
      them. */
  predicate KeepRule(dA: real, dB: real, cfg: FormLineConfig) {
    || (&& dA > cfg.min_distance_to_contour
        && dB > cfg.min_distance_to_contour
        && DifferenceExceeds(dA, dB, cfg.threshold))
    || dA > cfg.max_distance_to_contour
    || dB > cfg.max_distance_to_contour
  }

  /** The relative difference, for positive distances, without a quotient:
      the gap between the two distances exceeds `threshold` times the smaller
      one. */
  lemma DifferenceExceedsMeans(dA: real, dB: real, threshold: real)
    requires 0.0 < dA && 0.0 < dB
    ensures DifferenceExceeds(dA, dB, threshold) <==> Abs(dA - dB) > Mul(threshold, Min(dA, dB))
  {
    var m := Min(dA, dB);
    var q := Ratio(dA - dB, m);
    RatioDef(dA - dB, m);
    MulDef(threshold, m);
    QuotientScales(dA - dB, m, q);
    ScaledComparison(Abs(q), m, threshold);
  }

  lemma QuotientScales(x: real, m: real, q: real)
    requires 0.0 < m
    requires q == x / m
    ensures Abs(x) == Abs(q) * m
  {
  }

  lemma ScaledComparison(a: real, m: real, t: real)
    requires 0.0 < m
    ensures a > t <==> a * m > t * m
  {
    if a > t {
      assert (a - t) * m > 0.0;
    } else {
      assert (t - a) * m >= 0.0;
    }
  }

  /** Swapping the neighbours above and below does not change the rule. */
  lemma KeepRuleSymmetric(dA: real, dB: real, cfg: FormLineConfig)
    ensures KeepRule(dA, dB, cfg) == KeepRule(dB, dA, cfg)
  {
    var m := Min(dA, dB);
    assert Min(dB, dA) == m;
    if m != 0.0 {
      RatioNegate(dA - dB, dB - dA, m);
    }
  }

  lemma RatioNegate(x: real, y: real, m: real)
    requires m != 0.0
    requires y == -x
    ensures Ratio(y, m) == -Ratio(x, m)
  {
    RatioDef(x, m);
    RatioDef(y, m);
  }

  /** A vertex exactly halfway between its neighbours, and not far from
      them, is dropped whatever the non-negative threshold. */
  lemma HalfwayIsDropped(d: real, cfg: FormLineConfig)
    requires 0.0 <= cfg.threshold
    requires d <= cfg.max_distance_to_contour
    ensures !KeepRule(d, d, cfg)
  {
    if d != 0.0 {
      RatioDef(0.0, d);
    }
  }

  /** The keep rule without a quotient, for the non-negative distances the
      source measures. A zero smaller distance makes the difference count as
      exceeding exactly when the two distances differ. */
  lemma KeepRuleMeans(dA: real, dB: real, cfg: FormLineConfig)
    requires 0.0 <= dA && 0.0 <= dB
    ensures KeepRule(dA, dB, cfg) <==>
              || (&& dA > cfg.min_distance_to_contour
                  && dB > cfg.min_distance_to_contour
                  && (if Min(dA, dB) == 0.0 then dA != dB
                      else Abs(dA - dB) > cfg.threshold * Min(dA, dB)))
              || dA > cfg.max_distance_to_contour
              || dB > cfg.max_distance_to_contour
  {
    if Min(dA, dB) != 0.0 {
      DifferenceExceedsMeans(dA, dB, cfg.threshold);
      MulDef(cfg.threshold, Min(dA, dB));
    }
  }

  /** `d` is the least of the distances from `p` to the polylines `pls`. */
  predicate IsNearest(sqrt: real -> real, p: Point, pls: seq<seq<Point>>, d: real)
    requires IsSqrt(sqrt)
    requires NoEmptyPolyline(pls)
  {
    && (forall i :: 0 <= i < |pls| ==> d <= PolylineDistance(sqrt, p, pls[i]))
    && (exists i :: 0 <= i < |pls| && d == PolylineDistance(sqrt, p, pls[i]))
  }

  /** The tagged form line: every vertex with the flag the keep rule gives
      it from its distances to the nearest neighbour above and below. Its
      ensures only help the solver; `TaggingFollowsKeepRule` states what the
      flags mean. */
  function TagVertices(sqrt: real -> real, pl: seq<Point>, above: seq<seq<Point>>, below: seq<seq<Point>>,
                       cfg: FormLineConfig): (ts: seq<TaggedPoint>)
    requires IsSqrt(sqrt)
    requires |above| > 0 && |below| > 0
    requires |pl| == 0 || (NoEmptyPolyline(above) && NoEmptyPolyline(below))
    ensures PointsOf(ts) == pl
    ensures forall i :: 0 <= i < |ts| ==>
              ts[i].shouldBeKept == KeepRule(NearestDistance(sqrt, pl[i], above), NearestDistance(sqrt, pl[i], below), cfg)
  {
    seq(|pl|, i requires 0 <= i < |pl| =>
      TaggedPoint(pl[i], KeepRule(NearestDistance(sqrt, pl[i], above), NearestDistance(sqrt, pl[i], below), cfg)))
  }

  /** Each vertex of the tagged form line keeps its point and is kept
      exactly when the quotient-free keep rule holds of its least distances
      to the polylines above and below. */
  lemma TaggingFollowsKeepRule(sqrt: real -> real, pl: seq<Point>, above: seq<seq<Point>>, below: seq<seq<Point>>,
                               cfg: FormLineConfig, i: int, dA: real, dB: real)
    requires IsSqrt(sqrt)
    requires |above| > 0 && |below| > 0 && NoEmptyPolyline(above) && NoEmptyPolyline(below)
    requires 0 <= i < |pl|
    requires IsNearest(sqrt, pl[i], above, dA) && IsNearest(sqrt, pl[i], below, dB)
    ensures |TagVertices(sqrt, pl, above, below, cfg)| == |pl|
    ensures TagVertices(sqrt, pl, above, below, cfg)[i].point == pl[i]
    ensures 0.0 <= dA && 0.0 <= dB
    ensures TagVertices(sqrt, pl, above, below, cfg)[i].shouldBeKept <==>
              || (&& dA > cfg.min_distance_to_contour
                  && dB > cfg.min_distance_to_contour
                  && (if Min(dA, dB) == 0.0 then dA != dB
                      else Abs(dA - dB) > cfg.threshold * Min(dA, dB)))
              || dA > cfg.max_distance_to_contour
              || dB > cfg.max_distance_to_contour
  {
    NearestIsUnique(sqrt, pl[i], above, dA);
    NearestIsUnique(sqrt, pl[i], below, dB);
    KeepRuleMeans(dA, dB, cfg);
  }

  /** The least distance is the one `NearestDistance` computes. */
  lemma NearestIsUnique(sqrt: real -> real, p: Point, pls: seq<seq<Point>>, d: real)
    requires IsSqrt(sqrt)
    requires |pls| > 0 && NoEmptyPolyline(pls)
    requires IsNearest(sqrt, p, pls, d)
    ensures d == NearestDistance(sqrt, p, pls)
    ensures 0.0 <= d
  {
    NearestDistanceIsMinimum(sqrt, p, pls);
  }

  /** The mask the form contour's vertices end with: keep rule, then gap
      removal, then tail extension. The composition sits two recursion levels
      down, like `Mul`, so that proofs which only pass the mask around do not
      unfold the three passes; `GeneralisedMaskDef` spells it out. */
  ghost function GeneralisedMask(sqrt: real -> real, form: Contour, contours: seq<Contour>, cfg: FormLineConfig)
    : seq<TaggedPoint>
    requires IsSqrt(sqrt)
    requires HasBothNeighbours(form, contours) && !Panics(form, contours)
  {
    DeferredMask(sqrt, form, contours, cfg, 2)
  }

  ghost function DeferredMask(sqrt: real -> real, form: Contour, contours: seq<Contour>, cfg: FormLineConfig, depth: nat)
    : seq<TaggedPoint>
    requires IsSqrt(sqrt)
    requires HasBothNeighbours(form, contours) && !Panics(form, contours)
  {
    if depth == 0 then
      var tagged := TagVertices(sqrt, form.polyline, Above(form, contours), Below(form, contours), cfg);
      TailsAdded(sqrt, GapsRemoved(sqrt, tagged, cfg.min_gap_length), cfg.additional_tail_length)
    else
      DeferredMask(sqrt, form, contours, cfg, depth - 1)
  }

  /** The generalised mask is the keep-rule mask after gap removal and tails. */
  lemma GeneralisedMaskDef(sqrt: real -> real, form: Contour, contours: seq<Contour>, cfg: FormLineConfig)
    requires IsSqrt(sqrt)
    requires HasBothNeighbours(form, contours) && !Panics(form, contours)
    ensures GeneralisedMask(sqrt, form, contours, cfg)
            == TailsAdded(sqrt, GapsRemoved(sqrt, TagVertices(sqrt, form.polyline, Above(form, contours), Below(form, contours), cfg),
                                           cfg.min_gap_length), cfg.additional_tail_length)
  {
    assert DeferredMask(sqrt, form, contours, cfg, 1) == DeferredMask(sqrt, form, contours, cfg, 0);
  }

  /** What `keep_relevant_form_contours` promises for one form contour. */
  ghost predicate RelevantFormLines(sqrt: real -> real, form: Contour, contours: seq<Contour>, cfg: FormLineConfig,
                                    r: Result<seq<seq<Point>>>)
    requires IsSqrt(sqrt)
  {
    && (r.Failure? <==> Panics(form, contours))
    && (r.Failure? ==> r.error == EmptyPolylineMessage)
    && (!HasBothNeighbours(form, contours) ==> r == Success([form.polyline]))
    && (r.Success? && HasBothNeighbours(form, contours) ==>
          && SplitIntoRuns(GeneralisedMask(sqrt, form, contours, cfg), r.value)
          && Concat(r.value) == KeptPoints(GeneralisedMask(sqrt, form, contours, cfg)))
  }

  /** `keep_relevant_form_contours`: gather the neighbours, fall back to the
      whole contour when a side has none, tag every vertex, remove short
      gaps, add tails and cut the kept runs out. */
  method KeepRelevantFormContours(sqrt: real -> real, form: Contour, contours: seq<Contour>, cfg: FormLineConfig)
    returns (r: Result<seq<seq<Point>>>)
    requires IsSqrt(sqrt)
    ensures RelevantFormLines(sqrt, form, contours, cfg, r)
  {
    var above := Above(form, contours);
    var below := Below(form, contours);
    if |above| == 0 || |below| == 0 {
      return Success([form.polyline]);
    }
    if |form.polyline| > 0 && !(NoEmptyPolyline(above) && NoEmptyPolyline(below)) {
      return Failure(EmptyPolylineMessage);
    }
    var tagged := TagVertices(sqrt, form.polyline, above, below, cfg);
    var withoutGaps := RemoveGaps(sqrt, tagged, cfg.min_gap_length);
    MasksAgree(withoutGaps, GapsRemoved(sqrt, tagged, cfg.min_gap_length));
    var withTails := AddTails(sqrt, withoutGaps, cfg.additional_tail_length);
    MasksAgree(withTails, TailsAdded(sqrt, withoutGaps, cfg.additional_tail_length));
    var lines := ExtractSegments(withTails);
    GeneralisedMaskDef(sqrt, form, contours, cfg);
    return Success(lines);
  }

  /** Every vertex the keep rule selects survives gap removal and tail
      extension, and the final mask has the form contour's own vertices. */
  lemma SelectedVerticesSurvive(sqrt: real -> real, form: Contour, contours: seq<Contour>, cfg: FormLineConfig, k: int)
    requires IsSqrt(sqrt)
    requires HasBothNeighbours(form, contours) && !Panics(form, contours)
    requires 0 <= k < |form.polyline|
    ensures PointsOf(GeneralisedMask(sqrt, form, contours, cfg)) == form.polyline
    ensures TagVertices(sqrt, form.polyline, Above(form, contours), Below(form, contours), cfg)[k].shouldBeKept
            ==> GeneralisedMask(sqrt, form, contours, cfg)[k].shouldBeKept
  {
    var tagged := TagVertices(sqrt, form.polyline, Above(form, contours), Below(form, contours), cfg);
    var gapless := GapsRemoved(sqrt, tagged, cfg.min_gap_length);
    SamePointsOf(tagged, gapless);
    SamePointsOf(gapless, TailsAdded(sqrt, gapless, cfg.additional_tail_length));
    GeneralisedMaskDef(sqrt, form, contours, cfg);
  }

  /** When the keep rule selects every vertex of a non-empty form contour,
      the contour is drawn whole, as a single polyline. */
  lemma AllSelectedIsWholeLine(sqrt: real -> real, form: Contour, contours: seq<Contour>, cfg: FormLineConfig,
                               lines: seq<seq<Point>>)
    requires IsSqrt(sqrt)
    requires HasBothNeighbours(form, contours) && !Panics(form, contours)
    requires |form.polyline| > 0
    requires forall k :: 0 <= k < |form.polyline| ==>
               TagVertices(sqrt, form.polyline, Above(form, contours), Below(form, contours), cfg)[k].shouldBeKept
    requires SplitIntoRuns(GeneralisedMask(sqrt, form, contours, cfg), lines)
    ensures lines == [form.polyline]
  {
    var tagged := TagVertices(sqrt, form.polyline, Above(form, contours), Below(form, contours), cfg);
    var gapless := GapsRemoved(sqrt, tagged, cfg.min_gap_length);
    var mask := TailsAdded(sqrt, gapless, cfg.additional_tail_length);
    GeneralisedMaskDef(sqrt, form, contours, cfg);
    assert forall k :: 0 <= k < |mask| ==> gapless[k].shouldBeKept;
    SamePointsOf(tagged, gapless);
    SamePointsOf(gapless, mask);
    AllKeptSplit(mask, lines);
  }

  /** The form contours of a contour list, in order: the contours the
      drawing loop hands to `keep_relevant_form_contours`. */
  function FormContours(contours: seq<Contour>): seq<Contour> {
    if |contours| == 0 then []
    else
      var last := contours[|contours| - 1];
      FormContours(contours[..|contours| - 1]) + (if ContourTier(last) == Form then [last] else [])
  }

  /** `FormContours` keeps exactly the form-tier contours and nothing else. */
  lemma {:induction false} FormContoursExact(contours: seq<Contour>)
    ensures |FormContours(contours)| <= |contours|
    ensures forall c :: c in FormContours(contours) <==> c in contours && ContourTier(c) == Form
  {
    if |contours| > 0 {
      var front := contours[..|contours| - 1];
      FormContoursExact(front);
      assert contours == front + [contours[|contours| - 1]];
    }
  }

  /** The form contours among the first `index + 1` contours extend those
      among the first `index` by contour `index` when it is a form contour. */
  lemma FormContoursStep(contours: seq<Contour>, index: int)
    requires 0 <= index < |contours|
    ensures FormContours(contours[..index + 1])
            == FormContours(contours[..index]) + (if ContourTier(contours[index]) == Form then [contours[index]] else [])
  {
    assert contours[..index + 1][..index] == contours[..index];
  }

  /** The state of the drawing loop after `index` contours: one entry per form
      contour met so far, each what `keep_relevant_form_contours` promises,
      and none of them panicked. */
  ghost predicate DrawnSoFar(sqrt: real -> real, contours: seq<Contour>, cfg: FormLineConfig, forms: seq<Contour>,
                             drawn: seq<seq<seq<Point>>>)
    requires IsSqrt(sqrt)
  {
    && |drawn| == |forms|
    && (forall j :: 0 <= j < |drawn| ==> RelevantFormLines(sqrt, forms[j], contours, cfg, Success(drawn[j])))
    && (forall c :: c in forms ==> !Panics(c, contours))
  }

  /** Appending the lines of one more form contour that did not panic. */
  lemma DrawnStep(sqrt: real -> real, contours: seq<Contour>, cfg: FormLineConfig, forms: seq<Contour>,
                  drawn: seq<seq<seq<Point>>>, c: Contour, lines: Result<seq<seq<Point>>>)
    requires IsSqrt(sqrt)
    requires DrawnSoFar(sqrt, contours, cfg, forms, drawn)
    requires RelevantFormLines(sqrt, c, contours, cfg, lines) && lines.Success?
    ensures DrawnSoFar(sqrt, contours, cfg, forms + [c], drawn + [lines.value])
  {
    var forms', drawn' := forms + [c], drawn + [lines.value];
    forall j | 0 <= j < |drawn'|
      ensures RelevantFormLines(sqrt, forms'[j], contours, cfg, Success(drawn'[j]))
    {
      if j < |drawn| {
        assert forms'[j] == forms[j] && drawn'[j] == drawn[j];
      }
    }
  }

  /** The form-contour branch of the drawing loop: every form contour, in
      order, is generalised against the whole contour list; the first panic
      ends the loop. */
  method GeneraliseFormContours(sqrt: real -> real, contours: seq<Contour>, cfg: FormLineConfig)
    returns (r: Result<seq<seq<seq<Point>>>>)
    requires IsSqrt(sqrt)
    ensures r.Failure? <==> exists c :: c in FormContours(contours) && Panics(c, contours)
    ensures r.Success? ==> DrawnSoFar(sqrt, contours, cfg, FormContours(contours), r.value)
  {
    var drawn: seq<seq<seq<Point>>> := [];
    var index := 0;
    while index < |contours|
      invariant 0 <= index <= |contours|
      invariant DrawnSoFar(sqrt, contours, cfg, FormContours(contours[..index]), drawn)
    {
      var contour := contours[index];
      FormContoursStep(contours, index);
      if ContourTier(contour) != Form {
        index := index + 1;
        continue;
      }
      var lines := KeepRelevantFormContours(sqrt, contour, contours, cfg);
      if lines.Failure? {
        FailureIsInFormContours(contours, index);
        return Failure(lines.error);
      }
      DrawnStep(sqrt, contours, cfg, FormContours(contours[..index]), drawn, contour, lines);
      drawn := drawn + [lines.value];
      index := index + 1;
    }
    assert contours[..index] == contours;
    r := Success(drawn);
  }

  /** A form contour met by the loop is one of the form contours. */
  lemma FailureIsInFormContours(contours: seq<Contour>, index: int)
    requires 0 <= index < |contours|
    requires ContourTier(contours[index]) == Form
    ensures contours[index] in FormContours(contours)
  {
    FormContoursExact(contours);
  }
}
