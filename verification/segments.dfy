/** Segment extraction, the last step of `keep_relevant_form_contours`: the
    kept vertices of a form contour are cut into polylines at every discarded
    vertex. */
module Segments {
  import opened Geometry
  import opened Tagged

  /** Vertex `i` opens a run of kept vertices: it is kept and is the first
      vertex or follows a discarded one. */
  predicate StartsRun(ts: seq<TaggedPoint>, i: int)
    requires 0 <= i < |ts|
  {
    ts[i].shouldBeKept && (i == 0 || !ts[i - 1].shouldBeKept)
  }

  /** The vertices opening a run among the first `n`, in increasing order. */
  function RunStartsBelow(ts: seq<TaggedPoint>, n: int): seq<int>
    requires 0 <= n <= |ts|
  {
    if n == 0 then []
    else RunStartsBelow(ts, n - 1) + (if StartsRun(ts, n - 1) then [n - 1] else [])
  }

  /** The vertices opening a run, in increasing order. */
  function RunStarts(ts: seq<TaggedPoint>): seq<int> {
    RunStartsBelow(ts, |ts|)
  }

  /** One past the last vertex of the run of kept vertices from `a`: the first
      discarded vertex at or after `a`, or the end of the polyline. */
  function RunEnd(ts: seq<TaggedPoint>, a: int): (e: int)
    requires 0 <= a <= |ts|
    ensures a <= e <= |ts|
    decreases |ts| - a
  {
    if a == |ts| || !ts[a].shouldBeKept then a else RunEnd(ts, a + 1)
  }

  /** The points of the kept vertices, in order. */
  function KeptPoints(ts: seq<TaggedPoint>): seq<Point> {
    if |ts| == 0 then []
    else KeptPoints(ts[..|ts| - 1]) + (if ts[|ts| - 1].shouldBeKept then [ts[|ts| - 1].point] else [])
  }

  /** All polylines joined end to end. */
  function Concat(lines: seq<seq<Point>>): seq<Point> {
    if |lines| == 0 then [] else Concat(lines[..|lines| - 1]) + lines[|lines| - 1]
  }

  /** `RunStartsBelow` lists exactly the run openers below `n`, in increasing
      order. */
  lemma {:induction false} RunStartsBelowExact(ts: seq<TaggedPoint>, n: int)
    requires 0 <= n <= |ts|
    ensures forall j :: 0 <= j < |RunStartsBelow(ts, n)| ==>
              0 <= RunStartsBelow(ts, n)[j] < n && StartsRun(ts, RunStartsBelow(ts, n)[j])
    ensures forall i :: 0 <= i < n && StartsRun(ts, i) ==> i in RunStartsBelow(ts, n)
    ensures forall j1, j2 :: 0 <= j1 < j2 < |RunStartsBelow(ts, n)| ==>
              RunStartsBelow(ts, n)[j1] < RunStartsBelow(ts, n)[j2]
  {
    if n > 0 {
      RunStartsBelowExact(ts, n - 1);
      var prefix := RunStartsBelow(ts, n - 1);
      assert RunStartsBelow(ts, n) == prefix + (if StartsRun(ts, n - 1) then [n - 1] else []);
      forall i | 0 <= i < n && StartsRun(ts, i)
        ensures i in RunStartsBelow(ts, n)
      {
        if i < n - 1 {
          assert i in prefix;
        }
      }
    }
  }

  /** A run is maximal: every vertex of `[a, RunEnd)` is kept, and the run
      stops at a discarded vertex or at the end. */
  lemma {:induction false} RunEndIsMaximal(ts: seq<TaggedPoint>, a: int)
    requires 0 <= a <= |ts|
    ensures forall i :: a <= i < RunEnd(ts, a) ==> ts[i].shouldBeKept
    ensures RunEnd(ts, a) == |ts| || !ts[RunEnd(ts, a)].shouldBeKept
    decreases |ts| - a
  {
    if a < |ts| && ts[a].shouldBeKept {
      RunEndIsMaximal(ts, a + 1);
    }
  }

  /** Where the vertices `[a, n)` are all kept, the run from `a` reaches `n`,
      and it ends exactly there when vertex `n` is discarded. */
  lemma {:induction false} RunEndPast(ts: seq<TaggedPoint>, a: int, n: int)
    requires 0 <= a <= n <= |ts|
    requires forall i :: a <= i < n ==> ts[i].shouldBeKept
    ensures n <= RunEnd(ts, a)
    ensures (n == |ts| || !ts[n].shouldBeKept) ==> RunEnd(ts, a) == n
    decreases n - a
  {
    if a < n {
      RunEndPast(ts, a + 1, n);
    }
  }

  /** A run stops at or before any discarded vertex after its opener. */
  lemma {:induction false} RunEndBefore(ts: seq<TaggedPoint>, a: int, d: int)
    requires 0 <= a <= d < |ts|
    requires !ts[d].shouldBeKept
    ensures RunEnd(ts, a) <= d
    decreases d - a
  {
    if a < d && ts[a].shouldBeKept {
      RunEndBefore(ts, a + 1, d);
    }
  }

  /** `lines` holds one polyline per run of kept vertices, in order, each
      with exactly the points of its run. */
  predicate SplitIntoRuns(ts: seq<TaggedPoint>, lines: seq<seq<Point>>) {
    && |lines| == |RunStarts(ts)|
    && forall j :: 0 <= j < |lines| ==>
         0 <= RunStarts(ts)[j] < |ts|
         && lines[j] == PointsOf(ts)[RunStarts(ts)[j]..RunEnd(ts, RunStarts(ts)[j])]
  }

  /** The state of the extraction loop after `index` vertices: one polyline
      per run opened so far, each holding its run's points up to `index`,
      and together the kept points seen so far. */
  ghost predicate Extracted(ts: seq<TaggedPoint>, index: int, shouldStart: bool, lines: seq<seq<Point>>)
  {
    && 0 <= index <= |ts|
    && shouldStart == (index == 0 || !ts[index - 1].shouldBeKept)
    && LinesMatch(ts, RunStartsBelow(ts, index), index, lines)
    && Concat(lines) == KeptPoints(ts[..index])
  }

  /** Polyline `j` holds the points of the run opened at `starts[j]`, cut off
      at `index`. */
  ghost predicate LinesMatch(ts: seq<TaggedPoint>, starts: seq<int>, index: int, lines: seq<seq<Point>>)
    requires 0 <= index <= |ts|
  {
    && |lines| == |starts|
    && forall j :: 0 <= j < |lines| ==>
         0 <= starts[j] < index
         && lines[j] == PointsOf(ts)[starts[j]..MinIndex(RunEnd(ts, starts[j]), index)]
  }

  function MinIndex(a: int, b: int): int {
    if a <= b then a else b
  }

  /** The loop over the tagged vertices with `should_start_new_polyline`:
      a discarded vertex arms the flag, a kept one either extends the last
      polyline or, when the flag is armed, opens a new one. Every maximal run
      of kept vertices becomes one polyline, in order, and nothing else is
      emitted. */
  method ExtractSegments(ts: seq<TaggedPoint>) returns (lines: seq<seq<Point>>)
    ensures SplitIntoRuns(ts, lines)
    ensures forall j :: 0 <= j < |lines| ==> |lines[j]| > 0
    ensures Concat(lines) == KeptPoints(ts)
  {
    lines := [];
    var shouldStart := true;
    var index := 0;
    while index < |ts|
      invariant Extracted(ts, index, shouldStart, lines)
    {
      var t := ts[index];
      if !t.shouldBeKept {
        DiscardStep(ts, index, shouldStart, lines);
        shouldStart := true;
        index := index + 1;
        continue;
      }
      if !shouldStart {
        ExtendStep(ts, index, lines);
        lines := lines[..|lines| - 1] + [lines[|lines| - 1] + [t.point]];
        index := index + 1;
        continue;
      }
      OpenRunStep(ts, index, lines);
      lines := lines + [[t.point]];
      shouldStart := false;
      index := index + 1;
    }
    assert ts[..index] == ts;
    forall j | 0 <= j < |lines|
      ensures lines[j] == PointsOf(ts)[RunStarts(ts)[j]..RunEnd(ts, RunStarts(ts)[j])]
    {
      assert MinIndex(RunEnd(ts, RunStarts(ts)[j]), |ts|) == RunEnd(ts, RunStarts(ts)[j]);
    }
    RunStartsBelowExact(ts, |ts|);
    forall j | 0 <= j < |lines|
      ensures |lines[j]| > 0
    {
      RunEndPast(ts, RunStarts(ts)[j], RunStarts(ts)[j] + 1);
    }
  }

  /** A polyline whose vertices are all kept comes out whole, as one
      polyline: its only run opens at 0 and ends at the last vertex. */
  lemma AllKeptIsOneRun(ts: seq<TaggedPoint>)
    requires |ts| > 0
    requires forall i :: 0 <= i < |ts| ==> ts[i].shouldBeKept
    ensures RunStarts(ts) == [0]
    ensures RunEnd(ts, 0) == |ts|
  {
    OnlyFirstOpens(ts, |ts|);
    RunEndPast(ts, 0, |ts|);
  }

  lemma {:induction false} OnlyFirstOpens(ts: seq<TaggedPoint>, n: int)
    requires 0 < n <= |ts|
    requires forall i :: 0 <= i < |ts| ==> ts[i].shouldBeKept
    ensures RunStartsBelow(ts, n) == [0]
  {
    if n > 1 {
      OnlyFirstOpens(ts, n - 1);
      assert !StartsRun(ts, n - 1);
    }
  }

  /** With every vertex kept, the split into runs is the whole polyline. */
  lemma AllKeptSplit(ts: seq<TaggedPoint>, lines: seq<seq<Point>>)
    requires |ts| > 0
    requires forall i :: 0 <= i < |ts| ==> ts[i].shouldBeKept
    requires SplitIntoRuns(ts, lines)
    ensures lines == [PointsOf(ts)]
  {
    AllKeptIsOneRun(ts);
    assert |lines| == 1;
    assert lines[0] == PointsOf(ts)[0..|ts|];
    assert PointsOf(ts)[0..|ts|] == PointsOf(ts);
  }

  /** A polyline with no kept vertex yields no polyline at all. */
  lemma NoneKeptIsNoRun(ts: seq<TaggedPoint>)
    requires forall i :: 0 <= i < |ts| ==> !ts[i].shouldBeKept
    ensures RunStarts(ts) == []
  {
    NoneOpens(ts, |ts|);
  }

  lemma {:induction false} NoneOpens(ts: seq<TaggedPoint>, n: int)
    requires 0 <= n <= |ts|
    requires forall i :: 0 <= i < |ts| ==> !ts[i].shouldBeKept
    ensures RunStartsBelow(ts, n) == []
  {
    if n > 0 {
      NoneOpens(ts, n - 1);
    }
  }

  /** The number of discard-to-keep transitions among the first `n`
      vertices. */
  function TransitionsBelow(ts: seq<TaggedPoint>, n: int): nat
    requires 0 <= n <= |ts|
  {
    if n <= 1 then 0
    else TransitionsBelow(ts, n - 1) + (if !ts[n - 2].shouldBeKept && ts[n - 1].shouldBeKept then 1 else 0)
  }

  /** There are as many runs, and so as many extracted polylines, as
      discard-to-keep transitions, plus one when the first vertex is kept. */
  lemma {:induction false} RunCount(ts: seq<TaggedPoint>, n: int)
    requires 0 <= n <= |ts|
    ensures |RunStartsBelow(ts, n)|
            == TransitionsBelow(ts, n) + (if n > 0 && ts[0].shouldBeKept then 1 else 0)
  {
    if n > 1 {
      RunCount(ts, n - 1);
    }
  }

  /** The kept points of a prefix grow by the next vertex when it is kept. */
  lemma KeptPointsStep(ts: seq<TaggedPoint>, index: int)
    requires 0 <= index < |ts|
    ensures KeptPoints(ts[..index + 1])
            == KeptPoints(ts[..index]) + (if ts[index].shouldBeKept then [ts[index].point] else [])
  {
    assert ts[..index + 1][..index] == ts[..index];
  }

  /** A discarded vertex opens nothing and every run is already complete. */
  lemma DiscardStep(ts: seq<TaggedPoint>, index: int, shouldStart: bool, lines: seq<seq<Point>>)
    requires 0 <= index < |ts| && !ts[index].shouldBeKept
    requires Extracted(ts, index, shouldStart, lines)
    ensures Extracted(ts, index + 1, true, lines)
  {
    var starts := RunStartsBelow(ts, index);
    assert RunStartsBelow(ts, index + 1) == starts;
    forall j | 0 <= j < |lines|
      ensures MinIndex(RunEnd(ts, starts[j]), index + 1) == MinIndex(RunEnd(ts, starts[j]), index)
    {
      RunEndBefore(ts, starts[j], index);
    }
    KeptPointsStep(ts, index);
  }

  /** A kept vertex after a kept one extends the last polyline. */
  lemma ExtendStep(ts: seq<TaggedPoint>, index: int, lines: seq<seq<Point>>)
    requires 0 <= index < |ts| && ts[index].shouldBeKept
    requires Extracted(ts, index, false, lines)
    ensures |lines| > 0
    ensures Extracted(ts, index + 1, false, lines[..|lines| - 1] + [lines[|lines| - 1] + [ts[index].point]])
  {
    var starts := RunStartsBelow(ts, index);
    assert !StartsRun(ts, index);
    assert RunStartsBelow(ts, index + 1) == starts;
    LastRunIsOpen(ts, index, starts);
    ExtendLines(ts, index, starts, lines);
    KeptPointsStep(ts, index);
    ConcatExtendLast(lines, ts[index].point);
  }

  /** Extending the last polyline by vertex `index` keeps every polyline in
      step with its run: the earlier runs ended before the last opener, the
      last run goes on through `index`. */
  lemma ExtendLines(ts: seq<TaggedPoint>, index: int, starts: seq<int>, lines: seq<seq<Point>>)
    requires 0 <= index < |ts| && ts[index].shouldBeKept
    requires LinesMatch(ts, starts, index, lines)
    requires |starts| > 0
    requires 0 < starts[|starts| - 1] ==> !ts[starts[|starts| - 1] - 1].shouldBeKept
    requires forall i :: starts[|starts| - 1] <= i < index ==> ts[i].shouldBeKept
    requires forall j :: 0 <= j < |starts| - 1 ==> starts[j] < starts[|starts| - 1]
    ensures LinesMatch(ts, starts, index + 1, lines[..|lines| - 1] + [lines[|lines| - 1] + [ts[index].point]])
  {
    var last := |lines| - 1;
    var a := starts[last];
    var lines' := lines[..last] + [lines[last] + [ts[index].point]];
    forall j | 0 <= j < last
      ensures lines'[j] == PointsOf(ts)[starts[j]..MinIndex(RunEnd(ts, starts[j]), index + 1)]
    {
      assert lines'[j] == lines[j];
      ClosedRunStays(ts, starts[j], a - 1, index);
    }
    OpenRunGrows(ts, a, index);
    assert lines'[last] == lines[last] + [ts[index].point];
  }

  /** A run that stopped at a discarded vertex `d` before `index` is not
      affected by moving the cut-off past `index`. */
  lemma ClosedRunStays(ts: seq<TaggedPoint>, s: int, d: int, index: int)
    requires 0 <= s <= d < index < |ts|
    requires !ts[d].shouldBeKept
    ensures MinIndex(RunEnd(ts, s), index + 1) == MinIndex(RunEnd(ts, s), index)
  {
    RunEndBefore(ts, s, d);
  }

  /** A run whose vertices `[a, index]` are all kept takes vertex `index`
      when the cut-off moves past it. */
  lemma OpenRunGrows(ts: seq<TaggedPoint>, a: int, index: int)
    requires 0 <= a <= index < |ts|
    requires forall i :: a <= i <= index ==> ts[i].shouldBeKept
    ensures MinIndex(RunEnd(ts, a), index) == index
    ensures PointsOf(ts)[a..MinIndex(RunEnd(ts, a), index + 1)]
            == PointsOf(ts)[a..MinIndex(RunEnd(ts, a), index)] + [ts[index].point]
  {
    RunEndPast(ts, a, index + 1);
    SliceExtend(PointsOf(ts), a, index);
  }

  /** A slice grows by the element at its end. */
  lemma SliceExtend(pts: seq<Point>, a: int, i: int)
    requires 0 <= a <= i < |pts|
    ensures pts[a..i + 1] == pts[a..i] + [pts[i]]
  {
  }

  /** Past a kept vertex that follows a kept vertex, some run is open, and
      the most recent opener comes after every other one and has only kept
      vertices up to `index`. */
  lemma LastRunIsOpen(ts: seq<TaggedPoint>, index: int, starts: seq<int>)
    requires 0 < index <= |ts| && ts[index - 1].shouldBeKept
    requires starts == RunStartsBelow(ts, index)
    ensures |starts| > 0
    ensures 0 <= starts[|starts| - 1] < index
    ensures 0 < starts[|starts| - 1] ==> !ts[starts[|starts| - 1] - 1].shouldBeKept
    ensures forall i :: starts[|starts| - 1] <= i < index ==> ts[i].shouldBeKept
    ensures forall j :: 0 <= j < |starts| - 1 ==> starts[j] < starts[|starts| - 1]
  {
    RunStartsBelowExact(ts, index);
    var b := index - 1;
    while !StartsRun(ts, b)
      invariant 0 <= b < index
      invariant forall i :: b <= i < index ==> ts[i].shouldBeKept
      decreases b
    {
      b := b - 1;
    }
    assert b in starts;
    NoOpenerBetween(ts, index, b);
    assert starts[|starts| - 1] >= b;
  }

  /** Between the nearest opener `b` at or before `index - 1` and `index`
      there is no other opener, since every vertex there is kept. */
  lemma NoOpenerBetween(ts: seq<TaggedPoint>, index: int, b: int)
    requires 0 <= b < index <= |ts|
    requires forall i :: b <= i < index ==> ts[i].shouldBeKept
    ensures forall j :: 0 <= j < |RunStartsBelow(ts, index)| ==> RunStartsBelow(ts, index)[j] <= b
  {
    RunStartsBelowExact(ts, index);
  }

  /** A kept vertex after a discarded one (or at the start) opens a new
      polyline. */
  lemma OpenRunStep(ts: seq<TaggedPoint>, index: int, lines: seq<seq<Point>>)
    requires 0 <= index < |ts| && ts[index].shouldBeKept
    requires Extracted(ts, index, true, lines)
    ensures Extracted(ts, index + 1, false, lines + [[ts[index].point]])
  {
    var starts := RunStartsBelow(ts, index);
    assert StartsRun(ts, index);
    assert RunStartsBelow(ts, index + 1) == starts + [index];
    OpenLines(ts, index, starts, lines);
    KeptPointsStep(ts, index);
    ConcatAppend(lines, [ts[index].point]);
  }

  /** Opening a polyline at vertex `index` keeps every polyline in step with
      its run: the earlier runs ended at the discarded vertex before `index`. */
  lemma OpenLines(ts: seq<TaggedPoint>, index: int, starts: seq<int>, lines: seq<seq<Point>>)
    requires 0 <= index < |ts| && ts[index].shouldBeKept
    requires index == 0 || !ts[index - 1].shouldBeKept
    requires LinesMatch(ts, starts, index, lines)
    ensures LinesMatch(ts, starts + [index], index + 1, lines + [[ts[index].point]])
  {
    var starts', lines' := starts + [index], lines + [[ts[index].point]];
    forall j | 0 <= j < |lines|
      ensures lines'[j] == PointsOf(ts)[starts'[j]..MinIndex(RunEnd(ts, starts'[j]), index + 1)]
    {
      RunEndBefore(ts, starts[j], index - 1);
    }
    RunEndPast(ts, index, index + 1);
    assert lines'[|lines|] == PointsOf(ts)[index..index + 1];
  }

  /** Appending a polyline appends its points. */
  lemma ConcatAppend(lines: seq<seq<Point>>, line: seq<Point>)
    ensures Concat(lines + [line]) == Concat(lines) + line
  {
    assert (lines + [line])[..|lines|] == lines;
  }

  /** Extending the last polyline by a point appends that point. */
  lemma ConcatExtendLast(lines: seq<seq<Point>>, p: Point)
    requires |lines| > 0
    ensures Concat(lines[..|lines| - 1] + [lines[|lines| - 1] + [p]]) == Concat(lines) + [p]
  {
    var front, line := lines[..|lines| - 1], lines[|lines| - 1];
    assert lines == front + [line];
    ConcatAppend(front, line);
    ConcatAppend(front, line + [p]);
    AppendAssociates(Concat(front), line, [p]);
  }

  lemma AppendAssociates(a: seq<Point>, b: seq<Point>, c: seq<Point>)
    ensures a + (b + c) == (a + b) + c
  {
  }
}
