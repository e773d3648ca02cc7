/** Tail extension (`add_tails_to_tagged_form_line_polyline`). A tail grows
    only from an interior edge vertex: a kept vertex with one discarded and one
    kept neighbour. So a lone kept vertex between two discarded ones gets no
    tail, and indices 0 and `len - 1` never change. The arc is compared with
    `additional_tail_length` before each vertex is added, so a tail can exceed
    that length by its last segment. */
module Tails {
  import opened Geometry
  import opened Tagged

  /** A kept interior vertex whose predecessor is discarded and whose
      successor is kept: a kept run starts here. */
  predicate IsStartEdge(ts: seq<TaggedPoint>, i: int)
    requires 0 <= i < |ts|
  {
    && ts[i].shouldBeKept
    && i != 0
    && i != |ts| - 1
    && !ts[i - 1].shouldBeKept
    && ts[i + 1].shouldBeKept
  }

  /** A kept interior vertex whose predecessor is kept and whose successor is
      discarded: a kept run ends here. */
  predicate IsEndEdge(ts: seq<TaggedPoint>, i: int)
    requires 0 <= i < |ts|
  {
    && ts[i].shouldBeKept
    && i != 0
    && i != |ts| - 1
    && ts[i - 1].shouldBeKept
    && !ts[i + 1].shouldBeKept
  }

  /** The tail grown backwards from start edge `s` takes vertex `k`: the walk
      gets to `k` before index 0, and the tail built so far, from `s` back to
      `k + 1`, is no longer than `add`. (The source builds that tail in
      walking order; a polyline and its reverse have the same length.) */
  predicate StartTailReaches(sqrt: real -> real, ts: seq<TaggedPoint>, add: real, s: int, k: int)
    requires IsSqrt(sqrt)
    requires 0 <= s < |ts|
  {
    1 <= k < s && PolylineLength(sqrt, PointsOf(ts)[k + 1..s + 1]) <= add
  }

  /** The tail grown forwards from end edge `e` takes vertex `k`: the walk
      gets to `k` before the last index, and the tail from `e` to `k - 1` is
      no longer than `add`. */
  predicate EndTailReaches(sqrt: real -> real, ts: seq<TaggedPoint>, add: real, e: int, k: int)
    requires IsSqrt(sqrt)
    requires 0 <= e < |ts|
  {
    e < k < |ts| - 1 && PolylineLength(sqrt, PointsOf(ts)[e..k]) <= add
  }

  /** Whether vertex `k` is kept once tails are added: it was kept, or a tail
      from an edge of the input mask reaches it. */
  ghost predicate KeptAfterTails(sqrt: real -> real, ts: seq<TaggedPoint>, add: real, k: int)
    requires IsSqrt(sqrt)
    requires 0 <= k < |ts|
  {
    || ts[k].shouldBeKept
    || (exists s :: 0 <= s < |ts| && IsStartEdge(ts, s) && StartTailReaches(sqrt, ts, add, s, k))
    || (exists e :: 0 <= e < |ts| && IsEndEdge(ts, e) && EndTailReaches(sqrt, ts, add, e, k))
  }

  /** The mask tail extension produces: the same vertices, each flagged by
      `KeptAfterTails`. A solver helper: its ensures only unfold it. */
  ghost function TailsAdded(sqrt: real -> real, ts: seq<TaggedPoint>, add: real): (r: seq<TaggedPoint>)
    requires IsSqrt(sqrt)
    ensures SamePoints(ts, r)
    ensures forall k :: 0 <= k < |ts| ==> r[k].shouldBeKept == KeptAfterTails(sqrt, ts, add, k)
  {
    seq(|ts|, k requires 0 <= k < |ts| => TaggedPoint(ts[k].point, KeptAfterTails(sqrt, ts, add, k)))
  }

  /** Edge test for either kind: `start` picks start edges, otherwise end
      edges. */
  predicate IsEdge(ts: seq<TaggedPoint>, i: int, start: bool)
    requires 0 <= i < |ts|
  {
    if start then IsStartEdge(ts, i) else IsEndEdge(ts, i)
  }

  /** The edges of one kind among the first `n` vertices, in increasing
      order. */
  function EdgesBelow(ts: seq<TaggedPoint>, n: int, start: bool): seq<int>
    requires 0 <= n <= |ts|
  {
    if n == 0 then []
    else EdgesBelow(ts, n - 1, start) + (if IsEdge(ts, n - 1, start) then [n - 1] else [])
  }

  /** `EdgesBelow` lists exactly the edges below `n`, each once, in
      increasing order. */
  lemma {:induction false} EdgesBelowExact(ts: seq<TaggedPoint>, n: int, start: bool)
    requires 0 <= n <= |ts|
    ensures forall j :: 0 <= j < |EdgesBelow(ts, n, start)| ==>
              0 <= EdgesBelow(ts, n, start)[j] < n && IsEdge(ts, EdgesBelow(ts, n, start)[j], start)
    ensures forall i :: 0 <= i < n && IsEdge(ts, i, start) ==> i in EdgesBelow(ts, n, start)
    ensures forall j1, j2 :: 0 <= j1 < j2 < |EdgesBelow(ts, n, start)| ==>
              EdgesBelow(ts, n, start)[j1] < EdgesBelow(ts, n, start)[j2]
  {
    if n > 0 {
      EdgesBelowExact(ts, n - 1, start);
      var prefix := EdgesBelow(ts, n - 1, start);
      assert EdgesBelow(ts, n, start) == prefix + (if IsEdge(ts, n - 1, start) then [n - 1] else []);
      forall i | 0 <= i < n && IsEdge(ts, i, start)
        ensures i in EdgesBelow(ts, n, start)
      {
        if i < n - 1 {
          assert i in prefix;
        }
      }
    }
  }

  /** The first loop of the source: start and end edges of the input mask, in
      increasing order. */
  method CollectEdges(ts: seq<TaggedPoint>) returns (starts: seq<int>, ends: seq<int>)
    ensures forall j :: 0 <= j < |starts| ==> 0 <= starts[j] < |ts| && IsStartEdge(ts, starts[j])
    ensures forall i :: 0 <= i < |ts| && IsStartEdge(ts, i) ==> i in starts
    ensures forall j :: 0 <= j < |ends| ==> 0 <= ends[j] < |ts| && IsEndEdge(ts, ends[j])
    ensures forall i :: 0 <= i < |ts| && IsEndEdge(ts, i) ==> i in ends
    ensures forall j1, j2 :: 0 <= j1 < j2 < |starts| ==> starts[j1] < starts[j2]
    ensures forall j1, j2 :: 0 <= j1 < j2 < |ends| ==> ends[j1] < ends[j2]
  {
    starts, ends := [], [];
    var index := 0;
    while index < |ts|
      invariant 0 <= index <= |ts|
      invariant starts == EdgesBelow(ts, index, true)
      invariant ends == EdgesBelow(ts, index, false)
    {
      if !ts[index].shouldBeKept || index == 0 || index == |ts| - 1 {
        index := index + 1;
        continue;
      }
      var previousKept := ts[index - 1].shouldBeKept;
      var nextKept := ts[index + 1].shouldBeKept;
      if !previousKept && nextKept {
        starts := starts + [index];
      }
      if previousKept && !nextKept {
        ends := ends + [index];
      }
      index := index + 1;
    }
    EdgesBelowExact(ts, |ts|, true);
    EdgesBelowExact(ts, |ts|, false);
  }

  /** The backward walk from start edge `s`: the indices it collects in
      `tail_indexes` are exactly the vertices its tail reaches. */
  method GrowStartTail(sqrt: real -> real, ts: seq<TaggedPoint>, s: int, add: real)
    returns (tailIndexes: seq<int>)
    requires IsSqrt(sqrt)
    requires 0 < s < |ts|
    ensures forall t :: 0 <= t < |tailIndexes| ==> 0 <= tailIndexes[t] < |ts|
    ensures forall k :: 0 <= k < |ts| ==> (k in tailIndexes <==> StartTailReaches(sqrt, ts, add, s, k))
  {
    var index := s - 1;
    var tail := [PointsOf(ts)[s]];
    tailIndexes := [];
    while true
      invariant 0 <= index < s
      invariant tail == Reverse(PointsOf(ts)[index + 1..s + 1])
      invariant |tailIndexes| == s - 1 - index
      invariant forall t :: 0 <= t < |tailIndexes| ==> tailIndexes[t] == s - 1 - t
      invariant forall k :: index < k < s ==> StartTailReaches(sqrt, ts, add, s, k)
      decreases index
    {
      var tailLength := PolylineLength(sqrt, tail);
      if index == 0 || tailLength > add {
        break;
      }
      StartTailStep(sqrt, ts, add, s, index, tail);
      tail := tail + [PointsOf(ts)[index]];
      tailIndexes := tailIndexes + [index];
      index := index - 1;
    }
    StartTailStops(sqrt, ts, add, s, index, tail);
    CountdownMembers(tailIndexes, s - 1, index);
  }

  /** The indices `top, top - 1, ..., bottom + 1` are the integers strictly
      between `bottom` and `top + 1`. */
  lemma CountdownMembers(xs: seq<int>, top: int, bottom: int)
    requires |xs| == top - bottom
    requires forall t :: 0 <= t < |xs| ==> xs[t] == top - t
    ensures forall k :: k in xs <==> bottom < k <= top
  {
    forall k | bottom < k <= top
      ensures k in xs
    {
      assert xs[top - k] == k;
    }
  }

  /** One step of the backward walk: a tail no longer than `add` takes the
      next vertex back. */
  lemma StartTailStep(sqrt: real -> real, ts: seq<TaggedPoint>, add: real, s: int, index: int, tail: seq<Point>)
    requires IsSqrt(sqrt)
    requires 0 < index < s < |ts|
    requires tail == Reverse(PointsOf(ts)[index + 1..s + 1])
    requires PolylineLength(sqrt, tail) <= add
    ensures StartTailReaches(sqrt, ts, add, s, index)
    ensures tail + [PointsOf(ts)[index]] == Reverse(PointsOf(ts)[index..s + 1])
  {
    LengthReverse(sqrt, PointsOf(ts)[index + 1..s + 1]);
    ReverseExtend(PointsOf(ts), index, s + 1);
  }

  /** Where the backward walk stops, no vertex further back is reached. */
  lemma StartTailStops(sqrt: real -> real, ts: seq<TaggedPoint>, add: real, s: int, index: int, tail: seq<Point>)
    requires IsSqrt(sqrt)
    requires 0 <= index < s < |ts|
    requires tail == Reverse(PointsOf(ts)[index + 1..s + 1])
    requires index == 0 || PolylineLength(sqrt, tail) > add
    ensures forall k :: 0 <= k <= index ==> !StartTailReaches(sqrt, ts, add, s, k)
  {
    LengthReverse(sqrt, PointsOf(ts)[index + 1..s + 1]);
    forall k | 1 <= k <= index
      ensures !StartTailReaches(sqrt, ts, add, s, k)
    {
      LongerTailFromFurtherBack(sqrt, PointsOf(ts), k, index, s);
    }
  }

  /** A tail reaching further back is at least as long. */
  lemma LongerTailFromFurtherBack(sqrt: real -> real, pts: seq<Point>, k: int, index: int, s: int)
    requires IsSqrt(sqrt)
    requires 0 <= k <= index < s < |pts|
    ensures PolylineLength(sqrt, pts[index + 1..s + 1]) <= PolylineLength(sqrt, pts[k + 1..s + 1])
  {
    LengthSliceMonotone(sqrt, pts, k + 1, index + 1, s + 1, s + 1);
  }

  /** Reversing a slice that grows by one vertex at the front appends that
      vertex at the back. */
  lemma ReverseExtend(pts: seq<Point>, i: int, j: int)
    requires 0 <= i < j <= |pts|
    ensures Reverse(pts[i..j]) == Reverse(pts[i + 1..j]) + [pts[i]]
  {
    assert |Reverse(pts[i..j])| == |Reverse(pts[i + 1..j]) + [pts[i]]|;
  }

  /** The forward walk from end edge `e`: the indices it collects are exactly
      the vertices its tail reaches. */
  method GrowEndTail(sqrt: real -> real, ts: seq<TaggedPoint>, e: int, add: real)
    returns (tailIndexes: seq<int>)
    requires IsSqrt(sqrt)
    requires 0 <= e < |ts| - 1
    ensures forall t :: 0 <= t < |tailIndexes| ==> 0 <= tailIndexes[t] < |ts|
    ensures forall k :: 0 <= k < |ts| ==> (k in tailIndexes <==> EndTailReaches(sqrt, ts, add, e, k))
  {
    var pts := PointsOf(ts);
    var index := e + 1;
    var tail := [pts[e]];
    tailIndexes := [];
    while true
      invariant e < index <= |ts| - 1
      invariant tail == pts[e..index]
      invariant |tailIndexes| == index - e - 1
      invariant forall t :: 0 <= t < |tailIndexes| ==> tailIndexes[t] == e + 1 + t
      invariant forall k :: e < k < index ==> EndTailReaches(sqrt, ts, add, e, k)
      decreases |ts| - index
    {
      var tailLength := PolylineLength(sqrt, tail);
      if index == |ts| - 1 || tailLength > add {
        break;
      }
      assert EndTailReaches(sqrt, ts, add, e, index);
      assert pts[e..index + 1] == pts[e..index] + [pts[index]];
      tail := tail + [pts[index]];
      tailIndexes := tailIndexes + [index];
      index := index + 1;
    }
    forall k | 0 <= k < |ts|
      ensures k in tailIndexes <==> EndTailReaches(sqrt, ts, add, e, k)
    {
      if e < k < index {
        assert tailIndexes[k - e - 1] == k;
      } else if index <= k < |ts| - 1 {
        LengthSliceMonotone(sqrt, pts, e, e, index, k);
      }
    }
  }

  /** Marks every listed index as kept: the last step of growing a tail. */
  method KeepIndexes(ts: seq<TaggedPoint>, indexes: seq<int>) returns (r: seq<TaggedPoint>)
    requires forall t :: 0 <= t < |indexes| ==> 0 <= indexes[t] < |ts|
    ensures SamePoints(ts, r)
    ensures forall k :: 0 <= k < |ts| ==> r[k].shouldBeKept == (ts[k].shouldBeKept || k in indexes)
  {
    r := ts;
    var t := 0;
    while t < |indexes|
      invariant 0 <= t <= |indexes|
      invariant SamePoints(ts, r)
      invariant forall k :: 0 <= k < |ts| ==> r[k].shouldBeKept == (ts[k].shouldBeKept || k in indexes[..t])
    {
      r := r[indexes[t] := Kept(r[indexes[t]])];
      assert indexes[..t + 1] == indexes[..t] + [indexes[t]];
      t := t + 1;
    }
    assert indexes[..t] == indexes;
  }

  /** Every entry of `xs` is an index into a polyline of `n` vertices. */
  predicate AllBelow(xs: seq<int>, n: int) {
    forall j :: 0 <= j < |xs| ==> 0 <= xs[j] < n
  }

  /** Some edge of the list grows a start tail over vertex `k`. */
  ghost predicate ReachedFromStarts(sqrt: real -> real, ts: seq<TaggedPoint>, add: real, starts: seq<int>, k: int)
    requires IsSqrt(sqrt)
    requires AllBelow(starts, |ts|)
  {
    exists j :: 0 <= j < |starts| && StartTailReaches(sqrt, ts, add, starts[j], k)
  }

  /** Some edge of the list grows an end tail over vertex `k`. */
  ghost predicate ReachedFromEnds(sqrt: real -> real, ts: seq<TaggedPoint>, add: real, ends: seq<int>, k: int)
    requires IsSqrt(sqrt)
    requires AllBelow(ends, |ts|)
  {
    exists j :: 0 <= j < |ends| && EndTailReaches(sqrt, ts, add, ends[j], k)
  }

  /** `r` is the input mask with the tails of the listed edges added. */
  ghost predicate TailsApplied(sqrt: real -> real, ts: seq<TaggedPoint>, add: real, starts: seq<int>, ends: seq<int>, r: seq<TaggedPoint>)
    requires IsSqrt(sqrt)
    requires AllBelow(starts, |ts|) && AllBelow(ends, |ts|)
  {
    && SamePoints(ts, r)
    && forall k :: 0 <= k < |ts| ==>
         r[k].shouldBeKept == (|| ts[k].shouldBeKept
                               || ReachedFromStarts(sqrt, ts, add, starts, k)
                               || ReachedFromEnds(sqrt, ts, add, ends, k))
  }

  /** `add_tails_to_tagged_form_line_polyline`, step for step: edges are
      taken from the input mask, then the start tails and the end tails are
      grown and their vertices set to kept. The walks read only vertices,
      which no step changes, so they are given the input polyline. */
  method AddTails(sqrt: real -> real, ts: seq<TaggedPoint>, add: real) returns (r: seq<TaggedPoint>)
    requires IsSqrt(sqrt)
    ensures SamePoints(ts, r)
    ensures NeverClears(ts, r)
    ensures |ts| > 0 ==> r[0] == ts[0] && r[|ts| - 1] == ts[|ts| - 1]
    ensures forall k :: 0 <= k < |ts| ==> r[k].shouldBeKept == KeptAfterTails(sqrt, ts, add, k)
  {
    var starts, ends := CollectEdges(ts);
    var withStartTails := AddStartTails(sqrt, ts, add, starts);
    r := AddEndTails(sqrt, ts, add, starts, ends, withStartTails);
    AllTailsApplied(sqrt, ts, add, starts, ends, r);
    if |ts| > 0 {
      TailsKeepEnds(sqrt, ts, add);
    }
  }

  /** The second loop of the source: the start tail of every listed edge. */
  method AddStartTails(sqrt: real -> real, ts: seq<TaggedPoint>, add: real, starts: seq<int>)
    returns (r: seq<TaggedPoint>)
    requires IsSqrt(sqrt)
    requires forall j :: 0 <= j < |starts| ==> 0 < starts[j] < |ts|
    ensures AllBelow(starts, |ts|)
    ensures TailsApplied(sqrt, ts, add, starts, [], r)
  {
    r := ts;
    NothingApplied(sqrt, ts, add);
    var e := 0;
    while e < |starts|
      invariant 0 <= e <= |starts|
      invariant TailsApplied(sqrt, ts, add, starts[..e], [], r)
    {
      var tailIndexes := GrowStartTail(sqrt, ts, starts[e], add);
      ghost var before := r;
      r := KeepIndexes(r, tailIndexes);
      StartTailApplied(sqrt, ts, add, starts[..e], [], before, starts[e], tailIndexes, r);
      assert starts[..e + 1] == starts[..e] + [starts[e]];
      e := e + 1;
    }
    assert starts[..e] == starts;
  }

  /** The third loop of the source: the end tail of every listed edge. */
  method AddEndTails(sqrt: real -> real, ts: seq<TaggedPoint>, add: real, starts: seq<int>, ends: seq<int>,
                     withStartTails: seq<TaggedPoint>)
    returns (r: seq<TaggedPoint>)
    requires IsSqrt(sqrt)
    requires AllBelow(starts, |ts|)
    requires forall j :: 0 <= j < |ends| ==> 0 <= ends[j] < |ts| - 1
    requires TailsApplied(sqrt, ts, add, starts, [], withStartTails)
    ensures AllBelow(ends, |ts|)
    ensures TailsApplied(sqrt, ts, add, starts, ends, r)
  {
    r := withStartTails;
    var e := 0;
    while e < |ends|
      invariant 0 <= e <= |ends|
      invariant TailsApplied(sqrt, ts, add, starts, ends[..e], r)
    {
      var tailIndexes := GrowEndTail(sqrt, ts, ends[e], add);
      ghost var before := r;
      r := KeepIndexes(r, tailIndexes);
      EndTailApplied(sqrt, ts, add, starts, ends[..e], before, ends[e], tailIndexes, r);
      assert ends[..e + 1] == ends[..e] + [ends[e]];
      e := e + 1;
    }
    assert ends[..e] == ends;
  }

  /** Before any tail is grown the mask is the input mask. */
  lemma NothingApplied(sqrt: real -> real, ts: seq<TaggedPoint>, add: real)
    requires IsSqrt(sqrt)
    ensures TailsApplied(sqrt, ts, add, [], [], ts)
  {
  }

  /** Setting the vertices of one more start tail to kept extends the list of
      applied start edges by that edge. */
  lemma StartTailApplied(sqrt: real -> real, ts: seq<TaggedPoint>, add: real, starts: seq<int>, ends: seq<int>,
                         r: seq<TaggedPoint>, s: int, tailIndexes: seq<int>, r2: seq<TaggedPoint>)
    requires IsSqrt(sqrt)
    requires AllBelow(starts, |ts|) && AllBelow(ends, |ts|)
    requires 0 <= s < |ts|
    requires TailsApplied(sqrt, ts, add, starts, ends, r)
    requires forall k :: 0 <= k < |ts| ==> (k in tailIndexes <==> StartTailReaches(sqrt, ts, add, s, k))
    requires SamePoints(r, r2)
    requires forall k :: 0 <= k < |r| ==> r2[k].shouldBeKept == (r[k].shouldBeKept || k in tailIndexes)
    ensures AllBelow(starts + [s], |ts|)
    ensures TailsApplied(sqrt, ts, add, starts + [s], ends, r2)
  {
    var more := starts + [s];
    forall k | 0 <= k < |ts|
      ensures ReachedFromStarts(sqrt, ts, add, more, k)
              == (ReachedFromStarts(sqrt, ts, add, starts, k) || StartTailReaches(sqrt, ts, add, s, k))
    {
      if ReachedFromStarts(sqrt, ts, add, more, k) {
        var j :| 0 <= j < |more| && StartTailReaches(sqrt, ts, add, more[j], k);
        if j < |starts| {
          assert more[j] == starts[j];
        }
      }
      if ReachedFromStarts(sqrt, ts, add, starts, k) {
        var j :| 0 <= j < |starts| && StartTailReaches(sqrt, ts, add, starts[j], k);
        assert more[j] == starts[j];
      }
      if StartTailReaches(sqrt, ts, add, s, k) {
        assert more[|starts|] == s;
      }
    }
  }

  /** Setting the vertices of one more end tail to kept extends the list of
      applied end edges by that edge. */
  lemma EndTailApplied(sqrt: real -> real, ts: seq<TaggedPoint>, add: real, starts: seq<int>, ends: seq<int>,
                       r: seq<TaggedPoint>, e: int, tailIndexes: seq<int>, r2: seq<TaggedPoint>)
    requires IsSqrt(sqrt)
    requires AllBelow(starts, |ts|) && AllBelow(ends, |ts|)
    requires 0 <= e < |ts|
    requires TailsApplied(sqrt, ts, add, starts, ends, r)
    requires forall k :: 0 <= k < |ts| ==> (k in tailIndexes <==> EndTailReaches(sqrt, ts, add, e, k))
    requires SamePoints(r, r2)
    requires forall k :: 0 <= k < |r| ==> r2[k].shouldBeKept == (r[k].shouldBeKept || k in tailIndexes)
    ensures AllBelow(ends + [e], |ts|)
    ensures TailsApplied(sqrt, ts, add, starts, ends + [e], r2)
  {
    var more := ends + [e];
    forall k | 0 <= k < |ts|
      ensures ReachedFromEnds(sqrt, ts, add, more, k)
              == (ReachedFromEnds(sqrt, ts, add, ends, k) || EndTailReaches(sqrt, ts, add, e, k))
    {
      if ReachedFromEnds(sqrt, ts, add, more, k) {
        var j :| 0 <= j < |more| && EndTailReaches(sqrt, ts, add, more[j], k);
        if j < |ends| {
          assert more[j] == ends[j];
        }
      }
      if ReachedFromEnds(sqrt, ts, add, ends, k) {
        var j :| 0 <= j < |ends| && EndTailReaches(sqrt, ts, add, ends[j], k);
        assert more[j] == ends[j];
      }
      if EndTailReaches(sqrt, ts, add, e, k) {
        assert more[|ends|] == e;
      }
    }
  }

  /** Once every edge of both lists has its tail, the mask is the one
      `KeptAfterTails` describes. */
  lemma AllTailsApplied(sqrt: real -> real, ts: seq<TaggedPoint>, add: real, starts: seq<int>, ends: seq<int>, r: seq<TaggedPoint>)
    requires IsSqrt(sqrt)
    requires forall j :: 0 <= j < |starts| ==> 0 <= starts[j] < |ts| && IsStartEdge(ts, starts[j])
    requires forall i :: 0 <= i < |ts| && IsStartEdge(ts, i) ==> i in starts
    requires forall j :: 0 <= j < |ends| ==> 0 <= ends[j] < |ts| && IsEndEdge(ts, ends[j])
    requires forall i :: 0 <= i < |ts| && IsEndEdge(ts, i) ==> i in ends
    requires TailsApplied(sqrt, ts, add, starts, ends, r)
    ensures SamePoints(ts, r)
    ensures forall k :: 0 <= k < |ts| ==> r[k].shouldBeKept == KeptAfterTails(sqrt, ts, add, k)
  {
    forall k | 0 <= k < |ts|
      ensures r[k].shouldBeKept == KeptAfterTails(sqrt, ts, add, k)
    {
      EdgeListsDecide(sqrt, ts, add, starts, ends, k);
    }
  }

  /** The edge lists stand for all edges of the input mask. */
  lemma EdgeListsDecide(sqrt: real -> real, ts: seq<TaggedPoint>, add: real, starts: seq<int>, ends: seq<int>, k: int)
    requires IsSqrt(sqrt)
    requires 0 <= k < |ts|
    requires forall j :: 0 <= j < |starts| ==> 0 <= starts[j] < |ts| && IsStartEdge(ts, starts[j])
    requires forall i :: 0 <= i < |ts| && IsStartEdge(ts, i) ==> i in starts
    requires forall j :: 0 <= j < |ends| ==> 0 <= ends[j] < |ts| && IsEndEdge(ts, ends[j])
    requires forall i :: 0 <= i < |ts| && IsEndEdge(ts, i) ==> i in ends
    ensures KeptAfterTails(sqrt, ts, add, k)
            == (|| ts[k].shouldBeKept
                || ReachedFromStarts(sqrt, ts, add, starts, k)
                || ReachedFromEnds(sqrt, ts, add, ends, k))
  {
    if s :| 0 <= s < |ts| && IsStartEdge(ts, s) && StartTailReaches(sqrt, ts, add, s, k) {
      var j :| 0 <= j < |starts| && starts[j] == s;
      assert StartTailReaches(sqrt, ts, add, starts[j], k);
    }
    if e :| 0 <= e < |ts| && IsEndEdge(ts, e) && EndTailReaches(sqrt, ts, add, e, k) {
      var j :| 0 <= j < |ends| && ends[j] == e;
      assert EndTailReaches(sqrt, ts, add, ends[j], k);
    }
  }

  /** The first and the last vertex are never touched: start tails stop
      before index 0, end tails before the last index. */
  lemma TailsKeepEnds(sqrt: real -> real, ts: seq<TaggedPoint>, add: real)
    requires IsSqrt(sqrt)
    requires |ts| > 0
    ensures KeptAfterTails(sqrt, ts, add, 0) == ts[0].shouldBeKept
    ensures KeptAfterTails(sqrt, ts, add, |ts| - 1) == ts[|ts| - 1].shouldBeKept
  {
  }

  /** A longer `additional_tail_length` keeps at least as many vertices. */
  lemma TailsMonotone(sqrt: real -> real, ts: seq<TaggedPoint>, add1: real, add2: real, k: int)
    requires IsSqrt(sqrt)
    requires 0 <= k < |ts|
    requires add1 <= add2
    ensures KeptAfterTails(sqrt, ts, add1, k) ==> KeptAfterTails(sqrt, ts, add2, k)
  {
    if s :| 0 <= s < |ts| && IsStartEdge(ts, s) && StartTailReaches(sqrt, ts, add1, s, k) {
      assert StartTailReaches(sqrt, ts, add2, s, k);
    }
    if e :| 0 <= e < |ts| && IsEndEdge(ts, e) && EndTailReaches(sqrt, ts, add1, e, k) {
      assert EndTailReaches(sqrt, ts, add2, e, k);
    }
  }

  /** A start tail is a contiguous run `s - 1, s - 2, ...`: if it reaches `k`
      it reaches every vertex between `k` and the edge. */
  lemma {:induction false} StartTailContiguous(sqrt: real -> real, ts: seq<TaggedPoint>, add: real, s: int, k: int, m: int)
    requires IsSqrt(sqrt)
    requires 0 <= s < |ts|
    requires StartTailReaches(sqrt, ts, add, s, k)
    requires k <= m < s
    ensures StartTailReaches(sqrt, ts, add, s, m)
  {
    LengthSliceMonotone(sqrt, PointsOf(ts), k + 1, m + 1, s + 1, s + 1);
  }

  /** An end tail is a contiguous run `e + 1, e + 2, ...`. */
  lemma {:induction false} EndTailContiguous(sqrt: real -> real, ts: seq<TaggedPoint>, add: real, e: int, k: int, m: int)
    requires IsSqrt(sqrt)
    requires 0 <= e < |ts|
    requires EndTailReaches(sqrt, ts, add, e, k)
    requires e < m <= k
    ensures EndTailReaches(sqrt, ts, add, e, m)
  {
    LengthSliceMonotone(sqrt, PointsOf(ts), e, e, m, k);
  }

  /** With a non-negative `additional_tail_length` every start edge past
      index 1 takes at least its predecessor, and every end edge before the
      second-to-last index takes its successor: the one-vertex tail has
      length zero. */
  lemma FirstTailStep(sqrt: real -> real, ts: seq<TaggedPoint>, add: real, i: int)
    requires IsSqrt(sqrt)
    requires 0 <= i < |ts|
    requires 0.0 <= add
    ensures IsStartEdge(ts, i) && i >= 2 ==> KeptAfterTails(sqrt, ts, add, i - 1)
    ensures IsEndEdge(ts, i) && i + 2 < |ts| ==> KeptAfterTails(sqrt, ts, add, i + 1)
  {
    if IsStartEdge(ts, i) && i >= 2 {
      assert StartTailReaches(sqrt, ts, add, i, i - 1);
    }
    if IsEndEdge(ts, i) && i + 2 < |ts| {
      assert EndTailReaches(sqrt, ts, add, i, i + 1);
    }
  }
}
