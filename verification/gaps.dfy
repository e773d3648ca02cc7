/** Gap removal (`remove_gaps_from_tagged_form_line_polyline`). A run of
    discarded vertices that ends at a closing vertex is kept after all when its
    arc is shorter than `min_gap_length`. The arc runs from the kept vertex
    before the run (or from index 0) through the closing vertex. A trailing run
    after the last closing vertex is never refilled. */
module Gaps {
  import opened Geometry
  import opened Tagged

  /** A kept interior vertex whose two neighbours are both discarded; the pass
      treats it as part of the surrounding gap. */
  predicate IsLonely(ts: seq<TaggedPoint>, i: int)
    requires 0 <= i < |ts|
  {
    && ts[i].shouldBeKept
    && i != 0
    && i != |ts| - 1
    && !ts[i - 1].shouldBeKept
    && !ts[i + 1].shouldBeKept
  }

  /** A vertex that ends the gap in front of it: kept and not lonely. */
  predicate ClosesGap(ts: seq<TaggedPoint>, i: int)
    requires 0 <= i < |ts|
  {
    ts[i].shouldBeKept && !IsLonely(ts, i)
  }

  /** The last gap-closing vertex before index `k`, or -1 when there is none. */
  function PreviousCloser(ts: seq<TaggedPoint>, k: int): (c: int)
    requires 0 <= k <= |ts|
    ensures -1 <= c < k
    ensures c >= 0 ==> ClosesGap(ts, c)
    ensures forall j :: c < j < k ==> !ClosesGap(ts, j)
    decreases k
  {
    if k == 0 then -1
    else if ClosesGap(ts, k - 1) then k - 1
    else PreviousCloser(ts, k - 1)
  }

  /** The first gap-closing vertex at or after index `k`, or `|ts|` when there
      is none. */
  function NextCloser(ts: seq<TaggedPoint>, k: int): (c: int)
    requires 0 <= k <= |ts|
    ensures k <= c <= |ts|
    ensures c < |ts| ==> ClosesGap(ts, c)
    ensures forall j :: k <= j < c ==> !ClosesGap(ts, j)
    decreases |ts| - k
  {
    if k == |ts| then |ts|
    else if ClosesGap(ts, k) then k
    else NextCloser(ts, k + 1)
  }

  /** Where the arc of the gap around index `k` starts: the preceding closing
      vertex (the gap's anchor), or index 0 when the gap touches the start. */
  function GapStart(ts: seq<TaggedPoint>, k: int): (s: int)
    requires 0 <= k <= |ts|
    ensures 0 <= s <= k
    ensures s > 0 ==> s < k && ClosesGap(ts, s) && forall j :: s < j < k ==> !ClosesGap(ts, j)
    ensures s == 0 ==> forall j :: 0 < j < k ==> !ClosesGap(ts, j)
  {
    var c := PreviousCloser(ts, k);
    if c < 0 then 0 else c
  }

  /** Whether vertex `k` is kept once gaps are removed: it was kept, or it lies
      in a gap that some vertex closes and whose arc, from `GapStart` through
      the closing vertex, is shorter than `minGapLength`. */
  predicate KeptAfterGapRemoval(sqrt: real -> real, ts: seq<TaggedPoint>, minGapLength: real, k: int)
    requires IsSqrt(sqrt)
    requires 0 <= k < |ts|
  {
    || ts[k].shouldBeKept
    || (NextCloser(ts, k) < |ts|
        && PolylineLength(sqrt, PointsOf(ts)[GapStart(ts, k)..NextCloser(ts, k) + 1]) < minGapLength)
  }

  /** The mask gap removal produces: the same vertices, each flagged by
      `KeptAfterGapRemoval`. A solver helper: its ensures only unfold it. */
  function GapsRemoved(sqrt: real -> real, ts: seq<TaggedPoint>, minGapLength: real): (r: seq<TaggedPoint>)
    requires IsSqrt(sqrt)
    ensures SamePoints(ts, r)
    ensures forall k :: 0 <= k < |ts| ==> r[k].shouldBeKept == KeptAfterGapRemoval(sqrt, ts, minGapLength, k)
  {
    seq(|ts|, k requires 0 <= k < |ts| => TaggedPoint(ts[k].point, KeptAfterGapRemoval(sqrt, ts, minGapLength, k)))
  }

  /** Two indices with no closing vertex between them look back to the same
      closing vertex. */
  lemma SamePreviousCloser(ts: seq<TaggedPoint>, k: int, m: int)
    requires 0 <= k <= m <= |ts|
    requires forall j :: k <= j < m ==> !ClosesGap(ts, j)
    ensures PreviousCloser(ts, k) == PreviousCloser(ts, m)
  {
  }

  /** The closing vertex of a gap is the next closer of every index in it. */
  lemma NextCloserIs(ts: seq<TaggedPoint>, k: int, c: int)
    requires 0 <= k <= c < |ts|
    requires ClosesGap(ts, c)
    requires forall j :: k <= j < c ==> !ClosesGap(ts, j)
    ensures NextCloser(ts, k) == c
  {
  }

  /** `remove_gaps_from_tagged_form_line_polyline`, step for step. The source
      collects the indices of the current gap in a list; that list is always
      the contiguous range `gapStart .. index - 1`, so it is kept here as its
      first index and a flag saying whether it is non-empty. The lonely test
      reads the flags as they are being rewritten, as the source does. */
  method RemoveGaps(sqrt: real -> real, ts: seq<TaggedPoint>, minGapLength: real)
    returns (r: seq<TaggedPoint>)
    requires IsSqrt(sqrt)
    ensures SamePoints(ts, r)
    ensures NeverClears(ts, r)
    ensures forall k :: 0 <= k < |ts| ==>
              r[k].shouldBeKept == KeptAfterGapRemoval(sqrt, ts, minGapLength, k)
  {
    r := ts;
    var gapOpen := false;
    var gapStart := 0;
    var index := 0;
    while index < |r|
      invariant |r| == |ts|
      invariant RemovalInvariant(sqrt, ts, minGapLength, r, gapOpen, gapStart, index)
    {
      var lonely := IsLonely(r, index);
      if !r[index].shouldBeKept || lonely {
        GapOpenStep(sqrt, ts, minGapLength, r, gapOpen, gapStart, index);
        if index != 0 && !gapOpen {
          gapStart := index - 1;
        } else if !gapOpen {
          gapStart := index;
        }
        gapOpen := true;
        index := index + 1;
        continue;
      }
      if !gapOpen {
        gapStart := index;
      }
      ghost var before := r;
      r := CloseGap(sqrt, r, gapStart, index, minGapLength);
      GapCloseStep(sqrt, ts, minGapLength, before, r, gapStart, index);
      gapOpen := false;
      index := index + 1;
    }
    forall k | 0 <= k < |ts|
      ensures r[k].shouldBeKept == KeptAfterGapRemoval(sqrt, ts, minGapLength, k)
    {
      if gapOpen && gapStart <= k && !ts[k].shouldBeKept {
        TrailingIndicesUnchanged(sqrt, ts, minGapLength, k);
      }
    }
  }

  /** The first index whose flag `RemoveGaps` may still rewrite. */
  function Settled(gapOpen: bool, gapStart: int, index: int): int {
    if gapOpen then gapStart else index
  }

  /** The state of `RemoveGaps` before it looks at `index`: the open gap, if
      any, started at `GapStart(ts, index)`; every flag below `Settled` is
      final and nothing from it on has been rewritten. */
  ghost predicate RemovalInvariant(sqrt: real -> real, ts: seq<TaggedPoint>, minGapLength: real,
                                   r: seq<TaggedPoint>, gapOpen: bool, gapStart: int, index: int)
    requires IsSqrt(sqrt)
  {
    && 0 <= index <= |ts|
    && SamePoints(ts, r)
    && (if gapOpen then GapOpenAt(ts, gapStart, index) else GapClosedAt(ts, index))
    && FlagsSettled(sqrt, ts, minGapLength, r, Settled(gapOpen, gapStart, index))
  }

  /** No gap is open before `index`: it is the start or follows a closing vertex. */
  predicate GapClosedAt(ts: seq<TaggedPoint>, index: int)
    requires 0 <= index <= |ts|
  {
    index == 0 || ClosesGap(ts, index - 1)
  }

  /** A gap is open before `index`, and its arc starts at `gapStart`. */
  predicate GapOpenAt(ts: seq<TaggedPoint>, gapStart: int, index: int)
    requires 0 <= index <= |ts|
  {
    0 < index && !ClosesGap(ts, index - 1) && gapStart == GapStart(ts, index)
  }

  /** Flags below `settled` are final; from `settled` on they are untouched. */
  ghost predicate FlagsSettled(sqrt: real -> real, ts: seq<TaggedPoint>, minGapLength: real,
                               r: seq<TaggedPoint>, settled: int)
    requires IsSqrt(sqrt)
    requires |r| == |ts|
  {
    && (forall k :: 0 <= k < settled && k < |ts| ==>
          r[k].shouldBeKept == KeptAfterGapRemoval(sqrt, ts, minGapLength, k))
    && (forall k :: 0 <= k && settled <= k < |ts| ==> r[k] == ts[k])
  }

  /** A discarded or lonely vertex opens the gap or extends it. */
  lemma GapOpenStep(sqrt: real -> real, ts: seq<TaggedPoint>, minGapLength: real,
                 r: seq<TaggedPoint>, gapOpen: bool, gapStart: int, index: int)
    requires IsSqrt(sqrt)
    requires RemovalInvariant(sqrt, ts, minGapLength, r, gapOpen, gapStart, index)
    requires index < |ts|
    requires !r[index].shouldBeKept || IsLonely(r, index)
    ensures RemovalInvariant(sqrt, ts, minGapLength, r, true,
                             if gapOpen then gapStart else if index != 0 then index - 1 else index,
                             index + 1)
  {
    if index > 0 && !gapOpen {
      assert r[index - 1].shouldBeKept == ts[index - 1].shouldBeKept;
    }
    assert IsLonely(r, index) == IsLonely(ts, index);
  }

  /** A kept vertex that is not lonely closes the gap; afterwards every flag
      up to it is final. */
  lemma GapCloseStep(sqrt: real -> real, ts: seq<TaggedPoint>, minGapLength: real,
                  before: seq<TaggedPoint>, after: seq<TaggedPoint>, s: int, index: int)
    requires IsSqrt(sqrt)
    requires 0 <= s <= index < |ts| == |before|
    requires before[index].shouldBeKept && !IsLonely(before, index)
    requires RemovalInvariant(sqrt, ts, minGapLength, before, s < index, s, index)
    requires s == index || s == GapStart(ts, index)
    requires SamePoints(before, after)
    requires forall k :: 0 <= k < |ts| && !(s <= k <= index) ==> after[k] == before[k]
    requires forall k :: s <= k <= index ==>
               after[k].shouldBeKept
               == (before[k].shouldBeKept || PolylineLength(sqrt, PointsOf(before)[s..index + 1]) < minGapLength)
    ensures RemovalInvariant(sqrt, ts, minGapLength, after, false, s, index + 1)
  {
    SamePointsOf(ts, before);
    assert IsLonely(before, index) == IsLonely(ts, index);
    forall k | s <= k <= index
      ensures KeptAfterGapRemoval(sqrt, ts, minGapLength, k)
              == (ts[k].shouldBeKept || PolylineLength(sqrt, PointsOf(ts)[s..index + 1]) < minGapLength)
    {
      GapMember(sqrt, ts, minGapLength, s, index, k);
    }
  }

  /** Indices after the last closing vertex keep their flags: the gap they
      lie in is never closed, so it is never measured. */
  lemma TrailingIndicesUnchanged(sqrt: real -> real, ts: seq<TaggedPoint>, minGapLength: real, k: int)
    requires IsSqrt(sqrt)
    requires 0 <= k < |ts|
    requires forall j :: k <= j < |ts| ==> !ClosesGap(ts, j)
    ensures KeptAfterGapRemoval(sqrt, ts, minGapLength, k) == ts[k].shouldBeKept
  {
    assert NextCloser(ts, k) == |ts|;
  }

  /** The closing step of the pass: the arc through the gap indices
      `s ..= c` is measured and, when shorter than `minGapLength`, every one
      of those indices is set to kept. */
  method CloseGap(sqrt: real -> real, ts: seq<TaggedPoint>, s: int, c: int, minGapLength: real)
    returns (r: seq<TaggedPoint>)
    requires IsSqrt(sqrt)
    requires 0 <= s <= c < |ts|
    ensures SamePoints(ts, r)
    ensures forall k :: 0 <= k < |ts| && !(s <= k <= c) ==> r[k] == ts[k]
    ensures forall k :: s <= k <= c ==>
              r[k].shouldBeKept
              == (ts[k].shouldBeKept || PolylineLength(sqrt, PointsOf(ts)[s..c + 1]) < minGapLength)
  {
    r := ts;
    var gap := PointsOf(ts)[s..c + 1];
    if PolylineLength(sqrt, gap) < minGapLength {
      var j := s;
      while j < c + 1
        invariant s <= j <= c + 1
        invariant SamePoints(ts, r)
        invariant forall k :: 0 <= k < |ts| && !(s <= k < j) ==> r[k] == ts[k]
        invariant forall k :: s <= k < j ==> r[k].shouldBeKept
      {
        r := r[j := Kept(r[j])];
        j := j + 1;
      }
    }
  }

  /** What the closing step of `RemoveGaps` relies on: an index `k` of the gap
      ending at the closing vertex `c` is judged by the arc from `s` to `c`. */
  lemma GapMember(sqrt: real -> real, ts: seq<TaggedPoint>, minGapLength: real, s: int, c: int, k: int)
    requires IsSqrt(sqrt)
    requires 0 <= s <= k <= c < |ts|
    requires ClosesGap(ts, c)
    requires s == c || s == GapStart(ts, c)
    requires forall j :: s < j < c ==> !ClosesGap(ts, j)
    ensures KeptAfterGapRemoval(sqrt, ts, minGapLength, k)
            == (ts[k].shouldBeKept || PolylineLength(sqrt, PointsOf(ts)[s..c + 1]) < minGapLength)
  {
    if !ts[k].shouldBeKept {
      NextCloserIs(ts, k, c);
      SamePreviousCloser(ts, k, c);
    }
  }

  /** With `min_gap_length <= 0` no arc is short enough: the pass changes
      nothing. */
  lemma NonPositiveMinGapIsIdentity(sqrt: real -> real, ts: seq<TaggedPoint>, minGapLength: real, k: int)
    requires IsSqrt(sqrt)
    requires 0 <= k < |ts|
    requires minGapLength <= 0.0
    ensures KeptAfterGapRemoval(sqrt, ts, minGapLength, k) == ts[k].shouldBeKept
  {
  }

  /** A gap whose arc, from its anchor (or index 0) through its closing vertex
      `c`, is shorter than `minGapLength` is kept entirely; a longer one is
      left as it was. */
  lemma GapFilledIffShort(sqrt: real -> real, ts: seq<TaggedPoint>, minGapLength: real, c: int, k: int)
    requires IsSqrt(sqrt)
    requires 0 <= c < |ts| && ClosesGap(ts, c)
    requires GapStart(ts, c) <= k <= c
    ensures PolylineLength(sqrt, PointsOf(ts)[GapStart(ts, c)..c + 1]) < minGapLength ==>
              KeptAfterGapRemoval(sqrt, ts, minGapLength, k)
    ensures PolylineLength(sqrt, PointsOf(ts)[GapStart(ts, c)..c + 1]) >= minGapLength ==>
              KeptAfterGapRemoval(sqrt, ts, minGapLength, k) == ts[k].shouldBeKept
  {
    GapMember(sqrt, ts, minGapLength, GapStart(ts, c), c, k);
  }

  /** A lonely vertex does not split its gap: its two discarded neighbours are
      closed by the same vertex and measured along the same arc, so they are
      both kept or both left discarded. */
  lemma LonelyVertexJoinsGap(sqrt: real -> real, ts: seq<TaggedPoint>, minGapLength: real, k: int)
    requires IsSqrt(sqrt)
    requires 0 <= k < |ts| && IsLonely(ts, k)
    ensures !ClosesGap(ts, k)
    ensures NextCloser(ts, k - 1) == NextCloser(ts, k + 1)
    ensures GapStart(ts, k - 1) == GapStart(ts, k + 1)
    ensures KeptAfterGapRemoval(sqrt, ts, minGapLength, k - 1)
            == KeptAfterGapRemoval(sqrt, ts, minGapLength, k + 1)
  {
    assert !ClosesGap(ts, k - 1) && !ClosesGap(ts, k);
    SamePreviousCloser(ts, k - 1, k + 1);
  }

  /** A larger `min_gap_length` keeps at least as many vertices. */
  lemma GapRemovalMonotone(sqrt: real -> real, ts: seq<TaggedPoint>, m1: real, m2: real, k: int)
    requires IsSqrt(sqrt)
    requires 0 <= k < |ts|
    requires m1 <= m2
    ensures KeptAfterGapRemoval(sqrt, ts, m1, k) ==> KeptAfterGapRemoval(sqrt, ts, m2, k)
  {
  }
}
