/** The keep/discard mask over the vertices of a form contour
    (`TaggedPoint`), shared by the gap, tail and segment passes. */
module Tagged {
  import opened Geometry

  /** A vertex of the form contour and whether it survives generalisation. */
  datatype TaggedPoint = TaggedPoint(point: Point, shouldBeKept: bool)

  /** The vertices of a tagged polyline, flags dropped. A solver helper: its
      ensures only unfold it. */
  function PointsOf(ts: seq<TaggedPoint>): (ps: seq<Point>)
    ensures |ps| == |ts|
    ensures forall i :: 0 <= i < |ts| ==> ps[i] == ts[i].point
  {
    seq(|ts|, i requires 0 <= i < |ts| => ts[i].point)
  }

  /** The same vertex, now kept. */
  function Kept(t: TaggedPoint): (k: TaggedPoint)
    ensures k.point == t.point && k.shouldBeKept
  {
    TaggedPoint(t.point, true)
  }

  /** Two tagged polylines carry the same vertices in the same order. */
  predicate SamePoints(a: seq<TaggedPoint>, b: seq<TaggedPoint>) {
    |a| == |b| && forall i :: 0 <= i < |a| ==> a[i].point == b[i].point
  }

  /** Every vertex kept in `a` is still kept in `b`. */
  predicate NeverClears(a: seq<TaggedPoint>, b: seq<TaggedPoint>)
    requires |a| == |b|
  {
    forall i :: 0 <= i < |a| && a[i].shouldBeKept ==> b[i].shouldBeKept
  }

  /** Equal vertex lists give equal point sequences. */
  lemma SamePointsOf(a: seq<TaggedPoint>, b: seq<TaggedPoint>)
    requires SamePoints(a, b)
    ensures PointsOf(a) == PointsOf(b)
  {
  }

  /** Two tagged polylines with the same vertices and the same flags are
      equal. */
  lemma MasksAgree(a: seq<TaggedPoint>, b: seq<TaggedPoint>)
    requires SamePoints(a, b)
    requires forall k :: 0 <= k < |a| ==> a[k].shouldBeKept == b[k].shouldBeKept
    ensures a == b
  {
    assert forall k :: 0 <= k < |a| ==> a[k] == b[k];
  }
}
