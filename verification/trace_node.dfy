/**
 The waypoint of a machine tool-path trace and the two pieces of geometry the
 resampler needs: the squared planar distance between two waypoints, and the
 linear interpolation of all four fields between them.

 All fields are `real`, so every interpolation below is exact; floating-point
 rounding of `interpolate_trace_nodes` is not modelled.
 */
module TraceNodes {
  import opened RealArith

  /** A 2D position in millimetres, tagged with a feed rate and a timestamp. */
  datatype TraceNode = TraceNode(x: real, y: real, feed: real, time: real)

  /** The same planar position, whatever the feed and time. */
  predicate SamePosition(a: TraceNode, b: TraceNode) {
    a.x == b.x && a.y == b.y
  }

  /** The square of the Euclidean distance between `a` and `b` in the plane.
      Feed and time play no part in it. */
  function SqDist(a: TraceNode, b: TraceNode): (r: real)
    ensures r >= 0.0
    ensures SamePosition(a, b) ==> r == 0.0
  {
    SumOfSquaresZero(b.x - a.x, b.y - a.y);
    (b.x - a.x) * (b.x - a.x) + (b.y - a.y) * (b.y - a.y)
  }

  /** The waypoint at `fraction` of the way from `a` to `b`: each of the four
      fields is interpolated on its own, as `start + (end - start) * fraction`. */
  function Lerp(a: TraceNode, b: TraceNode, fraction: real): (r: TraceNode)
    ensures fraction == 0.0 ==> r == a
    ensures fraction == 1.0 ==> r == b
    // each field is the convex combination of its two end values
    ensures r.x == (1.0 - fraction) * a.x + fraction * b.x
    ensures r.y == (1.0 - fraction) * a.y + fraction * b.y
    ensures r.feed == (1.0 - fraction) * a.feed + fraction * b.feed
    ensures r.time == (1.0 - fraction) * a.time + fraction * b.time
  {
    TraceNode(
      a.x + (b.x - a.x) * fraction,
      a.y + (b.y - a.y) * fraction,
      a.feed + (b.feed - a.feed) * fraction,
      a.time + (b.time - a.time) * fraction)
  }

  /** Two waypoints interpolated on the same segment, `gap` apart in fraction,
      are `gap^2` times the segment's squared length apart in the plane. */
  lemma LerpGap(a: TraceNode, b: TraceNode, fraction: real, gap: real)
    ensures SqDist(Lerp(a, b, fraction), Lerp(a, b, fraction + gap)) == gap * gap * SqDist(a, b)
  {
    var p := Lerp(a, b, fraction);
    var q := Lerp(a, b, fraction + gap);
    assert q.x - p.x == gap * (b.x - a.x);
    assert q.y - p.y == gap * (b.y - a.y);
    ScaledSumOfSquares(gap, b.x - a.x, b.y - a.y);
  }
}
