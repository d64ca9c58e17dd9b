/**
 The resampling routine `interpolate_trace_nodes` itself, written as it is in
 Python: a loop over consecutive pairs of waypoints and, for a pair farther
 apart than the maximum spacing, an inner loop appending the interpolated
 waypoints one by one. Its result is proved to be `Resampling.Resample`, so
 every property proved of the reference definition holds of it.
 */
module Viz {
  import opened TraceNodes
  import opened SegmentCount
  import opened Emission
  import opened Resampling

  /** Densify `traceNodes` so that consecutive waypoints are at most
      `maxDistance` apart, inserting evenly spread interpolated waypoints. */
  method InterpolateTraceNodes(traceNodes: seq<TraceNode>, maxDistance: real) returns (interpolated: seq<TraceNode>)
    requires maxDistance > 0.0
    ensures interpolated == Resample(traceNodes, maxDistance)
    ensures |traceNodes| < 2 ==> interpolated == traceNodes
    ensures Spaced(interpolated, maxDistance)
    ensures |traceNodes| >= 1 ==>
      |interpolated| >= |traceNodes| &&
      interpolated[0] == traceNodes[0] &&
      interpolated[|interpolated| - 1] == traceNodes[|traceNodes| - 1]
  {
    ResampleSpaced(traceNodes, maxDistance);
    if |traceNodes| < 2 {
      return traceNodes;
    }
    ghost var piece := SegmentPiece(maxDistance);
    interpolated := [traceNodes[0]];
    var i := 1;
    while i < |traceNodes|
      invariant 1 <= i <= |traceNodes|
      invariant interpolated == Emit(traceNodes, piece, i)
    {
      EmitStep(traceNodes, piece, i);
      interpolated := AppendSegment(interpolated, traceNodes[i - 1], traceNodes[i], maxDistance);
      i := i + 1;
    }
  }

  /** One pass of the outer loop: append to `interpolated` what the segment
      from `startNode` to `endNode` contributes. A short segment contributes
      its end only; a long one is cut into `ceil(distance / maxDistance)`
      parts, whose interior cut points are appended in order, then its end. */
  method AppendSegment(interpolated: seq<TraceNode>, startNode: TraceNode, endNode: TraceNode, maxDistance: real)
    returns (extended: seq<TraceNode>)
    requires maxDistance > 0.0
    ensures extended == interpolated + Segment(startNode, endNode, maxDistance)
    ensures |extended| == |interpolated| + Count(startNode, endNode, maxDistance)
    ensures extended[|extended| - 1] == endNode
  {
    var dx := endNode.x - startNode.x;
    var dy := endNode.y - startNode.y;
    var sqDistance := dx * dx + dy * dy;
    assert sqDistance == SqDist(startNode, endNode);
    SegmentCases(startNode, endNode, maxDistance);
    if sqDistance <= maxDistance * maxDistance {
      extended := interpolated + [endNode];
    } else {
      var numSegments := CeilSegments(sqDistance, maxDistance);
      extended := interpolated;
      var j := 1;
      while j < numSegments
        invariant 1 <= j <= numSegments
        invariant interpolated + Interior(startNode, endNode, numSegments, 1)
               == extended + Interior(startNode, endNode, numSegments, j)
      {
        var fraction := j as real / numSegments as real;
        var node := Lerp(startNode, endNode, fraction);
        assert Interior(startNode, endNode, numSegments, j)
            == [node] + Interior(startNode, endNode, numSegments, j + 1);
        extended := extended + [node];
        j := j + 1;
      }
      assert Interior(startNode, endNode, numSegments, j) == [];
      assert extended == interpolated + Interior(startNode, endNode, numSegments, 1);
      extended := extended + [endNode];
    }
  }
}
