/**
 Concrete traces worked through the reference definition: a long segment cut
 into four parts, a segment exactly as long as the spacing, one just longer,
 and repeated waypoints.
 */
module Scenarios {
  import opened TraceNodes
  import opened SegmentCount
  import opened Emission
  import opened Resampling

  /** A 10 mm move at spacing 3 mm is cut into `ceil(10 / 3) = 4` parts: three
      waypoints are inserted at 2.5 mm steps, feed and time interpolated alike. */
  lemma LongMoveIsQuartered()
    ensures Resample([TraceNode(0.0, 0.0, 100.0, 0.0), TraceNode(10.0, 0.0, 200.0, 10.0)], 3.0)
         == [TraceNode(0.0, 0.0, 100.0, 0.0),
             TraceNode(2.5, 0.0, 125.0, 2.5),
             TraceNode(5.0, 0.0, 150.0, 5.0),
             TraceNode(7.5, 0.0, 175.0, 7.5),
             TraceNode(10.0, 0.0, 200.0, 10.0)]
  {
    var a := TraceNode(0.0, 0.0, 100.0, 0.0);
    var b := TraceNode(10.0, 0.0, 200.0, 10.0);
    assert SqDist(a, b) == 100.0;
    SegmentsIsLeast(100.0, 3.0);
    assert Covers(4, 100.0, 3.0) && !Covers(3, 100.0, 3.0);
    assert Segments(100.0, 3.0) == 4;
    InteriorNodes(a, b, 4, 1);
    assert (1 + 0) as real / 4 as real == 0.25;
    assert (1 + 1) as real / 4 as real == 0.5;
    assert (1 + 2) as real / 4 as real == 0.75;
    assert Interior(a, b, 4, 1) == [Lerp(a, b, 0.25), Lerp(a, b, 0.5), Lerp(a, b, 0.75)];
    assert Segment(a, b, 3.0) == Interior(a, b, 4, 1) + [b];
    EmitStep([a, b], SegmentPiece(3.0), 1);
  }

  /** A move exactly as long as the spacing is kept whole: the comparison is
      inclusive. */
  lemma BoundaryMoveIsKept()
    ensures Resample([TraceNode(0.0, 0.0, 50.0, 0.0), TraceNode(3.0, 4.0, 50.0, 1.0)], 5.0)
         == [TraceNode(0.0, 0.0, 50.0, 0.0), TraceNode(3.0, 4.0, 50.0, 1.0)]
  {
    var a := TraceNode(0.0, 0.0, 50.0, 0.0);
    var b := TraceNode(3.0, 4.0, 50.0, 1.0);
    assert SqDist(a, b) == 25.0;
    EmitStep([a, b], SegmentPiece(5.0), 1);
  }

  /** A move just longer than the spacing gets one midpoint. */
  lemma SlightlyLongMoveIsHalved()
    ensures Resample([TraceNode(0.0, 0.0, 10.0, 0.0), TraceNode(0.0, 4.0, 30.0, 2.0)], 3.0)
         == [TraceNode(0.0, 0.0, 10.0, 0.0), TraceNode(0.0, 2.0, 20.0, 1.0), TraceNode(0.0, 4.0, 30.0, 2.0)]
  {
    var a := TraceNode(0.0, 0.0, 10.0, 0.0);
    var b := TraceNode(0.0, 4.0, 30.0, 2.0);
    assert SqDist(a, b) == 16.0;
    SegmentsIsLeast(16.0, 3.0);
    assert Covers(2, 16.0, 3.0) && !Covers(1, 16.0, 3.0);
    assert Segments(16.0, 3.0) == 2;
    assert Interior(a, b, 2, 2) == [];
    assert Interior(a, b, 2, 1) == [Lerp(a, b, 0.5)];
    assert Segment(a, b, 3.0) == Interior(a, b, 2, 1) + [b];
    EmitStep([a, b], SegmentPiece(3.0), 1);
  }

  /** Two waypoints at the same position (a dwell, or a feed change in
      place), whatever their feed and time, are both kept and nothing is
      inserted between them, whatever the spacing. */
  lemma DwellIsKept(a: TraceNode, b: TraceNode, m: real)
    requires m > 0.0 && SamePosition(a, b)
    ensures Resample([a, b], m) == [a, b]
  {
    var t := [a, b];
    assert Spaced(t, m);
    SpacedIsFixpoint(t, m);
  }
}
