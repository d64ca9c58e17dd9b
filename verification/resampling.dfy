/**
 Resampling of a trace: every segment longer than the maximum spacing is cut
 into the fewest equal sub-segments that are each short enough, and the
 interior cut points are inserted as linearly interpolated waypoints.

 `Resample` is the reference definition. It is an emission pass
 (`Emission.Emit`) whose piece for each pair of consecutive waypoints is
 `Segment`, so the output grows by one `Segment` per input waypoint in input
 order. The lemmas below state
 what the result is: it keeps every input waypoint in order, inserts exactly
 the interpolated waypoints, keeps every gap within the spacing, and is left
 unchanged by a second pass.
 */
module Resampling {
  import opened RealArith
  import opened TraceNodes
  import opened SegmentCount
  import opened Emission

  /** The segment from `a` to `b` is no longer than `m` and is kept whole.
      For `m > 0` this is `distance <= max_distance` (`SegmentCount.CeilingOfRatio`).
      Two waypoints at the same position are always a short segment. */
  predicate Short(a: TraceNode, b: TraceNode, m: real): (r: bool)
    ensures SamePosition(a, b) ==> r
  {
    SquareSign(m);
    SqDist(a, b) <= m * m
  }

  /** How many output waypoints the segment from `a` to `b` contributes (its end
      waypoint included): the number of equal sub-segments it is cut into. */
  function Count(a: TraceNode, b: TraceNode, m: real): (n: nat)
    requires m > 0.0
    ensures n >= 1
    ensures n == 1 <==> Short(a, b, m)
  {
    if Short(a, b, m) then 1 else Segments(SqDist(a, b), m)
  }

  /** Cut into `Count` equal parts, the segment's parts are each within `m`;
      no fewer parts would do. */
  lemma CountCovers(a: TraceNode, b: TraceNode, m: real)
    requires m > 0.0
    ensures Covers(Count(a, b, m), SqDist(a, b), m)
    ensures forall k: nat :: 1 <= k < Count(a, b, m) ==> !Covers(k, SqDist(a, b), m)
  {
  }

  /** The interpolated waypoints at fractions `j/n, (j+1)/n, ..., (n-1)/n`. */
  function Interior(a: TraceNode, b: TraceNode, n: nat, j: nat): (r: seq<TraceNode>)
    requires 1 <= j <= n
    ensures |r| == n - j
    decreases n - j
  {
    if j == n then [] else [Lerp(a, b, j as real / n as real)] + Interior(a, b, n, j + 1)
  }

  lemma {:induction false} InteriorNodes(a: TraceNode, b: TraceNode, n: nat, j: nat)
    requires 1 <= j <= n
    ensures forall i :: 0 <= i < n - j ==> Interior(a, b, n, j)[i] == Lerp(a, b, (j + i) as real / n as real)
    decreases n - j
  {
    if j < n {
      InteriorNodes(a, b, n, j + 1);
      var r := Interior(a, b, n, j);
      assert r == [Lerp(a, b, j as real / n as real)] + Interior(a, b, n, j + 1);
      forall i | 0 <= i < n - j
        ensures r[i] == Lerp(a, b, (j + i) as real / n as real)
      {
        if i > 0 {
          assert r[i] == Interior(a, b, n, j + 1)[i - 1];
          assert (j + 1) + (i - 1) == j + i;
        }
      }
    }
  }

  /** What the segment from `a` to `b` appends to the output: nothing but `b`
      when it is short; otherwise the `n - 1` interpolated waypoints, then `b`. */
  function Segment(a: TraceNode, b: TraceNode, m: real): (r: seq<TraceNode>)
    requires m > 0.0
    ensures |r| == Count(a, b, m)
    ensures r[|r| - 1] == b
  {
    if Short(a, b, m) then
      [b]
    else
      Interior(a, b, Segments(SqDist(a, b), m), 1) + [b]
  }

  /** The interior waypoints of a segment cut into `n` parts, then its end,
      are the waypoints at fractions `1/n, ..., n/n`. */
  lemma CutPoints(a: TraceNode, b: TraceNode, n: nat)
    requires n >= 1
    ensures var r := Interior(a, b, n, 1) + [b];
      forall j :: 0 <= j < n ==> r[j] == Lerp(a, b, (j + 1) as real / n as real)
  {
    var r := Interior(a, b, n, 1) + [b];
    InteriorNodes(a, b, n, 1);
    assert Lerp(a, b, n as real / n as real) == b;
    forall j | 0 <= j < n
      ensures r[j] == Lerp(a, b, (j + 1) as real / n as real)
    {
      if j < n - 1 {
        assert r[j] == Interior(a, b, n, 1)[j];
      }
    }
  }

  /** The waypoints a segment appends are those at fractions `1/n, 2/n, ...,
      n/n` of the way from `a` to `b`, in increasing order, where `n` is the
      segment's `Count`: each of the four fields interpolated on its own. */
  lemma SegmentInterpolates(a: TraceNode, b: TraceNode, m: real)
    requires m > 0.0
    ensures var r := Segment(a, b, m);
      forall j :: 0 <= j < |r| ==> r[j] == Lerp(a, b, (j + 1) as real / |r| as real)
  {
    if Short(a, b, m) {
      assert Lerp(a, b, 1 as real / 1 as real) == b;
    } else {
      var n := Segments(SqDist(a, b), m);
      assert Segment(a, b, m) == Interior(a, b, n, 1) + [b];
      CutPoints(a, b, n);
    }
  }

  /** The two cases of `Segment`, one per branch of the loop body of `interpolate_trace_nodes`. */
  lemma SegmentCases(a: TraceNode, b: TraceNode, m: real)
    requires m > 0.0
    ensures Short(a, b, m) ==> Segment(a, b, m) == [b]
    ensures !Short(a, b, m) ==> Segment(a, b, m) == Interior(a, b, Segments(SqDist(a, b), m), 1) + [b]
  {
  }

  /** The segment rule as the piece an emission pass appends for each pair
      of consecutive waypoints. */
  function SegmentPiece(m: real): (piece: (TraceNode, TraceNode) -> seq<TraceNode>)
    requires m > 0.0
    ensures EndsAtTarget(piece)
    ensures forall a, b :: piece(a, b) == Segment(a, b, m)
  {
    (a, b) => Segment(a, b, m)
  }

  /** The densified trace: a trace of fewer than two waypoints is returned as
      it is; otherwise the first waypoint followed by what every segment
      appends, segment by segment in input order. */
  function Resample(nodes: seq<TraceNode>, m: real): (r: seq<TraceNode>)
    requires m > 0.0
    ensures |nodes| < 2 ==> r == nodes
    ensures |nodes| >= 1 ==> |r| >= |nodes| && r[0] == nodes[0] && r[|r| - 1] == nodes[|nodes| - 1]
  {
    if |nodes| < 2 then
      nodes
    else
      EmitEnds(nodes, SegmentPiece(m), |nodes|);
      Emit(nodes, SegmentPiece(m), |nodes|)
  }

  /** Where input waypoint `k` lands in the output: the output holds it,
      unchanged, at that index. The first lands first and the last lands last. */
  function Position(nodes: seq<TraceNode>, m: real, k: nat): (q: nat)
    requires m > 0.0 && k < |nodes|
    ensures q < |Resample(nodes, m)| && Resample(nodes, m)[q] == nodes[k]
    ensures k == 0 ==> q == 0
    ensures k == |nodes| - 1 ==> q == |Resample(nodes, m)| - 1
  {
    var piece := SegmentPiece(m);
    EmitEnds(nodes, piece, k + 1);
    EmitPrefix(nodes, piece, k + 1, |nodes|);
    |Emit(nodes, piece, k + 1)| - 1
  }

  /** Between the positions of input waypoints `k - 1` and `k` the output holds
      exactly what segment `k` appends, so consecutive input waypoints land
      `Count` apart and in their original order. With the first position `0`
      and the last the last index, the output length is one plus the sum of
      the segments' counts. */
  lemma SegmentBetween(nodes: seq<TraceNode>, m: real, k: nat)
    requires m > 0.0 && 1 <= k < |nodes|
    ensures Position(nodes, m, k) == Position(nodes, m, k - 1) + Count(nodes[k - 1], nodes[k], m)
    ensures Resample(nodes, m)[Position(nodes, m, k - 1) + 1 .. Position(nodes, m, k) + 1]
         == Segment(nodes[k - 1], nodes[k], m)
  {
    var piece := SegmentPiece(m);
    EmitSlice(nodes, piece, k);
    assert Position(nodes, m, k - 1) + 1 == |Emit(nodes, piece, k)|;
    assert Position(nodes, m, k) + 1 == |Emit(nodes, piece, k + 1)|;
    assert piece(nodes[k - 1], nodes[k]) == Segment(nodes[k - 1], nodes[k], m);
  }

  /** Input waypoints land in the output in their input order. */
  lemma PositionsIncrease(nodes: seq<TraceNode>, m: real, k: nat, l: nat)
    requires m > 0.0 && k < l < |nodes|
    ensures Position(nodes, m, k) < Position(nodes, m, l)
  {
    EmitGrows(nodes, SegmentPiece(m), k + 1, l + 1);
  }

  /** The waypoints inserted between input waypoints `k - 1` and `k` are, in
      order, the interpolations at `1/n, ..., (n-1)/n` of the way from one to
      the other, where `n` is the segment's `Count`; the `n`-th is `nodes[k]`. */
  lemma InsertedNodes(nodes: seq<TraceNode>, m: real, k: nat, j: nat)
    requires m > 0.0 && 1 <= k < |nodes| && j < Count(nodes[k - 1], nodes[k], m)
    ensures Position(nodes, m, k - 1) + 1 + j < |Resample(nodes, m)|
    ensures Resample(nodes, m)[Position(nodes, m, k - 1) + 1 + j]
         == Lerp(nodes[k - 1], nodes[k], (j + 1) as real / Count(nodes[k - 1], nodes[k], m) as real)
  {
    EmitPieceAt(nodes, SegmentPiece(m), k, j);
    SegmentInterpolates(nodes[k - 1], nodes[k], m);
  }

  /** The sum of the counts of the first `k - 1` segments. */
  function CountSum(nodes: seq<TraceNode>, m: real, k: nat): (total: nat)
    requires m > 0.0 && 1 <= k <= |nodes|
    ensures total >= k - 1
  {
    if k == 1 then 0 else CountSum(nodes, m, k - 1) + Count(nodes[k - 2], nodes[k - 1], m)
  }

  lemma {:induction false} EmitLength(nodes: seq<TraceNode>, m: real, k: nat)
    requires m > 0.0 && 1 <= k <= |nodes|
    ensures |Emit(nodes, SegmentPiece(m), k)| == 1 + CountSum(nodes, m, k)
    decreases k
  {
    if k > 1 {
      EmitLength(nodes, m, k - 1);
      EmitStep(nodes, SegmentPiece(m), k - 1);
    }
  }

  /** The output is one waypoint longer than the sum of the segments' counts. */
  lemma ResampleLength(nodes: seq<TraceNode>, m: real)
    requires m > 0.0 && |nodes| >= 1
    ensures |Resample(nodes, m)| == 1 + CountSum(nodes, m, |nodes|)
  {
    EmitLength(nodes, m, |nodes|);
  }

  /** Every gap between consecutive waypoints of `t` is within `m`. */
  predicate Spaced(t: seq<TraceNode>, m: real) {
    forall i :: 0 <= i < |t| - 1 ==> Short(t[i], t[i + 1], m)
  }

  /** The gap between the waypoints at fractions `i/n` and `(i+1)/n` of a
      segment covered by `n` parts is within `m`. */
  lemma SubSegmentShort(a: TraceNode, b: TraceNode, m: real, n: nat, i: nat)
    requires m > 0.0 && n >= 1
    requires Covers(n, SqDist(a, b), m)
    ensures Short(Lerp(a, b, i as real / n as real), Lerp(a, b, (i + 1) as real / n as real), m)
  {
    FractionStep(i, n);
    LerpGap(a, b, i as real / n as real, 1.0 / n as real);
    PartBound(n, SqDist(a, b), m);
  }

  /** A segment's start followed by what it appends is spaced within `m`. */
  lemma SegmentSpaced(a: TraceNode, b: TraceNode, m: real)
    requires m > 0.0
    ensures Spaced([a] + Segment(a, b, m), m)
  {
    var seg := Segment(a, b, m);
    var t := [a] + seg;
    var n := |seg|;
    SegmentInterpolates(a, b, m);
    CountCovers(a, b, m);
    forall i | 0 <= i < |t| - 1
      ensures Short(t[i], t[i + 1], m)
    {
      assert t[i + 1] == Lerp(a, b, (i + 1) as real / n as real);
      if i == 0 {
        assert Lerp(a, b, 0 as real / n as real) == a;
      } else {
        assert t[i] == Lerp(a, b, i as real / n as real);
      }
      SubSegmentShort(a, b, m, n, i);
    }
  }

  /** Spacing is kept when a spaced sequence is extended by a spaced tail
      starting from its last waypoint. */
  lemma SpacedJoin(u: seq<TraceNode>, w: seq<TraceNode>, m: real)
    requires |u| >= 1
    requires Spaced(u, m) && Spaced([u[|u| - 1]] + w, m)
    ensures Spaced(u + w, m)
  {
    var t := u + w;
    var tail := [u[|u| - 1]] + w;
    forall i | 0 <= i < |t| - 1
      ensures Short(t[i], t[i + 1], m)
    {
      if i >= |u| - 1 {
        assert t[i] == tail[i - |u| + 1] && t[i + 1] == tail[i - |u| + 2];
      }
    }
  }

  lemma {:induction false} EmittedSpaced(nodes: seq<TraceNode>, m: real, k: nat)
    requires m > 0.0 && 1 <= k <= |nodes|
    ensures Spaced(Emit(nodes, SegmentPiece(m), k), m)
    decreases k
  {
    if k > 1 {
      var piece := SegmentPiece(m);
      EmittedSpaced(nodes, m, k - 1);
      EmitEnds(nodes, piece, k - 1);
      EmitStep(nodes, piece, k - 1);
      SegmentSpaced(nodes[k - 2], nodes[k - 1], m);
      SpacedJoin(Emit(nodes, piece, k - 1), Segment(nodes[k - 2], nodes[k - 1], m), m);
    }
  }

  /** The spacing promise: no two consecutive output waypoints are farther
      apart than `m`. */
  lemma ResampleSpaced(nodes: seq<TraceNode>, m: real)
    requires m > 0.0
    ensures Spaced(Resample(nodes, m), m)
  {
    if |nodes| >= 2 {
      EmittedSpaced(nodes, m, |nodes|);
    }
  }

  /** On a spaced trace every segment appends only its end waypoint, so what
      is emitted is the input itself. */
  lemma {:induction false} SpacedEmitsInput(t: seq<TraceNode>, m: real, k: nat)
    requires m > 0.0 && Spaced(t, m) && 1 <= k <= |t|
    ensures Emit(t, SegmentPiece(m), k) == t[..k]
    decreases k
  {
    if k > 1 {
      SpacedEmitsInput(t, m, k - 1);
      EmitStep(t, SegmentPiece(m), k - 1);
      assert Short(t[k - 2], t[k - 1], m);
      assert t[..k - 1] + [t[k - 1]] == t[..k];
    }
  }

  /** A trace whose gaps are all within `m` is left unchanged. */
  lemma SpacedIsFixpoint(t: seq<TraceNode>, m: real)
    requires m > 0.0 && Spaced(t, m)
    ensures Resample(t, m) == t
  {
    if |t| >= 2 {
      SpacedEmitsInput(t, m, |t|);
      assert t[..|t|] == t;
    }
  }

  /** Once a gap wider than `m` has been consumed, more has been emitted than
      consumed. */
  lemma {:induction false} LongGapGrows(t: seq<TraceNode>, m: real, i: nat, k: nat)
    requires m > 0.0 && i + 2 <= k <= |t|
    requires !Short(t[i], t[i + 1], m)
    ensures |Emit(t, SegmentPiece(m), k)| > k
    decreases k
  {
    var piece := SegmentPiece(m);
    EmitStep(t, piece, k - 1);
    if k > i + 2 {
      LongGapGrows(t, m, i, k - 1);
    } else {
      EmitEnds(t, piece, k - 1);
    }
  }

  /** Resampling leaves a trace unchanged exactly when all its gaps are
      already within `m`. */
  lemma ResampleFixpointIff(t: seq<TraceNode>, m: real)
    requires m > 0.0
    ensures Resample(t, m) == t <==> Spaced(t, m)
  {
    if Spaced(t, m) {
      SpacedIsFixpoint(t, m);
    } else {
      var i :| 0 <= i < |t| - 1 && !Short(t[i], t[i + 1], m);
      LongGapGrows(t, m, i, |t|);
    }
  }

  /** Resampling twice with the same spacing is resampling once. */
  lemma ResampleIdempotent(nodes: seq<TraceNode>, m: real)
    requires m > 0.0
    ensures Resample(Resample(nodes, m), m) == Resample(nodes, m)
  {
    ResampleSpaced(nodes, m);
    SpacedIsFixpoint(Resample(nodes, m), m);
  }
}
