/**
 The shape of a single left-to-right pass over a trace: the output starts with
 the first waypoint and, for each pair of consecutive waypoints, has appended
 to it whatever `piece` returns for that pair.

 Nothing here depends on what a piece is, so the bookkeeping facts (what has
 been emitted is never changed, where each input waypoint lands) are proved
 once, free of the geometry of `Resampling`.
 */
module Emission {

  /** The output after the first `k` input waypoints have been consumed. */
  function Emit<T>(nodes: seq<T>, piece: (T, T) -> seq<T>, k: nat): (r: seq<T>)
    requires 1 <= k <= |nodes|
    ensures |r| >= 1 && r[0] == nodes[0]
  {
    if k == 1 then
      [nodes[0]]
    else
      Emit(nodes, piece, k - 1) + piece(nodes[k - 2], nodes[k - 1])
  }

  /** Every piece is non-empty and ends with the second waypoint of its pair. */
  ghost predicate EndsAtTarget<T(!new)>(piece: (T, T) -> seq<T>) {
    forall a, b :: |piece(a, b)| >= 1 && piece(a, b)[|piece(a, b)| - 1] == b
  }

  /** When every piece ends at its target, the output after `k` waypoints is
      at least `k` long and ends with waypoint `k - 1`. */
  lemma {:induction false} EmitEnds<T(!new)>(nodes: seq<T>, piece: (T, T) -> seq<T>, k: nat)
    requires EndsAtTarget(piece) && 1 <= k <= |nodes|
    ensures |Emit(nodes, piece, k)| >= k
    ensures Emit(nodes, piece, k)[|Emit(nodes, piece, k)| - 1] == nodes[k - 1]
    decreases k
  {
    if k > 1 {
      EmitEnds(nodes, piece, k - 1);
      var p := piece(nodes[k - 2], nodes[k - 1]);
      assert |p| >= 1 && p[|p| - 1] == nodes[k - 1];
    }
  }

  /** Consuming one more waypoint appends exactly its piece. */
  lemma EmitStep<T>(nodes: seq<T>, piece: (T, T) -> seq<T>, k: nat)
    requires 1 <= k < |nodes|
    ensures Emit(nodes, piece, k + 1) == Emit(nodes, piece, k) + piece(nodes[k - 1], nodes[k])
  {
  }

  /** What has been emitted after `k` waypoints is a prefix of what has been
      emitted after `j >= k`: consuming more never rewrites the output. */
  lemma {:induction false} EmitPrefix<T>(nodes: seq<T>, piece: (T, T) -> seq<T>, k: nat, j: nat)
    requires 1 <= k <= j <= |nodes|
    ensures |Emit(nodes, piece, k)| <= |Emit(nodes, piece, j)|
    ensures forall i :: 0 <= i < |Emit(nodes, piece, k)| ==> Emit(nodes, piece, j)[i] == Emit(nodes, piece, k)[i]
    decreases j
  {
    if k < j {
      EmitPrefix(nodes, piece, k, j - 1);
      EmitStep(nodes, piece, j - 1);
    }
  }

  /** In the final output, the stretch emitted while consuming waypoint `k` is
      exactly the piece for the pair `k - 1`, `k`. */
  lemma EmitSlice<T>(nodes: seq<T>, piece: (T, T) -> seq<T>, k: nat)
    requires 1 <= k < |nodes|
    ensures |Emit(nodes, piece, k + 1)| == |Emit(nodes, piece, k)| + |piece(nodes[k - 1], nodes[k])|
    ensures |Emit(nodes, piece, k + 1)| <= |Emit(nodes, piece, |nodes|)|
    ensures Emit(nodes, piece, |nodes|)[|Emit(nodes, piece, k)| .. |Emit(nodes, piece, k + 1)|]
         == piece(nodes[k - 1], nodes[k])
  {
    var before := Emit(nodes, piece, k);
    var after := Emit(nodes, piece, k + 1);
    var whole := Emit(nodes, piece, |nodes|);
    var p := piece(nodes[k - 1], nodes[k]);
    EmitStep(nodes, piece, k);
    EmitPrefix(nodes, piece, k + 1, |nodes|);
    forall i | 0 <= i < |p|
      ensures whole[|before| + i] == p[i]
    {
      assert whole[|before| + i] == after[|before| + i];
    }
    assert whole[|before| .. |after|] == p;
  }

  /** Element `j` of the piece for the pair `k - 1`, `k` sits in the final
      output right after what was emitted before waypoint `k` was consumed. */
  lemma EmitPieceAt<T>(nodes: seq<T>, piece: (T, T) -> seq<T>, k: nat, j: nat)
    requires 1 <= k < |nodes| && j < |piece(nodes[k - 1], nodes[k])|
    ensures |Emit(nodes, piece, k)| + j < |Emit(nodes, piece, |nodes|)|
    ensures Emit(nodes, piece, |nodes|)[|Emit(nodes, piece, k)| + j] == piece(nodes[k - 1], nodes[k])[j]
  {
    EmitStep(nodes, piece, k);
    EmitPrefix(nodes, piece, k + 1, |nodes|);
  }

  /** When every piece is non-empty, each waypoint consumed makes the output
      strictly longer. */
  lemma {:induction false} EmitGrows<T(!new)>(nodes: seq<T>, piece: (T, T) -> seq<T>, k: nat, l: nat)
    requires EndsAtTarget(piece) && 1 <= k < l <= |nodes|
    ensures |Emit(nodes, piece, k)| < |Emit(nodes, piece, l)|
    decreases l
  {
    EmitStep(nodes, piece, l - 1);
    assert |piece(nodes[l - 2], nodes[l - 1])| >= 1;
    if k < l - 1 {
      EmitGrows(nodes, piece, k, l - 1);
    }
  }
}
