/**
 The number of equal sub-segments a long segment is cut into,
 `ceil(distance / max_distance)`, computed without a square root.

 With `s` the squared length of the segment and `m` the maximum spacing,
 `n` sub-segments are short enough exactly when `s <= (n*m)^2`; the count is
 the least positive `n` for which that holds. `CeilingOfRatio` shows this is
 `ceil(d / m)` for any true length `d = sqrt(s) > 0`. (At `d == 0` the count
 is 1 while `ceil(0 / m)` is 0; the resampler only asks for the count of a
 segment longer than `m`.)
 */
module SegmentCount {
  import opened RealArith

  /** Cutting a segment of squared length `s` into `n` equal parts leaves parts
      no longer than `m`. */
  predicate Covers(n: nat, s: real, m: real) {
    (n as real * m) * (n as real * m) >= s
  }

  /** The least positive number of equal sub-segments, each at most `m` long,
      for a segment of squared length `s`. */
  function Segments(s: real, m: real): (n: nat)
    requires m > 0.0
    ensures n >= 1 && Covers(n, s, m)
    ensures forall k: nat :: 1 <= k < n ==> !Covers(k, s, m)
    ensures s > m * m ==> n >= 2
  {
    SegmentsFrom(s, m, 1)
  }

  /** Upward search from `k`, knowing that nothing below `k` covers. It stops
      by `s / m^2`, since any `k` past that ratio covers. */
  function SegmentsFrom(s: real, m: real, k: nat): (n: nat)
    requires m > 0.0 && k >= 1
    requires forall j: nat :: 1 <= j < k ==> !Covers(j, s, m)
    ensures k <= n && Covers(n, s, m)
    ensures forall j: nat :: 1 <= j < n ==> !Covers(j, s, m)
    decreases (s / (m * m)).Floor - k
  {
    if Covers(k, s, m) then k
    else
      UncoveredBelowRatio(k, s, m);
      SegmentsFrom(s, m, k + 1)
  }

  /** A count that does not cover is at most `s / m^2`. */
  lemma UncoveredBelowRatio(k: nat, s: real, m: real)
    requires m > 0.0 && k >= 1
    requires !Covers(k, s, m)
    ensures k <= (s / (m * m)).Floor
  {
    MulPositive(m, m);
    BelowRatio(k as real, m * m, s, s / (m * m));
  }

  lemma BelowRatio(k: real, mm: real, s: real, ratio: real)
    requires k >= 1.0 && mm > 0.0 && ratio * mm == s
    requires (k * k) * mm < s
    ensures k < ratio
  {
    MulMonoLeft(k * mm, 1.0, k);
    assert k * mm <= (k * k) * mm;
    if k >= ratio {
      MulMonoLeft(mm, ratio, k);
      assert false;
    }
  }

  /** Once `n` parts are short enough, so are more parts. */
  lemma CoversUpward(n: nat, k: nat, s: real, m: real)
    requires m > 0.0 && n <= k
    requires Covers(n, s, m)
    ensures Covers(k, s, m)
  {
    MulMonoLeft(m, n as real, k as real);
    MulNonneg(n as real, m);
    SquareOrder(n as real * m, k as real * m);
  }

  /** Each of `n` covering parts has squared length at most `m^2`. */
  lemma PartBound(n: nat, s: real, m: real)
    requires n >= 1 && Covers(n, s, m)
    ensures (1.0 / n as real) * (1.0 / n as real) * s <= m * m
  {
    Reciprocal(n as real);
    ReciprocalSquareBound(s, m, n as real, 1.0 / n as real);
  }

  /** `Segments` splits the positive counts exactly: those below it leave a
      part too long, it and all above it do not. */
  lemma SegmentsIsLeast(s: real, m: real)
    requires m > 0.0
    ensures forall k: nat :: k >= 1 ==> (Covers(k, s, m) <==> k >= Segments(s, m))
  {
    var n := Segments(s, m);
    forall k: nat | k >= n
      ensures Covers(k, s, m)
    {
      CoversUpward(n, k, s, m);
    }
  }

  /** For a segment of true length `d` (so `s == d*d`): the `distance <= max`
      test agrees with `s <= m*m`, and for `d > 0` `Segments` is `ceil(d / m)`,
      the least count with `count * m >= d`. */
  lemma CeilingOfRatio(s: real, m: real, d: real)
    requires m > 0.0 && d >= 0.0 && d * d == s
    ensures d <= m <==> s <= m * m
    ensures Segments(s, m) as real * m >= d
    ensures d > 0.0 ==> (Segments(s, m) - 1) as real * m < d
  {
    SquareOrder(d, m);
    var n := Segments(s, m);
    MulNonneg(n as real, m);
    SquareOrder(d, n as real * m);
    if n >= 2 {
      assert !Covers(n - 1, s, m);
      MulNonneg((n - 1) as real, m);
      SquareOrder(d, (n - 1) as real * m);
    }
  }

  /** `ceil(distance / max_distance)` computed by counting up from one part
      until the parts are short enough; the count it stops at is `Segments`. */
  method CeilSegments(s: real, m: real) returns (n: nat)
    requires m > 0.0
    ensures n >= 1 && Covers(n, s, m)
    ensures forall k: nat :: 1 <= k < n ==> !Covers(k, s, m)
    ensures n == Segments(s, m)
  {
    n := 1;
    while !Covers(n, s, m)
      invariant n >= 1
      invariant forall k: nat :: 1 <= k < n ==> !Covers(k, s, m)
      decreases (s / (m * m)).Floor - n
    {
      UncoveredBelowRatio(n, s, m);
      n := n + 1;
    }
    SegmentsIsLeast(s, m);
  }
}
