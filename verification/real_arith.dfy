/**
 Small facts of ordered-field arithmetic over `real` that the geometry of the
 resampler rests on. Each is stated over parameters, so that a caller can
 instantiate it with the exact products that appear in its own goal.
 */
module RealArith {

  lemma MulPositive(u: real, w: real)
    requires u > 0.0 && w > 0.0
    ensures u * w > 0.0
  {
  }

  lemma MulNonneg(u: real, w: real)
    requires u >= 0.0 && w >= 0.0
    ensures u * w >= 0.0
  {
  }

  /** Multiplying both sides of `a <= b` by a non-negative `c` keeps the order. */
  lemma MulMonoLeft(c: real, a: real, b: real)
    requires c >= 0.0 && a <= b
    ensures c * a <= c * b
  {
    MulNonneg(c, b - a);
    assert c * (b - a) == c * b - c * a;
  }

  /** Multiplying both sides of `a < b` by a positive `c` keeps the strict order. */
  lemma MulStrictLeft(c: real, a: real, b: real)
    requires c > 0.0 && a < b
    ensures c * a < c * b
  {
    MulPositive(c, b - a);
    assert c * (b - a) == c * b - c * a;
  }

  /** A square is never negative, and is zero only at zero. */
  lemma SquareSign(v: real)
    ensures v * v >= 0.0
    ensures v != 0.0 ==> v * v > 0.0
    ensures v == 0.0 ==> v * v == 0.0
  {
    if v < 0.0 {
      MulPositive(-v, -v);
      assert v * v == (-v) * (-v);
    } else if v > 0.0 {
      MulPositive(v, v);
    } else {
      assert v * v == 0.0 * 0.0;
    }
  }

  /** The sum of two squares is zero exactly when both are zero. */
  lemma SumOfSquaresZero(u: real, w: real)
    ensures u * u + w * w >= 0.0
    ensures u == 0.0 && w == 0.0 ==> u * u + w * w == 0.0
    ensures u != 0.0 || w != 0.0 ==> u * u + w * w > 0.0
  {
    SquareSign(u);
    SquareSign(w);
  }

  /** On non-negative reals, squaring preserves and reflects the order. */
  lemma SquareOrder(u: real, w: real)
    requires u >= 0.0 && w >= 0.0
    ensures u * u <= w * w <==> u <= w
  {
    if u <= w {
      calc {
        u * u;
      <= { MulMonoLeft(u, u, w); }
        u * w;
      ==
        w * u;
      <= { MulMonoLeft(w, u, w); }
        w * w;
      }
    } else {
      calc {
        w * w;
      <= { MulMonoLeft(w, w, u); }
        w * u;
      ==
        u * w;
      < { MulStrictLeft(u, w, u); }
        u * u;
      }
    }
  }

  /** Scaling both legs by `c` scales the sum of their squares by `c^2`. */
  lemma ScaledSumOfSquares(c: real, u: real, w: real)
    ensures (c * u) * (c * u) + (c * w) * (c * w) == c * c * (u * u + w * w)
  {
  }

  lemma UnitSquareScale(r: real, w: real)
    requires r == 1.0
    ensures r * r * w == w
  {
  }

  /** The reciprocal of a positive `n` is positive and undoes `n`. */
  lemma Reciprocal(n: real)
    requires n > 0.0
    ensures 1.0 / n > 0.0 && (1.0 / n) * n == 1.0
  {
  }

  /** With `q` the reciprocal of `n`: if `s` is at most `(n*m)^2`, then
      `q^2 * s` is at most `m^2`. */
  lemma ReciprocalSquareBound(s: real, m: real, n: real, q: real)
    requires q > 0.0 && q * n == 1.0
    requires (n * m) * (n * m) >= s
    ensures q * q * s <= m * m
  {
    MulNonneg(q, q);
    MulMonoLeft(q * q, s, (n * m) * (n * m));
    UnitSquareScale(q * n, m * m);
  }

  /** Consecutive fractions with denominator `n` are `1/n` apart. */
  lemma FractionStep(j: nat, n: nat)
    requires n > 0
    ensures (j + 1) as real / n as real == j as real / n as real + 1.0 / n as real
  {
  }
}
