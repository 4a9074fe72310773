/** The ranges of all vectors that key generation, signing and verification compute. */
module Ranges {
  import opened Arith
  import opened Reduce
  import opened NttSpec
  import opened NttInverse
  import opened NttProduct
  import opened NttBounds
  import opened PolySpec
  import opened SignAlgebra

  /** What reduce32 accepts. */
  const REDMAX: int := 2143289343

  lemma RedRange(p: Poly)
    requires Bounded(p, REDMAX)
    ensures Bounded(PRed(p), 6283009)
    ensures forall i :: 0 <= i < 256 ==> PRed(p)[i] == Reduce32(p[i])
  {
    forall i | 0 <= i < 256
      ensures -6283009 <= Red(p[i]) <= 6283009 && Red(p[i]) == Reduce32(p[i])
    {
      var t := Reduce32(p[i]);
    }
  }

  lemma Widen(p: seq<int>, b: int, c: int)
    requires Bounded(p, b) && b <= c
    ensures Bounded(p, c)
  {
  }

  lemma CanonicalBounded(p: seq<int>)
    requires Canonical(p)
    ensures Bounded(p, Q - 1)
  {
  }

  lemma SumBound(p: Poly, q: Poly, b: int, c: int)
    requires Bounded(p, b) && Bounded(q, c)
    ensures Bounded(PAdd(p, q), b + c) && Bounded(PSub(p, q), b + c)
  {
  }

  lemma CaddqCanonical(p: Poly)
    requires Bounded(p, Q - 1)
    ensures Canonical(PCaddq(p))
  {
  }

  /** A transform of coefficients up to Q stays below 9 Q. */
  lemma TransformBound(p: Poly)
    requires Bounded(p, Q)
    ensures Bounded(Forward(p), 9 * Q)
  {
    hide Forward;
    ForwardBound(p, Q);
    Widen(Forward(p), Q + 8 * (Q - 1), 9 * Q);
  }

  /** n products accumulate to at most n (Q - 1). */
  lemma {:induction false} AccBound(row: Vec, v: Vec)
    requires 0 < |row| == |v| && AllCanonical(row) && AllBounded(v, 9 * Q)
    ensures Bounded(Acc(row, v), |row| * (Q - 1))
  {
    hide Pointwise, Canonical, Bounded;
    var n := |row| - 1;
    CanonicalBounded(row[n]);
    Widen(row[n], Q - 1, 9 * Q);
    PointwiseBound(row[n], v[n]);
    if n != 0 {
      AccBound(row[..n], v[..n]);
      SumBound(Acc(row[..n], v[..n]), Pointwise(row[n], v[n]), n * (Q - 1), Q - 1);
      assert n * (Q - 1) + (Q - 1) == |row| * (Q - 1);
    }
  }

  lemma VForwardBound(v: Vec)
    requires AllBounded(v, Q)
    ensures AllBounded(VForward(v), 9 * Q)
  {
    hide Bounded, Forward;
    forall i | 0 <= i < |v|
      ensures Bounded(VForward(v)[i], 9 * Q)
    {
      TransformBound(v[i]);
    }
  }

  /** Every value on the way to a row of A * v fits: at most 7 products, a reduction, an inverse transform. */
  lemma RowTimesBound(row: Vec, v: Vec)
    requires 0 < |row| == |v| <= 7 && AllCanonical(row) && AllBounded(v, Q)
    ensures Bounded(Acc(row, VForward(v)), 7 * (Q - 1))
    ensures Bounded(PRed(Acc(row, VForward(v))), Q - 1)
    ensures Bounded(RowTimes(row, v), 4211177)
  {
    hide Bounded, Forward, Inverse, Acc, AllCanonical;
    VForwardBound(v);
    var a := Acc(row, VForward(v));
    AccBound(row, VForward(v));
    assert |row| * (Q - 1) <= 7 * (Q - 1);
    Widen(a, |row| * (Q - 1), 7 * (Q - 1));
    Widen(a, 7 * (Q - 1), REDMAX);
    RedRange(a);
    Widen(PRed(a), 6283009, Q - 1);
    InverseBound(PRed(a));
  }

  /** The product with a challenge stays below 0.503 Q. */
  lemma ChallengeProductBound(c: Poly, s: Poly)
    requires Bounded(c, Q) && Bounded(s, Q)
    ensures Bounded(Pointwise(Forward(c), Forward(s)), Q - 1)
    ensures Bounded(Product(c, s), 4211177)
  {
    hide Bounded, Forward, Inverse, Pointwise;
    TransformBound(c);
    TransformBound(s);
    PointwiseBound(Forward(c), Forward(s));
    InverseBound(Pointwise(Forward(c), Forward(s)));
  }

  /** The verifier's row: one more term, so at most 8 (Q - 1) before the reduction. */
  lemma RowMinusBound(row: Vec, z: Vec, c: Poly, t1: Poly)
    requires 0 < |row| == |z| <= 7 && AllCanonical(row) && AllBounded(z, Q) && Bounded(c, Q) && Bounded(PShift(t1), Q)
    ensures Bounded(PSub(Acc(row, VForward(z)), Pointwise(Forward(c), Forward(PShift(t1)))), 8 * (Q - 1))
    ensures Bounded(PRed(PSub(Acc(row, VForward(z)), Pointwise(Forward(c), Forward(PShift(t1))))), Q - 1)
    ensures Bounded(RowMinus(row, z, c, t1), 4211177)
  {
    hide Bounded, Forward, Inverse, Acc, AllCanonical, Pointwise;
    RowTimesBound(row, z);
    TransformBound(c);
    TransformBound(PShift(t1));
    var p := Pointwise(Forward(c), Forward(PShift(t1)));
    PointwiseBound(Forward(c), Forward(PShift(t1)));
    var d := PSub(Acc(row, VForward(z)), p);
    SumBound(Acc(row, VForward(z)), p, 7 * (Q - 1), Q - 1);
    Widen(d, 7 * (Q - 1) + (Q - 1), 8 * (Q - 1));
    Widen(d, 8 * (Q - 1), REDMAX);
    RedRange(d);
    Widen(PRed(d), 6283009, Q - 1);
    InverseBound(PRed(d));
  }

  /** Transforming, reducing and transforming back multiplies by 2^32, and the result stays below 0.503 Q. */
  lemma ReducedRoundTrip(a: Poly)
    requires Bounded(a, Q - 1)
    ensures Scaled(Inverse(PRed(Forward(a))), R, a) && Bounded(Inverse(PRed(Forward(a))), 4211177)
  {
    hide Cong, Forward, Inverse;
    var y := PRed(Forward(a));
    Widen(a, Q - 1, Q);
    TransformBound(a);
    Widen(Forward(a), 9 * Q, REDMAX);
    RedRange(Forward(a));
    Widen(y, 6283009, Q - 1);
    InverseBound(y);
    forall i | 0 <= i < 256
      ensures Cong(y[i], 1 * Forward(a)[i])
    {
      RedCong(Forward(a)[i]);
    }
    InverseOfForward(a, y, 1);
  }
}
