/** Matrix rows as polynomials: the accumulated products are sums of products modulo X^256 + 1. */
module MatrixProduct {
  import opened Arith
  import opened Zetas
  import opened NttSpec
  import opened NttInverse
  import opened NttProduct
  import opened PolySpec
  import opened SignAlgebra

  /** The sum of the products a[l] * v[l] modulo X^256 + 1, coefficient k. */
  function SumOfProducts(a: Vec, v: Vec, k: int): int
    requires |a| == |v| && 0 <= k < 256
  {
    if a == [] then 0
    else SumOfProducts(a[..|a| - 1], v[..|a| - 1], k) + Convolve(a[|a| - 1], v[|a| - 1], k)
  }

  function SumPoly(a: Vec, v: Vec): Poly
    requires |a| == |v|
  {
    seq(256, k requires 0 <= k < 256 => SumOfProducts(a, v, k))
  }

  /** The row of the matrix is the transform of the polynomials a, up to multiples of Q. */
  ghost predicate RowStandsFor(row: Vec, a: Vec)
  {
    |row| == |a| && forall l :: 0 <= l < |row| ==> CongSeq(row[l], Forward(a[l]))
  }

  lemma LastProduct(a: Vec, v: Vec, k: nat)
    requires 0 < |a| == |v| && k < 256
    ensures var n := |a| - 1;
            SumOfProducts(a, v, k) == SumOfProducts(a[..n], v[..n], k) + Convolve(a[n], v[n], k)
  {
  }

  lemma ForwardOfProduct(a: Poly, b: Poly, p: Poly, j: nat)
    requires j < 256 && forall k :: 0 <= k < 256 ==> p[k] == Convolve(a, b, k)
    ensures Cong(Forward(p)[j], Forward(a)[j] * Forward(b)[j])
  {
    hide Cong, Forward, NegMul, Eval, OutRoot, Pow, Convolve;
    forall k | 0 <= k < 256
      ensures p[k] == NegMul(a, b)[k]
    {
      NegMulIsConvolution(a, b, b, 0, k);
    }
    assert p == NegMul(a, b);
    var x := OutRoot(j);
    ForwardEvaluates(a, j);
    ForwardEvaluates(b, j);
    ForwardEvaluates(p, j);
    NegMulEval(a, b, x);
    CongMul(Forward(a)[j], Eval(a, x), Forward(b)[j], Eval(b, x));
    CongSym(Forward(a)[j] * Forward(b)[j], Eval(a, x) * Eval(b, x));
    CongTrans(Forward(p)[j], Eval(p, x), Eval(a, x) * Eval(b, x));
    CongTrans(Forward(p)[j], Eval(a, x) * Eval(b, x), Forward(a)[j] * Forward(b)[j]);
  }

  lemma {:induction false} SumTransforms(row: Vec, a: Vec, v: Vec, j: nat)
    requires 0 < |row| == |v| && RowStandsFor(row, a) && j < 256
    ensures Cong(Forward(SumPoly(a, v))[j], Dot(row, v, j))
  {
    hide Cong, Forward, Convolve;
    var n := |row| - 1;
    var p := seq(256, k requires 0 <= k < 256 => Convolve(a[n], v[n], k));
    var f := Forward(v[n])[j];
    ForwardOfProduct(a[n], v[n], p, j);
    assert CongSeq(row[n], Forward(a[n]));
    CongSym(row[n][j], Forward(a[n])[j]);
    CongFrom(f, f, 0);
    CongMul(Forward(a[n])[j], row[n][j], f, f);
    CongTrans(Forward(p)[j], Forward(a[n])[j] * f, row[n][j] * f);
    if n == 0 {
      forall k | 0 <= k < 256
        ensures SumPoly(a, v)[k] == p[k]
      {
        LastProduct(a, v, k);
        assert a[..0] == [] == v[..0];
      }
      assert SumPoly(a, v) == p;
    } else {
      SumTransforms(row[..n], a[..n], v[..n], j);
      var s, r := SumPoly(a, v), SumPoly(a[..n], v[..n]);
      forall k | 0 <= k < 256
        ensures s[k] == r[k] + p[k]
      {
        LastProduct(a, v, k);
      }
      assert s == PAdd(r, p);
      CongSeqRefl(s);
      SumTransform(r, p, s, j);
      CongAdd(Forward(r)[j], Dot(row[..n], v[..n], j), Forward(p)[j], row[n][j] * f);
      CongTrans(Forward(s)[j], Forward(r)[j] + Forward(p)[j], Dot(row, v, j));
    }
  }

  /** The code's matrix row times vector is the sum of polynomial products modulo X^256 + 1. */
  lemma RowTimesMultiplies(row: Vec, a: Vec, v: Vec)
    requires 0 < |row| == |v| && RowStandsFor(row, a)
    ensures CongSeq(RowTimes(row, v), SumPoly(a, v))
  {
    hide Cong, Forward, Dot, RowTimes, SumOfProducts;
    forall j | 0 <= j < 256
      ensures Cong(Forward(RowTimes(row, v))[j], Forward(SumPoly(a, v))[j])
    {
      RowTimesTransform(row, v, j);
      SumTransforms(row, a, v, j);
      CongSym(Forward(SumPoly(a, v))[j], Dot(row, v, j));
      CongTrans(Forward(RowTimes(row, v))[j], Dot(row, v, j), Forward(SumPoly(a, v))[j]);
    }
    TransformInjective(RowTimes(row, v), SumPoly(a, v));
  }

  /** Every sampled row stands for some polynomials: the transform is onto, modulo Q. */
  lemma RowHasPolynomials(row: Vec) returns (a: Vec)
    ensures RowStandsFor(row, a)
  {
    hide Cong, Forward, Inverse;
    a := seq(|row|, l requires 0 <= l < |row| => Scale(RINV, Inverse(row[l])));
    forall l | 0 <= l < |row|
      ensures CongSeq(row[l], Forward(a[l]))
    {
      Preimage(row[l]);
      assert a[l] == Scale(RINV, Inverse(row[l]));
    }
  }

  function Scale(c: int, p: Poly): Poly { seq(256, k requires 0 <= k < 256 => c * p[k]) }

  lemma Preimage(y: Poly)
    ensures CongSeq(y, Forward(Scale(RINV, Inverse(y))))
  {
    hide Cong, Forward, Inverse;
    var x, zero := Inverse(y), seq(256, k => 0);
    ForwardOfInverse(y);
    forall j | 0 <= j < 256
      ensures Cong(y[j], Forward(Scale(RINV, x))[j])
    {
      forall i | 0 <= i < 256
        ensures Cong(Scale(RINV, x)[i], zero[i] + RINV * x[i]) && Cong(zero[i], x[i] + -1 * x[i])
      {
        CongFrom(RINV * x[i], zero[i] + RINV * x[i], 0);
        CongFrom(zero[i], x[i] + -1 * x[i], 0);
      }
      ForwardLinear(zero, x, Scale(RINV, x), RINV, j);
      ForwardLinear(x, x, zero, -1, j);
      Unscale(y[j], Forward(x)[j], Forward(zero)[j], Forward(Scale(RINV, x))[j]);
    }
  }

  lemma Unscale(y: int, fx: int, fz: int, fs: int)
    requires Cong(fx, R * y) && Cong(fz, fx + -1 * fx) && Cong(fs, fz + RINV * fx)
    ensures Cong(y, fs)
  {
    var i, k, l := Multiple(fx, R * y), Multiple(fz, fx + -1 * fx), Multiple(fs, fz + RINV * fx);
    assert RINV * R == 1 + 4236238847 * Q;
    assert RINV * fx == (RINV * R) * y + (RINV * i) * Q;
    assert (1 + 4236238847 * Q) * y == y + (4236238847 * y) * Q;
    CongFrom(fs, y, l + k + RINV * i + 4236238847 * y);
    CongSym(fs, y);
  }

  function ProductPoly(c: Poly, t: Poly): Poly { seq(256, k requires 0 <= k < 256 => Convolve(c, t, k)) }

  /** The code's A * z - c * t1 * 2^13, one row, in polynomials. */
  lemma RowMinusMultiplies(row: Vec, a: Vec, z: Vec, c: Poly, t1: Poly)
    requires 0 < |row| == |z| && RowStandsFor(row, a)
    ensures CongSeq(RowMinus(row, z, c, t1), PSub(SumPoly(a, z), ProductPoly(c, PShift(t1))))
  {
    hide Cong, Forward, Dot, RowMinus, SumOfProducts, Convolve;
    var s, p := SumPoly(a, z), ProductPoly(c, PShift(t1));
    var d, u := PSub(s, p), RowMinus(row, z, c, t1);
    CongSeqRefl(s);
    assert PAdd(d, p) == s;
    forall j | 0 <= j < 256
      ensures Cong(Forward(u)[j], Forward(d)[j])
    {
      RowMinusTransform(row, z, c, t1, j);
      SumTransforms(row, a, z, j);
      ForwardOfProduct(c, PShift(t1), p, j);
      SumTransform(d, p, s, j);
      Difference(Forward(u)[j], Forward(d)[j], Forward(s)[j], Forward(p)[j], Dot(row, z, j),
                 Forward(c)[j] * Forward(PShift(t1))[j]);
    }
    TransformInjective(u, d);
  }

  lemma Difference(u: int, d: int, s: int, p: int, dot: int, q: int)
    requires Cong(u, dot - q) && Cong(s, dot) && Cong(p, q) && Cong(s, d + p)
    ensures Cong(u, d)
  {
    var i, k, l, m := Multiple(u, dot - q), Multiple(s, dot), Multiple(p, q), Multiple(s, d + p);
    CongFrom(u, d, i - k + m + l);
  }
}
