/** Why verification sees the polynomial that the signer committed to. */
module SignAlgebra {
  import opened Arith
  import opened Reduce
  import opened Zetas
  import opened NttSpec
  import opened NttInverse
  import opened NttProduct
  import opened PolySpec

  lemma RedCong(a: int)
    ensures Cong(Red(a), a)
  {
    CongFrom(Red(a), a, 0 - (a + 0x40_0000) / 0x80_0000);
  }

  lemma CAddCong(a: int)
    ensures Cong(CAdd(a), a)
  {
    CongFrom(CAdd(a), a, if a < 0 then 1 else 0);
  }

  lemma ForwardLinear(a: Poly, b: Poly, c: Poly, t: int, j: nat)
    requires j < 256
    requires forall i :: 0 <= i < 256 ==> Cong(c[i], a[i] + t * b[i])
    ensures Cong(Forward(c)[j], Forward(a)[j] + t * Forward(b)[j])
  {
    hide Cong, Forward, OutRoot, Eval, Pow;
    var x := OutRoot(j);
    ForwardEvaluates(a, j);
    ForwardEvaluates(b, j);
    ForwardEvaluates(c, j);
    EvalLinear(a, b, c, t, x);
    CongFrom(t, t, 0);
    CongMul(t, t, Forward(b)[j], Eval(b, x));
    CongAdd(Forward(a)[j], Eval(a, x), t * Forward(b)[j], t * Eval(b, x));
    CongSym(Forward(a)[j] + t * Forward(b)[j], Eval(a, x) + t * Eval(b, x));
    CongTrans(Forward(c)[j], Eval(c, x), Eval(a, x) + t * Eval(b, x));
    CongTrans(Forward(c)[j], Eval(a, x) + t * Eval(b, x), Forward(a)[j] + t * Forward(b)[j]);
  }

  lemma ForwardRespects(a: Poly, b: Poly, j: nat)
    requires j < 256 && CongSeq(a, b)
    ensures Cong(Forward(a)[j], Forward(b)[j])
  {
    hide Cong, Forward;
    forall i | 0 <= i < 256
      ensures Cong(a[i], b[i] + 0 * b[i])
    {
    }
    ForwardLinear(b, b, a, 0, j);
  }

  /** Polynomials with congruent transforms are congruent. */
  lemma TransformInjective(a: Poly, b: Poly)
    requires CongSeq(Forward(a), Forward(b))
    ensures CongSeq(a, b)
  {
    hide Cong, Forward, Inverse;
    var u := Forward(a);
    ScaledByOne(u, Forward(b));
    CongSeqRefl(u);
    ScaledByOne(u, u);
    InverseOfForward(b, u, 1);
    InverseOfForward(a, u, 1);
    forall i | 0 <= i < 256
      ensures Cong(a[i], b[i])
    {
      CancelCommon(Inverse(u)[i], a[i], b[i]);
    }
  }

  lemma CancelCommon(x: int, a: int, b: int)
    requires Cong(x, 1 * R * a) && Cong(x, 1 * R * b)
    ensures Cong(a, b)
  {
    CongSym(x, a * R);
    CongTrans(a * R, x, b * R);
    CancelBoth(a, b);
  }

  lemma CongSeqRefl(a: seq<int>)
    ensures CongSeq(a, a)
  {
  }

  lemma ScaledByOne(a: seq<int>, b: seq<int>)
    requires CongSeq(a, b)
    ensures Scaled(a, 1, b)
  {
    hide Cong;
    forall i | 0 <= i < |a|
      ensures Cong(a[i], 1 * b[i])
    {
      assert 1 * b[i] == b[i];
    }
  }

  /** Output j of the transform of a matrix row times a vector. */
  ghost function Dot(row: Vec, v: Vec, j: nat): int
    requires 0 < |row| == |v| && j < 256
  {
    var n := |row| - 1;
    (if n == 0 then 0 else Dot(row[..n], v[..n], j)) + row[n][j] * Forward(v[n])[j]
  }

  lemma {:induction false} AccIsDot(row: Vec, v: Vec, j: nat)
    requires 0 < |row| == |v| && j < 256
    ensures Cong(Acc(row, VForward(v))[j] * R, Dot(row, v, j))
  {
    hide Cong, Forward, Redc;
    var n := |row| - 1;
    var p := row[n][j] * Forward(v[n])[j];
    RedcCong(p);
    if n != 0 {
      AccIsDot(row[..n], v[..n], j);
      assert VForward(v)[..n] == VForward(v[..n]);
      var a := Acc(row[..n], VForward(v[..n]))[j];
      CongAdd(a * R, Dot(row[..n], v[..n], j), Redc(p) * R, p);
      assert (a + Redc(p)) * R == a * R + Redc(p) * R;
    }
  }

  /** The code's A * v, in the transform domain. */
  lemma RowTransform(row: Vec, v: Vec, u: Poly, j: nat)
    requires 0 < |row| == |v| && j < 256
    requires CongSeq(u, Inverse(PRed(Acc(row, VForward(v)))))
    ensures Cong(Forward(u)[j], Dot(row, v, j))
  {
    hide Cong, Forward, Inverse, Acc, Dot, Red;
    var a := Acc(row, VForward(v));
    var x := PRed(a);
    ForwardRespects(u, Inverse(x), j);
    ForwardOfInverse(x);
    RedCong(a[j]);
    CongFrom(R, R, 0);
    CongMul(R, R, x[j], a[j]);
    AccIsDot(row, v, j);
    CongTrans(Forward(Inverse(x))[j], R * x[j], R * a[j]);
    CongTrans(Forward(Inverse(x))[j], R * a[j], Dot(row, v, j));
    CongTrans(Forward(u)[j], Forward(Inverse(x))[j], Dot(row, v, j));
  }

  /** The code's c * s, in the transform domain. */
  lemma ProductTransform(c: Poly, s: Poly, j: nat)
    requires j < 256
    ensures Cong(Forward(Inverse(Pointwise(Forward(c), Forward(s))))[j], Forward(c)[j] * Forward(s)[j])
  {
    hide Cong, Forward, Inverse, Redc;
    var x := Pointwise(Forward(c), Forward(s));
    ForwardOfInverse(x);
    RedcCong(Forward(c)[j] * Forward(s)[j]);
    CongTrans(Forward(Inverse(x))[j], R * x[j], Forward(c)[j] * Forward(s)[j]);
  }

  lemma {:induction false} DotLinear(row: Vec, z: Vec, y: Vec, s: Vec, c: int, j: nat)
    requires 0 < |row| == |z| == |y| == |s| && j < 256
    requires forall l :: 0 <= l < |row| ==> Cong(Forward(z[l])[j], Forward(y[l])[j] + c * Forward(s[l])[j])
    ensures Cong(Dot(row, z, j), Dot(row, y, j) + c * Dot(row, s, j))
  {
    hide Cong, Forward;
    var n := |row| - 1;
    var a, zj, yj, sj := row[n][j], Forward(z[n])[j], Forward(y[n])[j], Forward(s[n])[j];
    CongFrom(a, a, 0);
    CongMul(a, a, zj, yj + c * sj);
    assert a * (yj + c * sj) == a * yj + c * (a * sj);
    if n != 0 {
      DotLinear(row[..n], z[..n], y[..n], s[..n], c, j);
      var dz, dy, ds := Dot(row[..n], z[..n], j), Dot(row[..n], y[..n], j), Dot(row[..n], s[..n], j);
      CongAdd(dz, dy + c * ds, a * zj, a * yj + c * (a * sj));
      assert c * (ds + a * sj) == c * ds + c * (a * sj);
    }
  }

  /** c * s as the code computes it. */
  function Product(c: Poly, s: Poly): Poly { Inverse(Pointwise(Forward(c), Forward(s))) }

  /** A * v, one row, as the code computes it. */
  function RowTimes(row: Vec, v: Vec): Poly
    requires 0 < |row| == |v|
  {
    Inverse(PRed(Acc(row, VForward(v))))
  }

  /** A * z - c * t1 * 2^13, one row, as verification computes it. */
  function RowMinus(row: Vec, z: Vec, c: Poly, t1: Poly): Poly
    requires 0 < |row| == |z|
  {
    Inverse(PRed(PSub(Acc(row, VForward(z)), Pointwise(Forward(c), Forward(PShift(t1))))))
  }

  lemma RowMinusTransform(row: Vec, z: Vec, c: Poly, t1: Poly, j: nat)
    requires 0 < |row| == |z| && j < 256
    ensures Cong(Forward(RowMinus(row, z, c, t1))[j], Dot(row, z, j) - Forward(c)[j] * Forward(PShift(t1))[j])
  {
    hide Cong, Forward, Inverse, Acc, Dot, Pointwise, PRed, PSub, PShift;
    var a, p := Acc(row, VForward(z)), Pointwise(Forward(c), Forward(PShift(t1)));
    var x := PRed(PSub(a, p));
    var q := Forward(c)[j] * Forward(PShift(t1))[j];
    ForwardOfInverse(x);
    ReducedDifference(a, p, j);
    AccIsDot(row, z, j);
    PointwiseAt(Forward(c), Forward(PShift(t1)), j);
    Unscale(Forward(Inverse(x))[j], x[j], a[j], p[j], Dot(row, z, j), q);
  }

  lemma ReducedDifference(a: Poly, p: Poly, j: nat)
    requires j < 256
    ensures Cong(PRed(PSub(a, p))[j], a[j] - p[j])
  {
    hide Cong, Red;
    RedCong(a[j] - p[j]);
  }

  lemma PointwiseAt(u: Poly, v: Poly, j: nat)
    requires j < 256
    ensures Cong(Pointwise(u, v)[j] * R, u[j] * v[j])
  {
    hide Cong, Redc;
    RedcCong(u[j] * v[j]);
  }

  lemma Unscale(f: int, x: int, a: int, p: int, d: int, q: int)
    requires Cong(f, R * x) && Cong(x, a - p) && Cong(a * R, d) && Cong(p * R, q)
    ensures Cong(f, d - q)
  {
    var i, k, l, m := Multiple(f, R * x), Multiple(x, a - p), Multiple(a * R, d), Multiple(p * R, q);
    CongFrom(f, d - q, i + R * k + l - m);
  }

  /** With z = y + c * s1 and t1 * 2^13 + t0 = A * s1 + s2, the transforms of
      A * z - c * t1 * 2^13 and A * y - c * s2 + c * t0 agree. */
  lemma TransformIdentity(dz: int, dy: int, ds: int, c: int, t: int, t0: int, t1: int, s2: int)
    requires Cong(dz, dy + c * ds) && Cong(t, ds + s2) && Cong(t, t1 + t0)
    ensures Cong(dz - c * t1, dy - c * s2 + c * t0)
  {
    var i, k, l := Multiple(dz, dy + c * ds), Multiple(t, ds + s2), Multiple(t, t1 + t0);
    assert ds + s2 + k * Q == t1 + t0 + l * Q;
    assert c * ds + c * s2 + (c * k) * Q == c * t1 + c * t0 + (c * l) * Q;
    CongFrom(dz - c * t1, dy - c * s2 + c * t0, i - c * k + c * l);
  }

  ghost predicate KeyRelation(row: Vec, s1: Vec, s2: Poly, t1: Poly, t0: Poly)
    requires 0 < |row| == |s1|
  {
    CongSeq(PAdd(PShift(t1), t0), PAdd(RowTimes(row, s1), s2))
  }

  ghost predicate ResponseRelation(z: Vec, y: Vec, c: Poly, s1: Vec)
    requires |z| == |y| == |s1|
  {
    forall l :: 0 <= l < |z| ==> CongSeq(z[l], PAdd(y[l], Product(c, s1[l])))
  }

  lemma ResponseTransform(z: Poly, y: Poly, c: Poly, s: Poly, j: nat)
    requires j < 256 && CongSeq(z, PAdd(y, Product(c, s)))
    ensures Cong(Forward(z)[j], Forward(y)[j] + Forward(c)[j] * Forward(s)[j])
  {
    hide Cong, Forward, Product;
    var p := Product(c, s);
    ForwardLinear(y, p, z, 1, j) by {
      assert forall i :: 0 <= i < 256 ==> y[i] + 1 * p[i] == PAdd(y, p)[i];
    }
    TransformOfProduct(c, s, j);
    CongFrom(Forward(y)[j], Forward(y)[j], 0);
    CongAdd(Forward(y)[j], Forward(y)[j], 1 * Forward(p)[j], Forward(c)[j] * Forward(s)[j]);
    CongTrans(Forward(z)[j], Forward(y)[j] + 1 * Forward(p)[j], Forward(y)[j] + Forward(c)[j] * Forward(s)[j]);
  }

  lemma TransformOfProduct(c: Poly, s: Poly, j: nat)
    requires j < 256
    ensures Cong(Forward(Product(c, s))[j], Forward(c)[j] * Forward(s)[j])
  {
    hide Cong, Forward, Inverse, Pointwise;
    ProductTransform(c, s, j);
  }

  lemma KeyTransform(row: Vec, s1: Vec, s2: Poly, t1: Poly, t0: Poly, j: nat) returns (t: int)
    requires 0 < |row| == |s1| && j < 256 && KeyRelation(row, s1, s2, t1, t0)
    ensures Cong(t, Dot(row, s1, j) + Forward(s2)[j]) && Cong(t, Forward(PShift(t1))[j] + Forward(t0)[j])
  {
    hide Cong, Forward, RowTimes, Dot;
    var u := RowTimes(row, s1);
    var a := PAdd(PShift(t1), t0);
    t := Forward(a)[j];
    CongSeqRefl(a);
    SumTransform(PShift(t1), t0, a, j);
    SumTransform(u, s2, a, j);
    RowTimesTransform(row, s1, j);
    CongFrom(Forward(s2)[j], Forward(s2)[j], 0);
    CongAdd(Forward(u)[j], Dot(row, s1, j), Forward(s2)[j], Forward(s2)[j]);
    CongTrans(Forward(a)[j], Forward(u)[j] + Forward(s2)[j], Dot(row, s1, j) + Forward(s2)[j]);
  }

  lemma RowTimesTransform(row: Vec, v: Vec, j: nat)
    requires 0 < |row| == |v| && j < 256
    ensures Cong(Forward(RowTimes(row, v))[j], Dot(row, v, j))
  {
    hide Cong, Forward, Dot, Inverse, Acc, Red;
    CongSeqRefl(RowTimes(row, v));
    RowTransform(row, v, RowTimes(row, v), j);
  }

  lemma SumTransform(p: Poly, q: Poly, a: Poly, j: nat)
    requires j < 256 && CongSeq(a, PAdd(p, q))
    ensures Cong(Forward(a)[j], Forward(p)[j] + Forward(q)[j])
  {
    hide Cong, Forward;
    ForwardLinear(p, q, a, 1, j) by {
      assert forall i :: 0 <= i < 256 ==> p[i] + 1 * q[i] == PAdd(p, q)[i];
    }
    assert 1 * Forward(q)[j] == Forward(q)[j];
  }

  /** The verifier's polynomial is the signer's w - c * s2 + c * t0. */
  lemma VerifierPolynomial(row: Vec, z: Vec, y: Vec, c: Poly, s1: Vec, s2: Poly, t1: Poly, t0: Poly)
    requires 0 < |row| == |z| == |y| == |s1|
    requires KeyRelation(row, s1, s2, t1, t0) && ResponseRelation(z, y, c, s1)
    ensures CongSeq(RowMinus(row, z, c, t1),
                    PAdd(PSub(RowTimes(row, y), Product(c, s2)), Product(c, t0)))
  {
    hide Cong, Forward, RowMinus, RowTimes, Product, Dot;
    var v, w, p, q := RowMinus(row, z, c, t1), RowTimes(row, y), Product(c, s2), Product(c, t0);
    var r := PAdd(PSub(w, p), q);
    forall j | 0 <= j < 256
      ensures Cong(Forward(v)[j], Forward(r)[j])
    {
      var cj, s2j, t0j := Forward(c)[j], Forward(s2)[j], Forward(t0)[j];
      forall l | 0 <= l < |row|
        ensures Cong(Forward(z[l])[j], Forward(y[l])[j] + cj * Forward(s1[l])[j])
      {
        ResponseTransform(z[l], y[l], c, s1[l], j);
      }
      DotLinear(row, z, y, s1, cj, j);
      var t := KeyTransform(row, s1, s2, t1, t0, j);
      TransformIdentity(Dot(row, z, j), Dot(row, y, j), Dot(row, s1, j), cj, t, t0j, Forward(PShift(t1))[j], s2j);
      RowMinusTransform(row, z, c, t1, j);
      SignerTransform(row, y, c, s2, t0, j);
      CongSym(Forward(r)[j], Dot(row, y, j) - cj * s2j + cj * t0j);
      CongTrans(Forward(v)[j], Dot(row, z, j) - cj * Forward(PShift(t1))[j], Dot(row, y, j) - cj * s2j + cj * t0j);
      CongTrans(Forward(v)[j], Dot(row, y, j) - cj * s2j + cj * t0j, Forward(r)[j]);
    }
    TransformInjective(v, r);
  }

  lemma SignerTransform(row: Vec, y: Vec, c: Poly, s2: Poly, t0: Poly, j: nat)
    requires 0 < |row| == |y| && j < 256
    ensures Cong(Forward(PAdd(PSub(RowTimes(row, y), Product(c, s2)), Product(c, t0)))[j],
                 Dot(row, y, j) - Forward(c)[j] * Forward(s2)[j] + Forward(c)[j] * Forward(t0)[j])
  {
    hide Cong, Forward, RowTimes, Product, Dot;
    var w, p, q := RowTimes(row, y), Product(c, s2), Product(c, t0);
    var d := PSub(w, p);
    var r := PAdd(d, q);
    CongSeqRefl(r);
    SumTransform(d, q, r, j);
    CongSeqRefl(w);
    assert PAdd(d, p) == w;
    SumTransform(d, p, w, j);
    RowTimesTransform(row, y, j);
    TransformOfProduct(c, s2, j);
    TransformOfProduct(c, t0, j);
    Combine(Forward(r)[j], Forward(d)[j], Forward(q)[j], Forward(w)[j], Forward(p)[j],
            Dot(row, y, j), Forward(c)[j] * Forward(s2)[j], Forward(c)[j] * Forward(t0)[j]);
  }

  lemma Combine(r: int, d: int, q: int, w: int, p: int, dy: int, cs: int, ct: int)
    requires Cong(r, d + q) && Cong(w, d + p) && Cong(w, dy) && Cong(p, cs) && Cong(q, ct)
    ensures Cong(r, dy - cs + ct)
  {
    var a, b, e, f, g := Multiple(r, d + q), Multiple(w, d + p), Multiple(w, dy), Multiple(p, cs), Multiple(q, ct);
    CongFrom(r, dy - cs + ct, a - b + e - f + g);
  }
}
