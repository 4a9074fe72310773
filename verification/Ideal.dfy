/** Key generation, signing and verification in terms of polynomials modulo Q and X^256 + 1. */
module Ideal {
  import opened Arith
  import opened NttSpec
  import opened NttInverse
  import opened NttProduct
  import opened PolySpec
  import opened SignAlgebra
  import opened MatrixProduct
  import opened Ranges
  import opened Options
  import opened Params
  import opened Encodings
  import opened Sampling
  import opened InBall
  import opened Scheme
  import opened Streams

  /** Congruent to x and in [0, Q): x modulo Q. */
  lemma CanonicalResidue(v: int, u: int, x: int)
    requires v == CAdd(u) && 0 <= v < Q && Cong(u, x)
    ensures v == x % Q
  {
    CAddCong(u);
    CongTrans(v, u, x);
    var k := Multiple(v, x);
    assert x == v - k * Q;
  }

  /** A * y modulo Q and X^256 + 1, in [0, Q). */
  function IdealCommitment(a: seq<Vec>, y: Vec): Vec
    requires forall i :: 0 <= i < |a| ==> |a[i]| == |y|
  {
    seq(|a|, i requires 0 <= i < |a| => seq(256, k requires 0 <= k < 256 => SumOfProducts(a[i], y, k) % Q))
  }

  /** A * s1 + s2 modulo Q and X^256 + 1, in [0, Q). */
  function IdealKey(a: seq<Vec>, s1: Vec, s2: Vec): Vec
    requires |a| == |s2| && forall i :: 0 <= i < |a| ==> |a[i]| == |s1|
  {
    seq(|a|, i requires 0 <= i < |a| =>
      seq(256, k requires 0 <= k < 256 => (SumOfProducts(a[i], s1, k) + s2[i][k]) % Q))
  }

  /** A * z - c * t1 * 2^13 modulo Q and X^256 + 1, in [0, Q). */
  function IdealVerifier(a: seq<Vec>, z: Vec, c: Poly, t1: Vec): Vec
    requires |a| == |t1| && forall i :: 0 <= i < |a| ==> |a[i]| == |z|
  {
    seq(|a|, i requires 0 <= i < |a| =>
      seq(256, k requires 0 <= k < 256 => (SumOfProducts(a[i], z, k) - Convolve(c, PShift(t1[i]), k)) % Q))
  }

  /** The signer's transforms, reductions and inverse transforms compute exactly A * y. */
  lemma CommitmentIdeal(p: Params, mat: seq<Vec>, a: seq<Vec>, y: Vec)
    requires IsMatrix(p, mat) && StandsFor(mat, a) && |y| == p.L() && AllBounded(y, Q)
    ensures forall i :: 0 <= i < |a| ==> |a[i]| == |y|
    ensures Commitment(mat, y) == IdealCommitment(a, y)
  {
    hide Cong, RowTimes, SumOfProducts;
    CommitmentCanonical(p, mat, y);
    var w, v := Commitment(mat, y), IdealCommitment(a, y);
    forall i | 0 <= i < |a|
      ensures w[i] == v[i]
    {
      RowTimesMultiplies(mat[i], a[i], y);
      forall k | 0 <= k < 256
        ensures w[i][k] == v[i][k]
      {
        assert Cong(RowTimes(mat[i], y)[k], SumPoly(a[i], y)[k]);
        CanonicalResidue(w[i][k], RowTimes(mat[i], y)[k], SumOfProducts(a[i], y, k));
      }
    }
  }

  /** Key generation computes exactly A * s1 + s2. */
  lemma KeyIdeal(p: Params, mat: seq<Vec>, a: seq<Vec>, s1: Vec, s2: Vec)
    requires IsMatrix(p, mat) && StandsFor(mat, a) && |s1| == p.L() && |s2| == p.K()
    requires AllBounded(s1, 4) && AllBounded(s2, 4)
    ensures forall i :: 0 <= i < |a| ==> |a[i]| == |s1|
    ensures KeyVector(mat, s1, s2) == IdealKey(a, s1, s2)
  {
    hide Cong, RowTimes, SumOfProducts;
    KeyVectorCanonical(p, mat, s1, s2);
    var w, v := KeyVector(mat, s1, s2), IdealKey(a, s1, s2);
    forall i | 0 <= i < |a|
      ensures w[i] == v[i]
    {
      RowTimesMultiplies(mat[i], a[i], s1);
      forall k | 0 <= k < 256
        ensures w[i][k] == v[i][k]
      {
        var x, e := RowTimes(mat[i], s1)[k], s2[i][k];
        assert Cong(x, SumPoly(a[i], s1)[k]);
        CongFrom(e, e, 0);
        CongAdd(x, SumOfProducts(a[i], s1, k), e, e);
        CanonicalResidue(w[i][k], x + e, SumOfProducts(a[i], s1, k) + e);
      }
    }
  }

  /** Verification computes exactly A * z - c * t1 * 2^13. */
  lemma VerifierIdeal(p: Params, mat: seq<Vec>, a: seq<Vec>, z: Vec, c: Poly, t1: Vec)
    requires IsMatrix(p, mat) && StandsFor(mat, a) && |z| == p.L() && |t1| == p.K()
    requires AllBounded(z, Q) && Bounded(c, Q) && SmallT1(t1)
    ensures forall i :: 0 <= i < |a| ==> |a[i]| == |z|
    ensures VerifierVector(mat, z, c, t1) == IdealVerifier(a, z, c, t1)
  {
    hide Cong, RowMinus, SumOfProducts, Convolve, PShift;
    VerifierVectorCanonical(p, mat, z, c, t1);
    var w, v := VerifierVector(mat, z, c, t1), IdealVerifier(a, z, c, t1);
    forall i | 0 <= i < |a|
      ensures w[i] == v[i]
    {
      RowMinusMultiplies(mat[i], a[i], z, c, t1[i]);
      forall k | 0 <= k < 256
        ensures w[i][k] == v[i][k]
      {
        var u := RowMinus(mat[i], z, c, t1[i])[k];
        assert Cong(u, PSub(SumPoly(a[i], z), ProductPoly(c, PShift(t1[i])))[k]);
        CanonicalResidue(w[i][k], u, SumOfProducts(a[i], z, k) - Convolve(c, PShift(t1[i]), k));
      }
    }
  }

  /** The hash of a message: the key hash, a zero and the length of the context come before context and message. */
  function MessageHash(h: Hash, tr: seq<Byte>, ctx: seq<Byte>, m: seq<Byte>): seq<Byte>
    requires |ctx| <= 255
  {
    Squeeze(h.shake256, tr + [0, |ctx|] + ctx + m, 0, 64)
  }

  lemma MessageHashIs(h: Hash, tr: seq<Byte>, ctx: seq<Byte>, m: seq<Byte>)
    requires |ctx| <= 255
    ensures MessageRep(h, tr, ctx, m) == MessageHash(h, tr, ctx, m)
  {
  }

  /** What acceptance means, in polynomials: s is a valid signature, sig is its encoding, its response is short, and
      its seed is the hash of the message and of w1 = UseHint(h, A * z - c * t1 * 2^13). */
  ghost predicate Accepting(p: Params, h: Hash, a: seq<Vec>, pk: seq<Byte>, m: seq<Byte>, ctx: seq<Byte>, sig: seq<Byte>,
                            n: nat, s: Signature)
    requires |pk| == p.PkBytes() && |ctx| <= 255 && |a| == p.K() && forall i :: 0 <= i < |a| ==> |a[i]| == p.L()
  {
    ValidSignature(p, s) && PackSig(p, s) == sig && NormBelow(s.z, p.Gamma1() - p.Beta()) &&
    var c := Challenge(h.shake256, s.c, p.Tau(), n);
    c.Some? &&
    var v := IdealVerifier(a, s.z, c.value, UnpackPk(p, pk).t1);
    var mu := MessageHash(h, Squeeze(h.shake256, pk, 0, 64), ctx, m);
    AllCanonical(v) && VecFits(p.W1Format(), VUseHint(p.Gamma2(), v, s.h)) &&
    s.c == Squeeze(h.shake256, mu + PackVec(p.W1Format(), VUseHint(p.Gamma2(), v, s.h)), 0, p.CTildeBytes())
  }

  /** Verification accepts exactly the encodings of signatures that satisfy the verification equation. */
  lemma VerifyAcceptsIff(p: Params, h: Hash, a: seq<Vec>, pk: seq<Byte>, m: seq<Byte>, ctx: seq<Byte>, sig: seq<Byte>,
                         n: nat)
    requires |pk| == p.PkBytes() && MatrixOf(p, h, pk[..32], n, a)
    ensures |a| == p.K() && forall i :: 0 <= i < |a| ==> |a[i]| == p.L()
    ensures Verify(p, h, pk, m, ctx, sig, n) == Accept <==>
            |ctx| <= 255 && exists s :: Accepting(p, h, a, pk, m, ctx, sig, n, s)
  {
    hide UnpackPk, UnpackSig, PackSig, Matrix, MatrixDone, MatrixOf, ValidSignature, RowStandsFor, Accepting, Verify;
    PublicRho(p, pk);
    MatrixOfIs(p, h, pk[..32], n, a);
    RowLengths(p, Matrix(p, h, UnpackPk(p, pk).rho, n), a);
    if |ctx| <= 255 {
      forall s | Accepting(p, h, a, pk, m, ctx, sig, n, s)
        ensures Verify(p, h, pk, m, ctx, sig, n) == Accept
      {
        AcceptingEncodes(p, h, a, pk, m, ctx, sig, n, s);
        SigRoundTrip(p, s);
        AcceptingIs(p, h, a, pk, m, ctx, sig, n, s);
      }
    }
    if Verify(p, h, pk, m, ctx, sig, n) == Accept {
      AcceptedDecodes(p, h, pk, m, ctx, sig, n);
      SigCanonical(p, sig);
      AcceptingIs(p, h, a, pk, m, ctx, sig, n, UnpackSig(p, sig).value);
    }
  }

  lemma PublicRho(p: Params, pk: seq<Byte>)
    requires |pk| == p.PkBytes()
    ensures UnpackPk(p, pk).rho == pk[..32]
  {
  }

  lemma AcceptedDecodes(p: Params, h: Hash, pk: seq<Byte>, m: seq<Byte>, ctx: seq<Byte>, sig: seq<Byte>, n: nat)
    requires |pk| == p.PkBytes() && Verify(p, h, pk, m, ctx, sig, n) == Accept
    ensures |ctx| <= 255 && |sig| == p.SigBytes() && UnpackSig(p, sig).Some?
  {
    hide UnpackPk, UnpackSig, Matrix, MatrixDone, Challenge, NormBelow, Shake, Recomputed, MessageRep;
  }

  lemma AcceptingEncodes(p: Params, h: Hash, a: seq<Vec>, pk: seq<Byte>, m: seq<Byte>, ctx: seq<Byte>, sig: seq<Byte>,
                         n: nat, s: Signature)
    requires |pk| == p.PkBytes() && |ctx| <= 255 && |a| == p.K() && forall i :: 0 <= i < |a| ==> |a[i]| == p.L()
    requires Accepting(p, h, a, pk, m, ctx, sig, n, s)
    ensures ValidSignature(p, s) && PackSig(p, s) == sig
  {
    hide UnpackPk, PackSig, Challenge, NormBelow, Shake, MessageRep, ValidSignature, VUseHint, PackVec;
  }

  lemma AcceptingIs(p: Params, h: Hash, a: seq<Vec>, pk: seq<Byte>, m: seq<Byte>, ctx: seq<Byte>, sig: seq<Byte>, n: nat,
                    s: Signature)
    requires |pk| == p.PkBytes() && MatrixDone(p, h, UnpackPk(p, pk).rho, n) && |ctx| <= 255
    requires StandsFor(Matrix(p, h, UnpackPk(p, pk).rho, n), a)
    requires |a| == p.K() && forall i :: 0 <= i < |a| ==> |a[i]| == p.L()
    requires ValidSignature(p, s) && PackSig(p, s) == sig && UnpackSig(p, sig) == Some(s)
    ensures Accepting(p, h, a, pk, m, ctx, sig, n, s) <==> Verify(p, h, pk, m, ctx, sig, n) == Accept
  {
    hide UnpackPk, UnpackSig, PackSig, Matrix, MatrixDone, Challenge, NormBelow, AllBounded, Bounded, SmallT1, Squeeze,
         VecFits, AllCanonical, VUseHint, IdealVerifier, VerifierVector, PackVec, MessageRep, MessageHash, IsMatrix,
         StandsFor;
    MessageHashIs(h, Shake(h, pk, 64), ctx, m);
    var c := Challenge(h.shake256, s.c, p.Tau(), n);
    if NormBelow(s.z, p.Gamma1() - p.Beta()) && c.Some? {
      var mat, t1 := Matrix(p, h, UnpackPk(p, pk).rho, n), UnpackPk(p, pk).t1;
      NormBounded(s.z, p.Gamma1() - p.Beta());
      ChallengeBound(h.shake256, s.c, p.Tau(), n);
      Widen(c.value, 1, Q);
      PublicT1(p, pk);
      VerifierIdeal(p, mat, a, s.z, c.value, t1);
      MatrixLength(p, mat);
      VerifierVectorCanonical(p, mat, s.z, c.value, t1);
      HintedFit(p, VerifierVector(mat, s.z, c.value, t1), s.h);
    }
  }

  /** The response is y + c * s1 modulo Q and X^256 + 1. */
  lemma ResponseIdeal(c: Poly, y: Vec, s1: Vec, l: nat, k: nat)
    requires |y| == |s1| && l < |y| && k < 256
    ensures Cong(Response(c, y, s1)[l][k], y[l][k] + Convolve(c, s1[l], k))
  {
    hide Cong, Product, Convolve, Red, Forward, Inverse, Pointwise;
    var x := Product(c, s1[l])[k];
    RedCong(x + y[l][k]);
    NttMultiplies(c, s1[l], k);
    assert Cong(x, Convolve(c, s1[l], k)) by { ProductIs(c, s1[l]); }
    CongFrom(y[l][k], y[l][k], 0);
    CongAdd(y[l][k], y[l][k], x, Convolve(c, s1[l], k));
    CongTrans(Response(c, y, s1)[l][k], x + y[l][k], y[l][k] + Convolve(c, s1[l], k));
  }

  lemma ProductIs(c: Poly, s: Poly)
    ensures Product(c, s) == Inverse(Pointwise(Forward(c), Forward(s)))
  {
  }
}
