/** Signatures that signing emits are accepted. */
module Completeness {
  import opened Arith
  import opened Rounding
  import opened PolySpec
  import opened SignAlgebra
  import opened Ranges
  import opened HintCode
  import opened Params
  import opened Encodings
  import opened Sampling
  import opened InBall
  import opened Scheme

  // ---- What key generation establishes ----

  lemma KeyRowRelation(row: Vec, s1: Vec, s2: Poly, t: Poly)
    requires 0 < |row| == |s1| && t == PCaddq(PAdd(RowTimes(row, s1), s2)) && Canonical(t)
    ensures KeyRelation(row, s1, s2, PHigh(t), PLow(t))
  {
    hide Cong, RowTimes, Power2Round;
    var u := PAdd(RowTimes(row, s1), s2);
    var a := PAdd(PShift(PHigh(t)), PLow(t));
    forall k | 0 <= k < 256
      ensures Cong(a[k], u[k])
    {
      CAddCong(u[k]);
      assert a[k] == Power2Round(t[k]).0 * 8192 + Power2Round(t[k]).1 == t[k];
    }
  }

  /** In every row, t1 * 2^13 + t0 is congruent to A * s1 + s2. */
  ghost predicate KeyHolds(a: seq<Vec>, s1: Vec, s2: Vec, t1: Vec, t0: Vec)
    requires |a| == |s2| == |t1| == |t0| && 0 < |s1| && forall i :: 0 <= i < |a| ==> |a[i]| == |s1|
  {
    forall i :: 0 <= i < |a| ==> KeyRelation(a[i], s1, s2[i], t1[i], t0[i])
  }

  lemma KeyVectorRelation(a: seq<Vec>, s1: Vec, s2: Vec)
    requires |a| == |s2| && 0 < |s1| && forall i :: 0 <= i < |a| ==> |a[i]| == |s1|
    requires AllCanonical(KeyVector(a, s1, s2))
    ensures KeyHolds(a, s1, s2, VHigh(KeyVector(a, s1, s2)), VLow(KeyVector(a, s1, s2)))
  {
    hide KeyRelation, RowTimes, PCaddq, PHigh, PLow;
    var t := KeyVector(a, s1, s2);
    forall i | 0 <= i < |a|
      ensures KeyRelation(a[i], s1, s2[i], VHigh(t)[i], VLow(t)[i])
    {
      KeyRowRelation(a[i], s1, s2[i], t[i]);
    }
  }

  /** The keys that key generation writes read back as parts that satisfy the key equation, with coefficients in
      the ranges of the standard, and the secret key carries the hash of the public key. */
  lemma KeyGenCorrect(p: Params, h: Hash, seed: seq<Byte>, n: nat)
    requires |seed| == 32
    ensures KeyGen(p, h, seed, n).Some? ==>
              var r := KeyGen(p, h, seed, n).value;
              var pk, sk := UnpackPk(p, r.pk), UnpackSk(p, r.sk);
              ValidPublicKey(p, pk) && ValidSecretKey(p, sk) && pk.rho == sk.rho && sk.tr == Shake(h, r.pk, 64) &&
              MatrixDone(p, h, sk.rho, n) && KeyHolds(Matrix(p, h, sk.rho, n), sk.s1, sk.s2, pk.t1, sk.t0)
  {
    hide PackPk, PackSk, UnpackPk, UnpackSk, Matrix, MatrixDone, EtaVec, EtaDone, KeyVector, KeyHolds;
    if KeyGen(p, h, seed, n).Some? {
      var b := Shake(h, seed + [p.K(), p.L()], 128);
      var rho, rhoprime, key := b[..32], b[32..96], b[96..];
      var a := Matrix(p, h, rho, n);
      var s1, s2 := EtaVec(p, h, rhoprime, 0, p.L(), n), EtaVec(p, h, rhoprime, p.L(), p.K(), n);
      AllWiden(s1, p.Eta(), 4);
      AllWiden(s2, p.Eta(), 4);
      KeyVectorCanonical(p, a, s1, s2);
      var t := KeyVector(a, s1, s2);
      var pub := PublicPart(p, rho, t);
      PkRoundTrip(p, pub);
      var pk := PackPk(p, pub);
      SkRoundTrip(p, SecretPart(p, rho, key, Shake(h, pk, 64), s1, s2, t));
      KeyVectorRelation(a, s1, s2);
    }
  }

  // ---- Samplers agree ----

  lemma MatrixAgree(p: Params, h: Hash, rho: seq<Byte>, m: nat, n: nat)
    requires MatrixDone(p, h, rho, m) && m <= n
    ensures MatrixDone(p, h, rho, n) && Matrix(p, h, rho, n) == Matrix(p, h, rho, m)
  {
    hide UniformPoly;
    forall i, j | 0 <= i < p.K() && 0 <= j < p.L()
      ensures MatrixEntry(h, rho, i, j, m).Some? && MatrixEntry(h, rho, i, j, n) == MatrixEntry(h, rho, i, j, m)
    {
      assert MatrixEntry(h, rho, i, j, m).Some?;
      UniformPolyAgree(h.shake128, rho, (256 * i + j) % 0x1_0000, m, n);
    }
    var a, b := Matrix(p, h, rho, n), Matrix(p, h, rho, m);
    forall i | 0 <= i < p.K()
      ensures a[i] == b[i]
    {
      assert a[i] == MatrixRow(p, h, rho, i, n) && b[i] == MatrixRow(p, h, rho, i, m);
    }
  }

  lemma MatrixSame(p: Params, h: Hash, rho: seq<Byte>, m: nat, n: nat)
    requires MatrixDone(p, h, rho, m) && MatrixDone(p, h, rho, n)
    ensures Matrix(p, h, rho, n) == Matrix(p, h, rho, m)
  {
    hide Matrix, MatrixDone;
    if m <= n {
      MatrixAgree(p, h, rho, m, n);
    } else {
      MatrixAgree(p, h, rho, n, m);
    }
  }

  /** Streams long enough for the verifier too give it the signer's matrix and challenge. */
  lemma StreamsAgree(p: Params, h: Hash, rho: seq<Byte>, ct: seq<Byte>, m: nat, n: nat)
    requires MatrixDone(p, h, rho, m) && Challenge(h.shake256, ct, p.Tau(), m).Some?
    requires m <= n || (MatrixDone(p, h, rho, n) && Challenge(h.shake256, ct, p.Tau(), n).Some?)
    ensures MatrixDone(p, h, rho, n) && Matrix(p, h, rho, n) == Matrix(p, h, rho, m)
    ensures Challenge(h.shake256, ct, p.Tau(), n) == Challenge(h.shake256, ct, p.Tau(), m)
  {
    hide Matrix, MatrixDone, Challenge;
    if m <= n {
      MatrixAgree(p, h, rho, m, n);
      ChallengeAgree(h.shake256, ct, p.Tau(), m, n);
    } else {
      MatrixAgree(p, h, rho, n, m);
      ChallengeAgree(h.shake256, ct, p.Tau(), n, m);
    }
  }

  // ---- The hints restore w1 ----

  /** One coefficient: what the verifier has is the signer's w1 * 2 * g + r0 + ct0, modulo Q. */
  lemma CoefficientRelation(g: int, v: int, u: int, w: int, x: int, w1: int, w0: int, cs: int, ct: int, r0: int, ct0: int)
    requires Cong(v, u) && Cong(u, x - cs + ct) && Cong(w, x) && Cong(w, w1 * (2 * g) + w0)
    requires Cong(r0, w0 - cs) && Cong(ct0, ct)
    ensures Cong(v, w1 * (2 * g) + (r0 + ct0))
  {
    var d := w1 * (2 * g);
    var k1, k2, k3, k4 := Multiple(v, u), Multiple(u, x - cs + ct), Multiple(w, x), Multiple(w, d + w0);
    var k5, k6 := Multiple(r0, w0 - cs), Multiple(ct0, ct);
    CongFrom(v, d + (r0 + ct0), k1 + k2 - k3 + k4 - k5 - k6);
  }

  lemma DecompositionCong(g: int, a: int)
    requires IsGamma2(g) && 0 <= a < Q
    ensures Cong(a, Decompose(g, a).0 * (2 * g) + Decompose(g, a).1)
  {
    hide Decompose;
    var d := Decompose(g, a);
    CongFrom(a, d.0 * (2 * g) + d.1, if a == d.0 * (2 * g) + d.1 then 0 else 1);
  }

  /** One row of the verifier's vector, corrected by the hints, is w1. */
  lemma RowRestored(g: int, row: Vec, z: Vec, y: Vec, c: Poly, s1: Vec, s2: Poly, t1: Poly, t0: Poly, w: Poly, v: Poly,
                    r0: Poly, ct0: Poly, k: nat)
    requires IsGamma2(g) && 0 < |row| == |z| == |y| == |s1| && k < 256
    requires KeyRelation(row, s1, s2, t1, t0) && ResponseRelation(z, y, c, s1)
    requires w == PCaddq(RowTimes(row, y)) && v == PCaddq(RowMinus(row, z, c, t1)) && Canonical(w) && Canonical(v)
    requires r0 == PRed(PSub(PLowBits(g, w), Product(c, s2))) && ct0 == PRed(Product(c, t0))
    requires -g < r0[k] < g && -g < ct0[k] < g
    ensures UseHint(g, v[k], MakeHint(g, r0[k] + ct0[k], PHighBits(g, w)[k])) == PHighBits(g, w)[k]
  {
    hide Cong, RowTimes, RowMinus, Product, KeyRelation, ResponseRelation, Decompose, MakeHint, UseHint, Red, CAdd;
    VerifierPolynomial(row, z, y, c, s1, s2, t1, t0);
    var u, x, cs, ct := RowMinus(row, z, c, t1), RowTimes(row, y), Product(c, s2), Product(c, t0);
    assert Cong(u[k], PAdd(PSub(x, cs), ct)[k]);
    CAddCong(u[k]);
    CAddCong(x[k]);
    DecompositionCong(g, w[k]);
    RedCong(Decompose(g, w[k]).1 - cs[k]);
    RedCong(ct[k]);
    CoefficientRelation(g, v[k], u[k], w[k], x[k], Decompose(g, w[k]).0, Decompose(g, w[k]).1, cs[k], ct[k], r0[k], ct0[k]);
    HintRecovers(g, Decompose(g, w[k]).0, r0[k] + ct0[k], v[k]);
  }

  lemma ResponseHolds(c: Poly, y: Vec, s1: Vec)
    requires |y| == |s1|
    ensures ResponseRelation(Response(c, y, s1), y, c, s1)
  {
    hide Cong, Product, Red;
    var z := Response(c, y, s1);
    forall l, k | 0 <= l < |z| && 0 <= k < 256
      ensures Cong(z[l][k], PAdd(y[l], Product(c, s1[l]))[k])
    {
      RedCong(Product(c, s1[l])[k] + y[l][k]);
    }
  }

  /** The verifier recovers exactly the w1 that was hashed. */
  lemma HighBitsRestored(p: Params, k: SecretKey, t1: Vec, a: seq<Vec>, y: Vec, c: Poly)
    requires IsMatrix(p, a) && |y| == |k.s1| == p.L() && |k.s2| == |k.t0| == |t1| == p.K()
    requires KeyHolds(a, k.s1, k.s2, t1, k.t0) && AllCanonical(Commitment(a, y))
    requires AllCanonical(VerifierVector(a, Response(c, y, k.s1), c, t1))
    requires NormBelow(LowResidue(c, VLowBits(p.Gamma2(), Commitment(a, y)), k.s2), p.Gamma2() - p.Beta())
    requires NormBelow(HintPart(c, k.t0), p.Gamma2())
    ensures var g, w := p.Gamma2(), Commitment(a, y);
            var w1 := VHighBits(g, w);
            var hint := VMakeHint(g, VAdd(LowResidue(c, VLowBits(g, w), k.s2), HintPart(c, k.t0)), w1);
            VUseHint(g, VerifierVector(a, Response(c, y, k.s1), c, t1), hint) == w1
  {
    hide Cong, RowTimes, RowMinus, Product, KeyRelation, ResponseRelation, Decompose, MakeHint, UseHint, PRed, PCaddq;
    var g, w, z := p.Gamma2(), Commitment(a, y), Response(c, y, k.s1);
    var w1, w0 := VHighBits(g, w), VLowBits(g, w);
    var r0, ct0 := LowResidue(c, w0, k.s2), HintPart(c, k.t0);
    var v, hint := VerifierVector(a, z, c, t1), VMakeHint(g, VAdd(r0, ct0), w1);
    ResponseHolds(c, y, k.s1);
    forall i | 0 <= i < |a|
      ensures PUseHint(g, v[i], hint[i]) == w1[i]
    {
      forall j | 0 <= j < 256
        ensures PUseHint(g, v[i], hint[i])[j] == w1[i][j]
      {
        RowRestored(g, a[i], z, y, c, k.s1, k.s2[i], t1[i], k.t0[i], w[i], v[i], r0[i], ct0[i], j);
      }
    }
  }

  // ---- Putting it together ----

  lemma {:induction false} LoopAttempt(p: Params, h: Hash, k: SecretKey, a: seq<Vec>, mu: seq<Byte>, rhoprime: seq<Byte>,
                                       nonce: nat, attempts: nat, n: nat) returns (used: nat)
    requires IsMatrix(p, a) && |k.s1| == p.L() && |k.s2| == |k.t0| == p.K()
    requires SignLoop(p, h, k, a, mu, rhoprime, nonce, attempts, n).Some?
    ensures SignAttempt(p, h, k, a, mu, rhoprime, used, n) ==
            Signed(SignLoop(p, h, k, a, mu, rhoprime, nonce, attempts, n).value)
    decreases attempts
  {
    hide SignAttempt;
    if SignAttempt(p, h, k, a, mu, rhoprime, nonce, n).Signed? {
      used := nonce;
    } else {
      used := LoopAttempt(p, h, k, a, mu, rhoprime, (nonce + 1) % 0x1_0000, attempts - 1, n);
    }
  }

  /** What verification checks, on the decoded signature. */
  ghost predicate Fulfilled(p: Params, h: Hash, a: seq<Vec>, t1: Vec, s: Signature, mu: seq<Byte>, n: nat)
    requires IsMatrix(p, a) && |t1| == p.K() && SmallT1(t1) && ValidSignature(p, s)
  {
    var c := Challenge(h.shake256, s.c, p.Tau(), n);
    c.Some? && Bounded(c.value, Q) && NormBelow(s.z, p.Gamma1() - p.Beta()) && AllBounded(s.z, Q) &&
    Recomputed(p, h, a, t1, s, c.value, mu) == s.c
  }

  /** The signature of one successful attempt has its own challenge seed recomputed by the verifier. */
  lemma AttemptVerifies(p: Params, h: Hash, k: SecretKey, t1: Vec, a: seq<Vec>, mu: seq<Byte>, rhoprime: seq<Byte>,
                        nonce: nat, n: nat)
    requires IsMatrix(p, a) && |k.s1| == p.L() && |k.s2| == |k.t0| == |t1| == p.K()
    requires KeyHolds(a, k.s1, k.s2, t1, k.t0) && SmallT1(t1)
    requires SignAttempt(p, h, k, a, mu, rhoprime, nonce, n).Signed?
    ensures Fulfilled(p, h, a, t1, SignAttempt(p, h, k, a, mu, rhoprime, nonce, n).sig, mu, n)
  {
    hide Mask, Commitment, KeyHolds, Challenge, Response, LowResidue, HintPart, NormBelow, VHighBits, VLowBits, VUseHint,
         VMakeHint, CountOnes, VerifierVector, ChallengeSeed, AllCanonical, AllBounded, SmallT1, Bounded, VecFits;
    var y := Mask(p, h, rhoprime, nonce);
    MaskBound(p, h, rhoprime, nonce);
    AllWiden(y, 0x8_0000, Q);
    CommitmentCanonical(p, a, y);
    var w := Commitment(a, y);
    HighBitsFit(p, w);
    var w1 := VHighBits(p.Gamma2(), w);
    var ct := ChallengeSeed(p, h, mu, w1);
    ChallengeBound(h.shake256, ct, p.Tau(), n);
    var c := Challenge(h.shake256, ct, p.Tau(), n).value;
    Widen(c, 1, Q);
    var z := Response(c, y, k.s1);
    NormBounded(z, p.Gamma1() - p.Beta());
    VerifierVectorCanonical(p, a, z, c, t1);
    HighBitsRestored(p, k, t1, a, y, c);
  }

  /** The signature that the rejection loop ends with. */
  lemma LoopVerifies(p: Params, h: Hash, k: SecretKey, t1: Vec, a: seq<Vec>, mu: seq<Byte>, rhoprime: seq<Byte>,
                     attempts: nat, n: nat)
    requires IsMatrix(p, a) && |k.s1| == p.L() && |k.s2| == |k.t0| == |t1| == p.K()
    requires KeyHolds(a, k.s1, k.s2, t1, k.t0) && SmallT1(t1)
    requires SignLoop(p, h, k, a, mu, rhoprime, 0, attempts, n).Some?
    ensures Fulfilled(p, h, a, t1, SignLoop(p, h, k, a, mu, rhoprime, 0, attempts, n).value, mu, n)
  {
    hide SignLoop, SignAttempt, KeyHolds, SmallT1, Fulfilled, IsMatrix;
    var nonce := LoopAttempt(p, h, k, a, mu, rhoprime, 0, attempts, n);
    AttemptVerifies(p, h, k, t1, a, mu, rhoprime, nonce, n);
  }

  /** Verification with streams of n2 blocks never rejects a signature that fulfils the equation for streams of n1. */
  lemma FulfilledDecides(p: Params, h: Hash, pk: seq<Byte>, m: seq<Byte>, ctx: seq<Byte>, s: Signature, n1: nat, n2: nat)
    requires |pk| == p.PkBytes() && |ctx| <= 255 && ValidSignature(p, s)
    requires var k := UnpackPk(p, pk);
             MatrixDone(p, h, k.rho, n1) && SmallT1(k.t1) &&
             Fulfilled(p, h, Matrix(p, h, k.rho, n1), k.t1, s, MessageRep(h, Shake(h, pk, 64), ctx, m), n1)
    ensures var v := Verify(p, h, pk, m, ctx, SignatureBytes(p, s), n2); v != Reject && (n1 <= n2 ==> v == Accept)
  {
    hide UnpackPk, UnpackSig, PackSig, Matrix, MatrixDone, Challenge, Recomputed, NormBelow, AllBounded, Bounded, SmallT1, Shake,
         MessageRep;
    var rho := UnpackPk(p, pk).rho;
    SigRoundTrip(p, s);
    if n1 <= n2 || (MatrixDone(p, h, rho, n2) && Challenge(h.shake256, s.c, p.Tau(), n2).Some?) {
      StreamsAgree(p, h, rho, s.c, n1, n2);
    }
  }

  /** Completeness: whatever signature signing emits with the secret key, verification accepts with the public key,
      for every parameter set, hash function, key seed, message, context, randomness and number of attempts. It never
      rejects it, and it decides as soon as its streams are as long as the signer's. */
  lemma Complete(p: Params, h: Hash, seed: seq<Byte>, n0: nat, m: seq<Byte>, ctx: seq<Byte>, rnd: seq<Byte>,
                 attempts: nat, n1: nat, n2: nat)
    requires |seed| == 32 && |rnd| == 32
    ensures KeyGen(p, h, seed, n0).Some? ==>
              var keys := KeyGen(p, h, seed, n0).value;
              var r := Sign(p, h, keys.sk, m, ctx, rnd, attempts, n1);
              r.Ok? ==> var v := Verify(p, h, keys.pk, m, ctx, r.sig, n2); v != Reject && (n1 <= n2 ==> v == Accept)
  {
    hide KeyGen, UnpackPk, UnpackSk, Matrix, MatrixDone, SignLoop, KeyHolds, SmallT1, Shake, MessageRep, Verify, Fulfilled,
         ValidSignature, SignatureBytes;
    if KeyGen(p, h, seed, n0).Some? {
      var keys := KeyGen(p, h, seed, n0).value;
      KeyGenCorrect(p, h, seed, n0);
      if Sign(p, h, keys.sk, m, ctx, rnd, attempts, n1).Ok? {
        var k, pub := UnpackSk(p, keys.sk), UnpackPk(p, keys.pk);
        var mu := MessageRep(h, k.tr, ctx, m);
        var rhoprime := Shake(h, k.key + rnd + mu, 64);
        MatrixSame(p, h, k.rho, n0, n1);
        PublicT1(p, keys.pk);
        var a := Matrix(p, h, k.rho, n1);
        LoopVerifies(p, h, k, pub.t1, a, mu, rhoprime, attempts, n1);
        FulfilledDecides(p, h, keys.pk, m, ctx, SignLoop(p, h, k, a, mu, rhoprime, 0, attempts, n1).value, n1, n2);
      }
    }
  }
}
