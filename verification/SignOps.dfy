/** sign.c: key generation, signing and verification by the in-place operations. */
module SignOps {
  import opened Arith
  import opened Rounding
  import opened NttSpec
  import opened NttInverse
  import opened NttProduct
  import opened PolySpec
  import opened Ranges
  import opened BitPack
  import opened HintCode
  import opened Options
  import opened Params
  import opened Encodings
  import opened Sampling
  import opened InBall
  import opened Scheme
  import opened PolyVecs
  import opened PackOps
  import opened KeyOps
  import K = Keccak
  import SpongeOps
  import opened Shakes

  // ---- Sampling vectors and matrices ----

  /** polyvec_matrix_expand */
  method ExpandMatrix(p: Params, h: Hash, rho: seq<Byte>, n: nat) returns (a: Option<seq<Vec>>)
    ensures a == if MatrixDone(p, h, rho, n) then Some(Matrix(p, h, rho, n)) else None
  {
    hide UniformPoly, Canonical;
    var mat: seq<Vec> := [];
    for i := 0 to p.K()
      invariant |mat| == i
      invariant forall k, l :: 0 <= k < i && 0 <= l < p.L() ==> MatrixEntry(h, rho, k, l, n).Some?
      invariant forall k :: 0 <= k < i ==> mat[k] == EntryRow(p, h, rho, k, n)
    {
      var row: Vec := [];
      for j := 0 to p.L()
        invariant |row| == j
        invariant forall l :: 0 <= l < j ==> MatrixEntry(h, rho, i, l, n) == Some(row[l])
      {
        var e := PolyUniform(h.shake128, rho, (256 * i + j) % 0x1_0000, n);
        assert e == MatrixEntry(h, rho, i, j, n);
        if e.None? {
          return None;
        }
        row := row + [e.value];
      }
      assert row == EntryRow(p, h, rho, i, n);
      mat := mat + [row];
    }
    a := Some(mat);
    assert mat == Matrix(p, h, rho, n);
  }

  ghost function EntryRow(p: Params, h: Hash, rho: seq<Byte>, i: nat, n: nat): Vec
    requires forall l :: 0 <= l < p.L() ==> MatrixEntry(h, rho, i, l, n).Some?
  {
    seq(p.L(), j requires 0 <= j < p.L() => MatrixEntry(h, rho, i, j, n).value)
  }

  /** polyvec_uniform_eta: the nonce counts up from first. */
  method ExpandEta(p: Params, h: Hash, seed: seq<Byte>, first: nat, count: nat, n: nat) returns (v: Option<Vec>)
    ensures v == if EtaDone(p, h, seed, first, count, n) then Some(EtaVec(p, h, seed, first, count, n)) else None
  {
    hide UniformEta, Bounded;
    var s: Vec := [];
    for i := 0 to count
      invariant |s| == i
      invariant forall k: nat :: first <= k < first + i ==> EtaEntry(p, h, seed, k, n) == Some(s[k - first])
    {
      var e := PolyUniformEta(h.shake256, seed, (first + i) % 0x1_0000, p.Eta(), n);
      assert e == EtaEntry(p, h, seed, first + i, n);
      if e.None? {
        return None;
      }
      s := s + [e.value];
    }
    v := Some(s);
    assert s == EtaVec(p, h, seed, first, count, n);
  }

  /** polyvecl_uniform_gamma1 */
  method ExpandMask(p: Params, h: Hash, seed: seq<Byte>, nonce: nat) returns (y: Vec)
    ensures y == Mask(p, h, seed, nonce)
  {
    hide MaskEntry, UnpackPoly, Squeeze, AllFit;
    y := [];
    for i := 0 to p.L()
      invariant |y| == i
      invariant forall k :: 0 <= k < i ==> y[k] == MaskEntry(p, h, seed, MaskNonce(p, nonce, k))
    {
      var m := p.L() * nonce + i;
      var buf := new Byte[PolyBytes(p.ZFormat())](i => 0);
      SqueezeInto(buf, 0, h.shake256, seed + Nonce(m % 0x1_0000), 0, buf.Length);
      assert buf[..] == buf[0..0 + buf.Length];
      var e := UnpackPolyAt(p.ZFormat(), buf[..], 0);
      MaskEntryIs(p, h, seed, m, buf[..]);
      assert buf[..][0..0 + PolyBytes(p.ZFormat())] == buf[..];
      y := y + [e];
    }
    assert y == Mask(p, h, seed, nonce);
  }

  method ShakeBytes(f: K.Permutation, input: seq<Byte>, n: nat) returns (h: seq<Byte>)
    ensures h == Shake(ShakeHash(f), input, n)
  {
    hide K.OneShot, Squeeze;
    h := SpongeOps.Shake(f, SHAKE256_RATE, input, n);
    StreamIsOneShot(f, SHAKE256_RATE, input, n);
  }

  function ZeroVec(n: nat): Vec { seq(n, i => ZeroPoly()) }

  // ---- The vectors of the specification, as the operations compute them ----

  lemma KeyVectorSteps(p: Params, a: seq<Vec>, s1: Vec, s2: Vec)
    requires IsMatrix(p, a) && |s1| == p.L() && |s2| == p.K()
    ensures VCaddq(VAdd(VInverse(VRed(VMat(a, VForward(s1)))), s2)) == KeyVector(a, s1, s2)
  {
    hide Forward, Inverse, Acc, PRed, PCaddq, PAdd;
  }

  lemma CommitmentSteps(p: Params, a: seq<Vec>, y: Vec)
    requires IsMatrix(p, a) && |y| == p.L()
    ensures VCaddq(VInverse(VRed(VMat(a, VForward(y))))) == Commitment(a, y)
  {
    hide Forward, Inverse, Acc, PRed, PCaddq;
  }

  lemma ResponseSteps(c: Poly, y: Vec, s1: Vec)
    requires |y| == |s1|
    ensures VRed(VAdd(VInverse(VPointwise(Forward(c), VForward(s1))), y)) == Response(c, y, s1)
  {
    hide Forward, Inverse, Pointwise, PRed, PAdd;
  }

  lemma LowResidueSteps(c: Poly, w0: Vec, s2: Vec)
    requires |w0| == |s2|
    ensures VRed(VSub(w0, VInverse(VPointwise(Forward(c), VForward(s2))))) == LowResidue(c, w0, s2)
  {
    hide Forward, Inverse, Pointwise, PRed, PSub;
  }

  lemma HintPartSteps(c: Poly, t0: Vec)
    ensures VRed(VInverse(VPointwise(Forward(c), VForward(t0)))) == HintPart(c, t0)
  {
    hide Forward, Inverse, Pointwise, PRed;
  }

  lemma VerifierSteps(p: Params, a: seq<Vec>, z: Vec, c: Poly, t1: Vec)
    requires IsMatrix(p, a) && |z| == p.L() && |t1| == p.K()
    ensures VCaddq(VInverse(VRed(VSub(VMat(a, VForward(z)), VPointwise(Forward(c), VForward(VShift(t1))))))) ==
            VerifierVector(a, z, c, t1)
  {
    hide Forward, Inverse, Pointwise, PRed, PSub, PCaddq, PShift, Acc;
  }

  // ---- Key generation ----

  /** A * s1 + s2 by the in-place operations; every intermediate value fits 32 bits. */
  method ComputeKeyVector(p: Params, mat: seq<Vec>, s1: Vec, s2: Vec) returns (t1: PolyVec)
    requires IsMatrix(p, mat) && |s1| == p.L() && |s2| == p.K() && AllBounded(s1, 4) && AllBounded(s2, 4)
    ensures fresh(t1) && t1.vec == KeyVector(mat, s1, s2) && AllCanonical(t1.vec)
  {
    hide IsMatrix, AllBounded, AllCanonical, VForward, VMat, VRed, VInverse, VAdd, VCaddq, KeyVector, ZeroVec;
    var s1hat := new PolyVec(s1);
    AllWiden(s1, 4, Q);
    s1hat.NttAll();
    VForwardLength(s1);
    MatrixLength(p, mat);
    t1 := new PolyVec(ZeroVec(p.K()));
    ZeroVecLength(p.K());
    t1.MatrixPointwise(p, mat, s1hat);
    AllWiden(t1.vec, 7 * (Q - 1), REDMAX);
    t1.Reduce();
    AllWiden(t1.vec, 6283009, Q - 1);
    t1.InvNttAll();
    var s2v := new PolyVec(s2);
    VectorLengths(mat, s1);
    t1.Add(t1, s2v, 4211177, 4);
    AllWiden(t1.vec, 4211181, Q - 1);
    t1.Caddq();
    KeyVectorSteps(p, mat, s1, s2);
  }

  lemma VForwardLength(v: Vec)
    ensures |VForward(v)| == |v|
  {
  }

  lemma ZeroVecLength(n: nat)
    ensures |ZeroVec(n)| == n
  {
  }

  lemma VectorLengths(a: seq<Vec>, v: Vec)
    requires 0 < |v| && forall i :: 0 <= i < |a| ==> |a[i]| == |VForward(v)|
    ensures |VForward(v)| == |v| && |VMat(a, VForward(v))| == |VInverse(VRed(VMat(a, VForward(v))))| == |a|
  {
    hide Forward, Inverse, Acc, PRed;
  }

  method WriteKeys(p: Params, f: K.Permutation, rho: seq<Byte>, key: seq<Byte>, mat: seq<Vec>, s1: Vec, s2: Vec)
    returns (r: KeyPair)
    requires |rho| == 32 && |key| == 32 && IsMatrix(p, mat) && |s1| == p.L() && |s2| == p.K()
    requires AllBounded(s1, p.Eta()) && AllBounded(s2, p.Eta())
    ensures r == AssembleKeys(p, ShakeHash(f), rho, key, mat, s1, s2)
  {
    hide KeyVector, ShakeHash, Shake, PackPk, PackSk, IsMatrix, AllBounded, AllCanonical, VHigh, VLow, VecFits, ZeroVec;
    AllWiden(s1, p.Eta(), 4);
    AllWiden(s2, p.Eta(), 4);
    KeyVectorCanonical(p, mat, s1, s2) by { MatrixLength(p, mat); }
    MatrixLength(p, mat);
    var t1 := ComputeKeyVector(p, mat, s1, s2);
    var t0 := new PolyVec(ZeroVec(p.K()));
    ZeroVecLength(p.K());
    ghost var t := t1.vec;
    t1.Power2Round(t0);
    KeyPartsFit(p, t);
    EtaFits(p, s1);
    EtaFits(p, s2);
    HighLength(t);
    var pk := PackPublicKey(p, PublicKey(rho, t1.vec));
    var tr := ShakeBytes(f, pk, 64);
    var sk := PackSecretKey(p, SecretKey(rho, key, tr, s1, s2, t0.vec));
    r := KeyPair(pk, sk);
  }

  lemma HighLength(t: Vec)
    requires AllCanonical(t)
    ensures |VHigh(t)| == |VLow(t)| == |t|
  {
  }

  /** crypto_sign_keypair, from 32 random bytes. */
  method KeyPairFrom(p: Params, f: K.Permutation, seed: seq<Byte>, n: nat) returns (r: Option<KeyPair>)
    requires |seed| == 32
    ensures r == KeyGen(p, ShakeHash(f), seed, n)
  {
    hide Matrix, MatrixDone, EtaVec, EtaDone, KeyVector, ShakeHash, Shake, PackPk, PackSk, IsMatrix, AllBounded,
         AllCanonical, VHigh, VLow, PublicPart, SecretPart;
    var b := ShakeBytes(f, seed + [p.K(), p.L()], 128);
    var rho, rhoprime, key := b[..32], b[32..96], b[96..];
    var mat := ExpandMatrix(p, ShakeHash(f), rho, n);
    var s1 := ExpandEta(p, ShakeHash(f), rhoprime, 0, p.L(), n);
    var s2 := ExpandEta(p, ShakeHash(f), rhoprime, p.L(), p.K(), n);
    if mat.None? || s1.None? || s2.None? {
      return None;
    }
    var keys := WriteKeys(p, f, rho, key, mat.value, s1.value, s2.value);
    r := Some(keys);
  }

  // ---- Signing ----

  lemma LowBitsBound(g: int, w: Vec)
    requires IsGamma2(g) && AllCanonical(w)
    ensures |VLowBits(g, w)| == |VHighBits(g, w)| == |w| && AllBounded(VLowBits(g, w), 261888)
  {
    hide Decompose;
    forall i, k | 0 <= i < |w| && 0 <= k < 256
      ensures -261888 <= VLowBits(g, w)[i][k] <= 261888
    {
      assert VLowBits(g, w)[i][k] == Decompose(g, w[i][k]).1;
    }
  }

  /** A * y by the in-place operations. */
  method ComputeCommitment(p: Params, mat: seq<Vec>, y: Vec) returns (w1: PolyVec)
    requires IsMatrix(p, mat) && |y| == p.L() && AllBounded(y, 0x8_0000)
    ensures fresh(w1) && w1.vec == Commitment(mat, y) && AllCanonical(w1.vec)
  {
    hide IsMatrix, AllBounded, AllCanonical, VForward, VMat, VRed, VInverse, VCaddq, Commitment, ZeroVec;
    var z := new PolyVec(y);
    AllWiden(y, 0x8_0000, Q);
    z.NttAll();
    VForwardLength(y);
    MatrixLength(p, mat);
    w1 := new PolyVec(ZeroVec(p.K()));
    ZeroVecLength(p.K());
    w1.MatrixPointwise(p, mat, z);
    AllWiden(w1.vec, 7 * (Q - 1), REDMAX);
    w1.Reduce();
    AllWiden(w1.vec, 6283009, Q - 1);
    w1.InvNttAll();
    AllWiden(w1.vec, 4211177, Q - 1);
    w1.Caddq();
    CommitmentSteps(p, mat, y);
  }

  /** polyveck_pack_w1 and the hash of mu and the packed bytes. */
  method ComputeChallengeSeed(p: Params, f: K.Permutation, mu: seq<Byte>, w1: Vec) returns (ct: seq<Byte>)
    requires VecFits(p.W1Format(), w1)
    ensures ct == ChallengeSeed(p, ShakeHash(f), mu, w1)
  {
    hide Written, PackVec, VecFits, ShakeHash, Squeeze;
    var buf := new Byte[|w1| * PolyBytes(p.W1Format())](i => 0);
    ghost var start: seq<Byte> := buf[..];
    PackVecAt(p.W1Format(), buf, 0, w1);
    WrittenWhole(start, PackVec(p.W1Format(), w1));
    ct := HashPieces(f, mu, buf[..], [], [], p.CTildeBytes());
    assert mu + buf[..] + [] + [] == mu + PackVec(p.W1Format(), w1);
  }

  /** y + c * s1: cp and s1hat are transforms. */
  method ComputeResponse(cp: array<Int32>, ghost c: Poly, s1hat: PolyVec, ghost s1: Vec, y: Vec) returns (z: PolyVec)
    requires cp.Length == 256 && cp[..] == Forward(c) && Bounded(cp[..], 9 * Q)
    requires |s1| == |y| && s1hat.vec == VForward(s1) && AllBounded(s1hat.vec, 9 * Q) && AllBounded(y, 0x8_0000)
    ensures fresh(z) && z.vec == Response(c, y, s1) && AllBounded(z.vec, 6283009)
  {
    hide Bounded, AllBounded, VForward, VPointwise, VRed, VInverse, VAdd, Forward, Response, ZeroVec;
    VForwardLength(s1);
    z := new PolyVec(ZeroVec(|y|));
    ZeroVecLength(|y|);
    z.PointwisePoly(cp, s1hat);
    PointwiseLength(Forward(c), VForward(s1));
    z.InvNttAll();
    var yv := new PolyVec(y);
    z.Add(z, yv, 4211177, 0x8_0000);
    AllWiden(z.vec, 4211177 + 0x8_0000, REDMAX);
    z.Reduce();
    ResponseSteps(c, y, s1);
  }

  lemma PointwiseLength(c: Poly, v: Vec)
    ensures |VPointwise(c, v)| == |VInverse(VPointwise(c, v))| == |v|
  {
    hide Pointwise, Inverse;
  }

  /** w0 - c * s2, in place. */
  method UpdateLow(p: Params, cp: array<Int32>, ghost c: Poly, s2hat: PolyVec, ghost s2: Vec, w0: PolyVec)
    requires cp.Length == 256 && cp[..] == Forward(c) && Bounded(cp[..], 9 * Q) && w0 != s2hat
    requires |s2| == |w0.vec| == p.K() && s2hat.vec == VForward(s2) && AllBounded(s2hat.vec, 9 * Q)
    requires AllBounded(w0.vec, 261888)
    modifies w0
    ensures w0.vec == LowResidue(c, old(w0.vec), s2) && AllBounded(w0.vec, 6283009)
  {
    hide Bounded, AllBounded, VForward, VPointwise, VRed, VInverse, VSub, Forward, LowResidue, ZeroVec;
    VForwardLength(s2);
    var h := new PolyVec(ZeroVec(p.K()));
    ZeroVecLength(p.K());
    h.PointwisePoly(cp, s2hat);
    PointwiseLength(Forward(c), VForward(s2));
    h.InvNttAll();
    w0.Sub(w0, h, 261888, 4211177);
    AllWiden(w0.vec, 261888 + 4211177, REDMAX);
    w0.Reduce();
    LowResidueSteps(c, old(w0.vec), s2);
  }

  /** c * t0 */
  method ComputeHintPart(p: Params, cp: array<Int32>, ghost c: Poly, t0hat: PolyVec, ghost t0: Vec) returns (h: PolyVec)
    requires cp.Length == 256 && cp[..] == Forward(c) && Bounded(cp[..], 9 * Q)
    requires |t0| == p.K() && t0hat.vec == VForward(t0) && AllBounded(t0hat.vec, 9 * Q)
    ensures fresh(h) && h.vec == HintPart(c, t0) && AllBounded(h.vec, 6283009)
  {
    hide Bounded, AllBounded, VForward, VPointwise, VRed, VInverse, Forward, HintPart, ZeroVec;
    VForwardLength(t0);
    h := new PolyVec(ZeroVec(p.K()));
    ZeroVecLength(p.K());
    h.PointwisePoly(cp, t0hat);
    h.InvNttAll();
    AllWiden(h.vec, 4211177, REDMAX);
    h.Reduce();
    HintPartSteps(c, t0);
  }

  /** The secret vectors of a key, transformed. */
  ghost predicate SecretsReady(p: Params, k: SecretKey, s1hat: PolyVec, s2hat: PolyVec, t0hat: PolyVec)
    reads s1hat, s2hat, t0hat
  {
    |k.s1| == p.L() && |k.s2| == |k.t0| == p.K() &&
    s1hat.vec == VForward(k.s1) && s2hat.vec == VForward(k.s2) && t0hat.vec == VForward(k.t0) &&
    AllBounded(s1hat.vec, 9 * Q) && AllBounded(s2hat.vec, 9 * Q) && AllBounded(t0hat.vec, 9 * Q)
  }

  /** The body of the rejection loop after the challenge: the four checks, in the order of the program. */
  method RespondWith(p: Params, ghost k: SecretKey, s1hat: PolyVec, s2hat: PolyVec, t0hat: PolyVec, ct: seq<Byte>, c: Poly,
                     y: Vec, w1: PolyVec, w0: PolyVec)
    returns (r: Attempt)
    requires SecretsReady(p, k, s1hat, s2hat, t0hat) && |ct| == p.CTildeBytes() && Bounded(c, 1)
    requires |y| == p.L() && |w1.vec| == |w0.vec| == p.K() && AllBounded(y, 0x8_0000)
    requires AllBounded(w1.vec, 0x7fff_ffff) && AllBounded(w0.vec, 261888)
    requires w0 != w1 && w0 !in {s1hat, s2hat, t0hat} && w1 !in {s1hat, s2hat, t0hat}
    modifies w0
    ensures r == Respond(p, k, ct, c, y, old(w1.vec), old(w0.vec))
  {
    hide Bounded, AllBounded, VForward, Forward, Response, LowResidue, HintPart, NormBelow, VMakeHint, VAdd, CountOnes, Eval, OutRoot, Cong;
    ghost var low := w0.vec;
    Widen(c, 1, Q);
    Widen(c, 1, 0x7fff_ffff);
    var cp := Load(c);
    N.Ntt(cp, 1);
    TransformBound(c);
    var z := ComputeResponse(cp, c, s1hat, k.s1, y);
    AllWiden(z.vec, 6283009, 0x3fff_ffff);
    ResponseLength(c, y, k.s1);
    var violated := z.ChkNorm(p.Gamma1() - p.Beta());
    if violated {
      return Rejected;
    }
    UpdateLow(p, cp, c, s2hat, k.s2, w0);
    AllWiden(w0.vec, 6283009, 0x3fff_ffff);
    LowResidueLength(c, low, k.s2);
    violated := w0.ChkNorm(p.Gamma2() - p.Beta());
    if violated {
      return Rejected;
    }
    var h := ComputeHintPart(p, cp, c, t0hat, k.t0);
    AllWiden(h.vec, 6283009, 0x3fff_ffff);
    HintPartLength(c, k.t0);
    violated := h.ChkNorm(p.Gamma2());
    if violated {
      return Rejected;
    }
    w0.Add(w0, h, 6283009, 6283009);
    AllWiden(w0.vec, 6283009 + 6283009, 0x7fff_ffff);
    SumLength(LowResidue(c, low, k.s2), HintPart(c, k.t0));
    var n := h.MakeHint(p.Gamma2(), w0, w1);
    if n > p.Omega() {
      return Rejected;
    }
    r := Signed(Signature(ct, z.vec, h.vec));
  }

  lemma ResponseLength(c: Poly, y: Vec, s1: Vec)
    requires |y| == |s1|
    ensures |Response(c, y, s1)| == |y|
  {
  }

  lemma LowResidueLength(c: Poly, w0: Vec, s2: Vec)
    requires |w0| == |s2|
    ensures |LowResidue(c, w0, s2)| == |w0|
  {
  }

  lemma HintPartLength(c: Poly, t0: Vec)
    ensures |HintPart(c, t0)| == |t0|
  {
  }

  lemma SumLength(u: Vec, v: Vec)
    requires |u| == |v|
    ensures |VAdd(u, v)| == |v|
  {
  }

  /** One pass of the rejection loop. */
  method AttemptWith(p: Params, f: K.Permutation, ghost k: SecretKey, s1hat: PolyVec, s2hat: PolyVec, t0hat: PolyVec,
                     mat: seq<Vec>, mu: seq<Byte>, rhoprime: seq<Byte>, nonce: nat, n: nat)
    returns (r: Attempt)
    requires SecretsReady(p, k, s1hat, s2hat, t0hat) && IsMatrix(p, mat)
    ensures r == SignAttempt(p, ShakeHash(f), k, mat, mu, rhoprime, nonce, n)
  {
    hide IsMatrix, AllBounded, Bounded, AllCanonical, VHighBits, VLowBits, Commitment, Mask, Challenge, ShakeHash,
         ChallengeSeed, Respond, VecFits, ZeroVec, VForward;
    var y := ExpandMask(p, ShakeHash(f), rhoprime, nonce);
    MaskBound(p, ShakeHash(f), rhoprime, nonce);
    AllWiden(y, 0x8_0000, Q);
    MatrixLength(p, mat);
    CommitmentCanonical(p, mat, y);
    HighBitsFit(p, Commitment(mat, y));
    var w1 := ComputeCommitment(p, mat, y);
    var w0 := new PolyVec(ZeroVec(p.K()));
    ZeroVecLength(p.K());
    ghost var w := w1.vec;
    w1.Decompose(p.Gamma2(), w0);
    LowBitsBound(p.Gamma2(), w);
    HighBitsBound(p.Gamma2(), w);
    var ct := ComputeChallengeSeed(p, f, mu, w1.vec);
    var c := PolyChallenge(ShakeHash(f).shake256, ct, p.Tau(), n);
    if c.None? {
      return Stuck;
    }
    ChallengeBound(ShakeHash(f).shake256, ct, p.Tau(), n);
    r := RespondWith(p, k, s1hat, s2hat, t0hat, ct, c.value, y, w1, w0);
  }

  lemma HighBitsBound(g: int, w: Vec)
    requires IsGamma2(g) && AllCanonical(w)
    ensures AllBounded(VHighBits(g, w), 0x7fff_ffff)
  {
    hide Decompose;
    forall i, k | 0 <= i < |w| && 0 <= k < 256
      ensures -0x7fff_ffff <= VHighBits(g, w)[i][k] <= 0x7fff_ffff
    {
      assert VHighBits(g, w)[i][k] == Decompose(g, w[i][k]).0;
    }
  }

  /** The rejection loop, at most attempts times; the nonce is 16 bits wide. */
  method RejectionLoop(p: Params, f: K.Permutation, ghost k: SecretKey, s1hat: PolyVec, s2hat: PolyVec, t0hat: PolyVec,
                       mat: seq<Vec>, mu: seq<Byte>, rhoprime: seq<Byte>, attempts: nat, n: nat)
    returns (r: Option<Signature>)
    requires SecretsReady(p, k, s1hat, s2hat, t0hat) && IsMatrix(p, mat)
    ensures r == SignLoop(p, ShakeHash(f), k, mat, mu, rhoprime, 0, attempts, n)
  {
    hide SignLoop, SignAttempt, ShakeHash, IsMatrix;
    var nonce, left := 0, attempts;
    ghost var h := ShakeHash(f);
    while left > 0
      invariant 0 <= left <= attempts && 0 <= nonce < 0x1_0000
      invariant SignLoop(p, h, k, mat, mu, rhoprime, nonce, left, n) ==
                SignLoop(p, h, k, mat, mu, rhoprime, 0, attempts, n)
    {
      LoopStep(p, h, k, mat, mu, rhoprime, nonce, left, n);
      var r' := AttemptWith(p, f, k, s1hat, s2hat, t0hat, mat, mu, rhoprime, nonce, n);
      match r'
      case Stuck => return None;
      case Signed(s) => return Some(s);
      case Rejected =>
        nonce := (nonce + 1) % 0x1_0000;
        left := left - 1;
    }
    LoopStep(p, h, k, mat, mu, rhoprime, nonce, 0, n);
    r := None;
  }

  /** The two bytes between the key hash and the context: zero, and the context length. */
  method HashMessage(f: K.Permutation, tr: seq<Byte>, ctx: seq<Byte>, m: seq<Byte>) returns (mu: seq<Byte>)
    requires |ctx| <= 255
    ensures mu == MessageRep(ShakeHash(f), tr, ctx, m)
  {
    hide ShakeHash, Squeeze;
    mu := HashPieces(f, tr, [0, |ctx|], ctx, m, 64);
  }

  /** crypto_sign_signature_ctx, with 32 random bytes. */
  method SignMessage(p: Params, f: K.Permutation, sk: seq<Byte>, m: seq<Byte>, ctx: seq<Byte>, rnd: seq<Byte>,
                     attempts: nat, n: nat)
    returns (r: SignResult)
    requires |sk| == p.SkBytes() && |rnd| == 32
    ensures r == Sign(p, ShakeHash(f), sk, m, ctx, rnd, attempts, n)
  {
    hide ShakeHash, Shake, UnpackSk, Matrix, MatrixDone, SignLoop, IsMatrix, AllBounded, VForward, PackSig, UnpackSig,
         ValidSignature, MessageRep;
    if |ctx| > 255 {
      return ContextTooLong;
    }
    var k := UnpackSecretKey(p, sk);
    var mu := HashMessage(f, k.tr, ctx, m);
    var rhoprime := ShakeBytes(f, k.key + rnd + mu, 64);
    var mat := ExpandMatrix(p, ShakeHash(f), k.rho, n);
    if mat.None? {
      return Unfinished;
    }
    SecretBound(p, sk);
    var s1hat := new PolyVec(k.s1);
    var s2hat := new PolyVec(k.s2);
    var t0hat := new PolyVec(k.t0);
    s1hat.NttAll();
    s2hat.NttAll();
    t0hat.NttAll();
    var s := RejectionLoop(p, f, k, s1hat, s2hat, t0hat, mat.value, mu, rhoprime, attempts, n);
    if s.None? {
      return Unfinished;
    }
    var b := PackSignature(p, s.value);
    r := SignResult.Ok(b);
  }

  // ---- Verification ----

  /** The polynomial arithmetic of verification, in place, and the recomputed challenge seed. */
  method RecomputeSeed(p: Params, f: K.Permutation, mat: seq<Vec>, t1: Vec, s: Signature, c: Poly, mu: seq<Byte>)
    returns (c2: seq<Byte>)
    requires IsMatrix(p, mat) && |s.z| == p.L() && |t1| == |s.h| == p.K()
    requires AllBounded(s.z, Q) && Bounded(c, 1) && SmallT1(t1) && AllBounded(s.h, 1)
    ensures Bounded(c, Q) && c2 == Recomputed(p, ShakeHash(f), mat, t1, s, c, mu)
  {
    hide IsMatrix, Bounded, AllBounded, AllCanonical, SmallT1, VForward, VMat, VRed, VInverse, VCaddq, VSub, VShift,
         VPointwise, VUseHint, VerifierVector, VecFits, ChallengeSeed, ShakeHash, Forward, ZeroVec, Eval, OutRoot, Cong;
    Widen(c, 1, Q);
    Widen(c, 1, 0x7fff_ffff);
    MatrixLength(p, mat);
    VForwardLength(s.z);
    var z := new PolyVec(s.z);
    z.NttAll();
    var w1 := new PolyVec(ZeroVec(p.K()));
    ZeroVecLength(p.K());
    w1.MatrixPointwise(p, mat, z);
    var cp := Load(c);
    N.Ntt(cp, 1);
    TransformBound(c);
    var t := new PolyVec(t1);
    ShiftLength(t1);
    t.Shiftl();
    t.NttAll();
    t.PointwisePoly(cp, t);
    PointwiseLength(Forward(c), VForward(VShift(t1)));
    MatVecLength(mat, VForward(s.z));
    w1.Sub(w1, t, 7 * (Q - 1), Q - 1);
    AllWiden(w1.vec, 7 * (Q - 1) + (Q - 1), REDMAX);
    w1.Reduce();
    AllWiden(w1.vec, 6283009, Q - 1);
    w1.InvNttAll();
    AllWiden(w1.vec, 4211177, Q - 1);
    w1.Caddq();
    VerifierSteps(p, mat, s.z, c, t1);
    VerifierLength(mat, s.z, c, t1);
    var h := new PolyVec(s.h);
    AllWiden(s.h, 1, 0x7fff_ffff);
    HintedFit(p, w1.vec, s.h);
    w1.UseHint(p.Gamma2(), h);
    VerifierVectorCanonical(p, mat, s.z, c, t1);
    c2 := ComputeChallengeSeed(p, f, mu, w1.vec);
  }

  lemma ShiftLength(v: Vec)
    ensures |VShift(v)| == |VForward(VShift(v))| == |v|
  {
  }

  lemma MatVecLength(a: seq<Vec>, v: Vec)
    requires 0 < |v| && forall i :: 0 <= i < |a| ==> |a[i]| == |v|
    ensures |VMat(a, v)| == |a|
  {
  }

  lemma VerifierLength(a: seq<Vec>, z: Vec, c: Poly, t1: Vec)
    requires |a| == |t1| && 0 < |z| && forall i :: 0 <= i < |a| ==> |a[i]| == |z|
    ensures |VerifierVector(a, z, c, t1)| == |a|
  {
  }

  lemma HintsBound(h: Vec)
    requires AllHints(h)
    ensures AllBounded(h, 1)
  {
    forall i, k | 0 <= i < |h| && 0 <= k < 256
      ensures -1 <= h[i][k] <= 1
    {
      assert IsHint(h[i]);
    }
  }

  /** crypto_sign_verify_ctx */
  method VerifyMessage(p: Params, f: K.Permutation, pk: seq<Byte>, m: seq<Byte>, ctx: seq<Byte>, sig: seq<Byte>, n: nat)
    returns (r: Verdict)
    requires |pk| == p.PkBytes()
    ensures r == Verify(p, ShakeHash(f), pk, m, ctx, sig, n)
  {
    hide ShakeHash, Shake, UnpackPk, UnpackSig, Matrix, MatrixDone, IsMatrix, AllBounded, MessageRep, NormBelow, Bounded,
         Challenge, SmallT1, Recomputed, AllHints, VecFits, CountOnes, PackSig;
    if |ctx| > 255 || |sig| != p.SigBytes() {
      return Reject;
    }
    var k := UnpackPublicKey(p, pk);
    var s := UnpackSignature(p, sig);
    if s.None? {
      return Reject;
    }
    SigCanonical(p, sig);
    HintsBound(s.value.h);
    SignatureBound(p, s.value);
    var z := new PolyVec(s.value.z);
    var violated := z.ChkNorm(p.Gamma1() - p.Beta());
    if violated {
      return Reject;
    }
    NormBounded(s.value.z, p.Gamma1() - p.Beta());
    var tr := ShakeBytes(f, pk, 64);
    var mu := HashMessage(f, tr, ctx, m);
    var c := PolyChallenge(ShakeHash(f).shake256, s.value.c, p.Tau(), n);
    if c.None? {
      return Undecided;
    }
    var mat := ExpandMatrix(p, ShakeHash(f), k.rho, n);
    if mat.None? {
      return Undecided;
    }
    ChallengeBound(ShakeHash(f).shake256, s.value.c, p.Tau(), n);
    PublicT1(p, pk);
    var c2 := RecomputeSeed(p, f, mat.value, k.t1, s.value, c.value, mu);
    r := if c2 == s.value.c then Accept else Reject;
  }

  lemma SignatureBound(p: Params, s: Signature)
    requires ValidSignature(p, s)
    ensures AllBounded(s.z, 0x3fff_ffff)
  {
    forall i, k | 0 <= i < |s.z| && 0 <= k < 256
      ensures -0x3fff_ffff <= s.z[i][k] <= 0x3fff_ffff
    {
      assert Fits(p.ZFormat(), s.z[i][k]);
    }
  }
}
