/** sign.c on values: key generation, signing and verification. */
module Scheme {
  import opened Arith
  import opened Rounding
  import opened PolySpec
  import opened SignAlgebra
  import opened Ranges
  import opened BitPack
  import opened HintCode
  import opened Options
  import opened Params
  import opened Encodings
  import opened Sampling
  import opened InBall

  function MatrixEntry(h: Hash, rho: seq<Byte>, i: nat, j: nat, n: nat): (r: Option<Poly>)
    ensures r.Some? ==> Canonical(r.value)
  {
    UniformPoly(h.shake128, rho, (256 * i + j) % 0x1_0000, n)
  }

  predicate MatrixDone(p: Params, h: Hash, rho: seq<Byte>, n: nat)
  {
    forall i, j :: 0 <= i < p.K() && 0 <= j < p.L() ==> MatrixEntry(h, rho, i, j, n).Some?
  }

  ghost predicate IsMatrix(p: Params, a: seq<Vec>)
  {
    |a| == p.K() && forall i :: 0 <= i < |a| ==> |a[i]| == p.L() && AllCanonical(a[i])
  }

  lemma MatrixLength(p: Params, a: seq<Vec>)
    requires IsMatrix(p, a)
    ensures |a| == p.K() && forall i :: 0 <= i < |a| ==> |a[i]| == p.L()
  {
  }

  function MatrixRow(p: Params, h: Hash, rho: seq<Byte>, i: nat, n: nat): (r: Vec)
    requires MatrixDone(p, h, rho, n) && i < p.K()
    ensures |r| == p.L() && AllCanonical(r)
  {
    seq(p.L(), j requires 0 <= j < p.L() => MatrixEntry(h, rho, i, j, n).value)
  }

  /** The public matrix that a seed stands for, in the transform domain. */
  function Matrix(p: Params, h: Hash, rho: seq<Byte>, n: nat): (a: seq<Vec>)
    requires MatrixDone(p, h, rho, n)
    ensures IsMatrix(p, a)
  {
    seq(p.K(), i requires 0 <= i < p.K() => MatrixRow(p, h, rho, i, n))
  }

  function EtaEntry(p: Params, h: Hash, seed: seq<Byte>, nonce: nat, n: nat): (r: Option<Poly>)
    ensures r.Some? ==> Bounded(r.value, p.Eta())
  {
    UniformEta(h.shake256, seed, nonce % 0x1_0000, p.Eta(), n)
  }

  predicate EtaDone(p: Params, h: Hash, seed: seq<Byte>, first: nat, count: nat, n: nat)
  {
    forall k: nat :: first <= k < first + count ==> EtaEntry(p, h, seed, k, n).Some?
  }

  /** count short secret polynomials, numbered from first on. */
  function EtaVec(p: Params, h: Hash, seed: seq<Byte>, first: nat, count: nat, n: nat): (r: Vec)
    requires EtaDone(p, h, seed, first, count, n)
    ensures |r| == count && AllBounded(r, p.Eta())
  {
    seq(count, i requires 0 <= i < count => EtaEntry(p, h, seed, first + i, n).value)
  }

  /** poly_uniform_gamma1: a polynomial read straight from the stream. */
  function MaskEntry(p: Params, h: Hash, seed: seq<Byte>, nonce: nat): (y: Poly)
    ensures |y| == 256 && AllFit(p.ZFormat(), y)
  {
    var b := Squeeze(h.shake256, seed + Nonce(nonce % 0x1_0000), 0, PolyBytes(p.ZFormat()));
    PolyCanonical(p.ZFormat(), b);
    UnpackPoly(p.ZFormat(), b)
  }

  lemma MaskEntryIs(p: Params, h: Hash, seed: seq<Byte>, m: nat, b: seq<Byte>)
    requires b == Squeeze(h.shake256, seed + Nonce(m % 0x1_0000), 0, PolyBytes(p.ZFormat()))
    ensures MaskEntry(p, h, seed, m) == UnpackPoly(p.ZFormat(), b)
  {
  }

  function MaskNonce(p: Params, nonce: nat, i: nat): nat { p.L() * nonce + i }

  /** The mask vector of one signing attempt. */
  function Mask(p: Params, h: Hash, seed: seq<Byte>, nonce: nat): (y: Vec)
    ensures |y| == p.L()
  {
    seq(p.L(), i requires 0 <= i < p.L() => MaskEntry(p, h, seed, MaskNonce(p, nonce, i)))
  }

  function Shake(h: Hash, input: seq<Byte>, n: nat): (r: seq<Byte>)
    ensures |r| == n
  {
    Squeeze(h.shake256, input, 0, n)
  }

  // ---- Key generation ----

  /** A * s1 + s2, with coefficients in [0, Q). */
  function KeyVector(a: seq<Vec>, s1: Vec, s2: Vec): (t: Vec)
    requires |a| == |s2| && 0 < |s1| && forall i :: 0 <= i < |a| ==> |a[i]| == |s1|
    ensures |t| == |a|
  {
    seq(|a|, i requires 0 <= i < |a| => PCaddq(PAdd(RowTimes(a[i], s1), s2[i])))
  }

  lemma KeyVectorCanonical(p: Params, a: seq<Vec>, s1: Vec, s2: Vec)
    requires IsMatrix(p, a) && |s1| == p.L() && |s2| == p.K() && AllBounded(s1, 4) && AllBounded(s2, 4)
    ensures AllCanonical(KeyVector(a, s1, s2))
  {
    hide RowTimes, Bounded, Canonical, PCaddq;
    AllWiden(s1, 4, Q);
    forall i | 0 <= i < |a|
      ensures Canonical(KeyVector(a, s1, s2)[i])
    {
      RowTimesBound(a[i], s1);
      SumBound(RowTimes(a[i], s1), s2[i], 4211177, 4);
      Widen(PAdd(RowTimes(a[i], s1), s2[i]), 4211181, Q - 1);
      CaddqCanonical(PAdd(RowTimes(a[i], s1), s2[i]));
    }
  }

  lemma AllWiden(v: Vec, b: int, c: int)
    requires AllBounded(v, b) && b <= c
    ensures AllBounded(v, c)
  {
  }

  lemma KeyPartsFit(p: Params, t: Vec)
    requires AllCanonical(t)
    ensures VecFits(T1, VHigh(t)) && VecFits(T0, VLow(t))
  {
    forall i, k | 0 <= i < |t| && 0 <= k < 256
      ensures Fits(T1, VHigh(t)[i][k]) && Fits(T0, VLow(t)[i][k])
    {
      assert VHigh(t)[i][k] == Power2Round(t[i][k]).0 && VLow(t)[i][k] == Power2Round(t[i][k]).1;
    }
  }

  lemma EtaFits(p: Params, v: Vec)
    requires AllBounded(v, p.Eta())
    ensures VecFits(p.EtaFormat(), v)
  {
  }

  function PublicPart(p: Params, rho: seq<Byte>, t: Vec): (k: PublicKey)
    requires |rho| == 32 && |t| == p.K() && AllCanonical(t)
    ensures ValidPublicKey(p, k)
  {
    KeyPartsFit(p, t);
    PublicKey(rho, VHigh(t))
  }

  function SecretPart(p: Params, rho: seq<Byte>, key: seq<Byte>, tr: seq<Byte>, s1: Vec, s2: Vec, t: Vec): (k: SecretKey)
    requires |rho| == 32 && |key| == 32 && |tr| == 64 && |s1| == p.L() && |s2| == |t| == p.K() && AllCanonical(t)
    requires AllBounded(s1, p.Eta()) && AllBounded(s2, p.Eta())
    ensures ValidSecretKey(p, k)
  {
    KeyPartsFit(p, t);
    EtaFits(p, s1);
    EtaFits(p, s2);
    SecretKey(rho, key, tr, s1, s2, VLow(t))
  }

  datatype KeyPair = KeyPair(pk: seq<Byte>, sk: seq<Byte>)

  /** The key pair for the sampled parts. */
  function AssembleKeys(p: Params, h: Hash, rho: seq<Byte>, key: seq<Byte>, a: seq<Vec>, s1: Vec, s2: Vec): (r: KeyPair)
    requires |rho| == 32 && |key| == 32 && IsMatrix(p, a) && |s1| == p.L() && |s2| == p.K()
    requires AllBounded(s1, p.Eta()) && AllBounded(s2, p.Eta())
    ensures |r.pk| == p.PkBytes() && |r.sk| == p.SkBytes()
  {
    AllWiden(s1, p.Eta(), 4);
    AllWiden(s2, p.Eta(), 4);
    KeyVectorCanonical(p, a, s1, s2);
    var t := KeyVector(a, s1, s2);
    var pk := PackPk(p, PublicPart(p, rho, t));
    KeyPair(pk, PackSk(p, SecretPart(p, rho, key, Shake(h, pk, 64), s1, s2, t)))
  }

  /** crypto_sign_keypair for a given random seed; None if a sampler does not finish within its n extra blocks. */
  function KeyGen(p: Params, h: Hash, seed: seq<Byte>, n: nat): (r: Option<KeyPair>)
    requires |seed| == 32
    ensures r.Some? ==> |r.value.pk| == p.PkBytes() && |r.value.sk| == p.SkBytes()
  {
    var b := Shake(h, seed + [p.K(), p.L()], 128);
    var rho, rhoprime, key := b[..32], b[32..96], b[96..];
    if MatrixDone(p, h, rho, n) && EtaDone(p, h, rhoprime, 0, p.L(), n) && EtaDone(p, h, rhoprime, p.L(), p.K(), n)
    then Some(AssembleKeys(p, h, rho, key, Matrix(p, h, rho, n), EtaVec(p, h, rhoprime, 0, p.L(), n),
                           EtaVec(p, h, rhoprime, p.L(), p.K(), n)))
    else None
  }

  lemma InFieldBounded(f: Format, p: seq<int>)
    requires InField(f, p)
    ensures Bounded(p, 0x10_0000)
  {
    forall i | 0 <= i < |p|
      ensures -0x10_0000 <= p[i] <= 0x10_0000
    {
      assert 0 <= Stored(f, p[i]) < FieldLimit(f);
    }
  }

  /** Whatever the key bytes, the unpacked coefficients are small. */
  lemma {:induction false} UnpackedVecBound(f: Format, n: nat, b: seq<Byte>)
    requires |b| == n * PolyBytes(f)
    ensures AllBounded(UnpackVec(f, n, b), 0x10_0000)
  {
    hide UnpackPoly, PolyBytes, InField, Bounded;
    if n > 0 {
      OneLess(n, PolyBytes(f));
      UnpackBound(f, b[..PolyBytes(f)]);
      InFieldBounded(f, UnpackPoly(f, b[..PolyBytes(f)]));
      UnpackedVecBound(f, n - 1, b[PolyBytes(f)..]);
    }
  }

  lemma SecretBound(p: Params, sk: seq<Byte>)
    requires |sk| == p.SkBytes()
    ensures var k := UnpackSk(p, sk); AllBounded(k.s1, Q) && AllBounded(k.s2, Q) && AllBounded(k.t0, Q)
  {
    hide UnpackVec, AllBounded;
    var k := UnpackSk(p, sk);
    var e := PolyBytes(p.EtaFormat());
    var o1 := 128 + p.L() * e;
    var o2 := o1 + p.K() * e;
    UnpackedVecBound(p.EtaFormat(), p.L(), sk[128..o1]);
    UnpackedVecBound(p.EtaFormat(), p.K(), sk[o1..o2]);
    UnpackedVecBound(T0, p.K(), sk[o2..]);
    AllWiden(k.s1, 0x10_0000, Q);
    AllWiden(k.s2, 0x10_0000, Q);
    AllWiden(k.t0, 0x10_0000, Q);
  }

  // ---- Signing ----

  /** chknorm: every coefficient is below b in magnitude, and b is at most (Q - 1) / 8. */
  ghost predicate NormBelow(v: Vec, b: int)
  {
    b <= (Q - 1) / 8 && forall i, k :: 0 <= i < |v| && 0 <= k < 256 ==> -b < v[i][k] < b
  }

  /** A * y, with coefficients in [0, Q). */
  function Commitment(a: seq<Vec>, y: Vec): (w: Vec)
    requires 0 < |y| && forall i :: 0 <= i < |a| ==> |a[i]| == |y|
    ensures |w| == |a|
  {
    seq(|a|, i requires 0 <= i < |a| => PCaddq(RowTimes(a[i], y)))
  }

  lemma CommitmentCanonical(p: Params, a: seq<Vec>, y: Vec)
    requires IsMatrix(p, a) && |y| == p.L() && AllBounded(y, Q)
    ensures AllCanonical(Commitment(a, y))
  {
    hide RowTimes, Bounded, Canonical, PCaddq;
    forall i | 0 <= i < |a|
      ensures Canonical(Commitment(a, y)[i])
    {
      RowTimesBound(a[i], y);
      Widen(RowTimes(a[i], y), 4211177, Q - 1);
      CaddqCanonical(RowTimes(a[i], y));
    }
  }

  lemma MaskBound(p: Params, h: Hash, seed: seq<Byte>, nonce: nat)
    ensures AllBounded(Mask(p, h, seed, nonce), 0x8_0000)
  {
    hide MaskEntry;
    forall i, k | 0 <= i < p.L() && 0 <= k < 256
      ensures -0x8_0000 <= Mask(p, h, seed, nonce)[i][k] <= 0x8_0000
    {
      assert Fits(p.ZFormat(), MaskEntry(p, h, seed, MaskNonce(p, nonce, i))[k]);
    }
  }

  /** y + c * s1, reduced. */
  function Response(c: Poly, y: Vec, s1: Vec): (z: Vec)
    requires |y| == |s1|
    ensures |z| == |y|
  {
    seq(|y|, i requires 0 <= i < |y| => PRed(PAdd(Product(c, s1[i]), y[i])))
  }

  /** w0 - c * s2, reduced. */
  function LowResidue(c: Poly, w0: Vec, s2: Vec): (r: Vec)
    requires |w0| == |s2|
    ensures |r| == |w0|
  {
    seq(|w0|, i requires 0 <= i < |w0| => PRed(PSub(w0[i], Product(c, s2[i]))))
  }

  /** c * t0, reduced. */
  function HintPart(c: Poly, t0: Vec): (r: Vec)
    ensures |r| == |t0|
  {
    seq(|t0|, i requires 0 <= i < |t0| => PRed(Product(c, t0[i])))
  }

  lemma HighBitsFit(p: Params, w: Vec)
    requires AllCanonical(w)
    ensures VecFits(p.W1Format(), VHighBits(p.Gamma2(), w))
  {
    hide Decompose;
    forall i, k | 0 <= i < |w| && 0 <= k < 256
      ensures Fits(p.W1Format(), VHighBits(p.Gamma2(), w)[i][k])
    {
      assert VHighBits(p.Gamma2(), w)[i][k] == Decompose(p.Gamma2(), w[i][k]).0;
    }
  }

  /** The challenge seed for w1. */
  function ChallengeSeed(p: Params, h: Hash, mu: seq<Byte>, w1: Vec): (r: seq<Byte>)
    requires VecFits(p.W1Format(), w1)
    ensures |r| == p.CTildeBytes()
  {
    Shake(h, mu + PackVec(p.W1Format(), w1), p.CTildeBytes())
  }

  datatype Attempt = Stuck | Rejected | Signed(sig: Signature)

  lemma SignatureFits(p: Params, z: Vec, v0: Vec, v1: Vec)
    requires |v0| == |v1| && NormBelow(z, p.Gamma1() - p.Beta())
    ensures VecFits(p.ZFormat(), z) && AllHints(VMakeHint(p.Gamma2(), v0, v1))
  {
    hide MakeHint;
    forall i | 0 <= i < |v0|
      ensures IsHint(VMakeHint(p.Gamma2(), v0, v1)[i])
    {
      forall k | 0 <= k < 256
        ensures VMakeHint(p.Gamma2(), v0, v1)[i][k] in {0, 1}
      {
        assert VMakeHint(p.Gamma2(), v0, v1)[i][k] == MakeHint(p.Gamma2(), v0[i][k], v1[i][k]);
      }
    }
    forall i, k | 0 <= i < |z| && 0 <= k < 256
      ensures Fits(p.ZFormat(), z[i][k])
    {
    }
  }

  /** The part of an attempt after the challenge: four checks, then the signature. */
  ghost function Respond(p: Params, k: SecretKey, ct: seq<Byte>, c: Poly, y: Vec, w1: Vec, w0: Vec): (r: Attempt)
    requires |ct| == p.CTildeBytes() && |y| == |k.s1| == p.L() && |w1| == |w0| == |k.s2| == |k.t0| == p.K()
    ensures r.Signed? ==> ValidSignature(p, r.sig)
  {
    var z, r0, ct0 := Response(c, y, k.s1), LowResidue(c, w0, k.s2), HintPart(c, k.t0);
    if !NormBelow(z, p.Gamma1() - p.Beta()) then Rejected
    else if !NormBelow(r0, p.Gamma2() - p.Beta()) then Rejected
    else if !NormBelow(ct0, p.Gamma2()) then Rejected
    else
      var hint := VMakeHint(p.Gamma2(), VAdd(r0, ct0), w1);
      if CountOnes(hint) > p.Omega() then Rejected
      else
        SignatureFits(p, z, VAdd(r0, ct0), w1);
        Signed(Signature(ct, z, hint))
  }

  /** One pass of the rejection loop with the matrix a. */
  ghost function SignAttempt(p: Params, h: Hash, k: SecretKey, a: seq<Vec>, mu: seq<Byte>, rhoprime: seq<Byte>, nonce: nat,
                             n: nat): (r: Attempt)
    requires IsMatrix(p, a) && |k.s1| == p.L() && |k.s2| == |k.t0| == p.K()
    ensures r.Signed? ==> ValidSignature(p, r.sig)
  {
    var y := Mask(p, h, rhoprime, nonce);
    MaskBound(p, h, rhoprime, nonce);
    AllWiden(y, 0x8_0000, Q);
    CommitmentCanonical(p, a, y);
    var w := Commitment(a, y);
    HighBitsFit(p, w);
    var w1 := VHighBits(p.Gamma2(), w);
    var ct := ChallengeSeed(p, h, mu, w1);
    var c := Challenge(h.shake256, ct, p.Tau(), n);
    if c.None? then Stuck else Respond(p, k, ct, c.value, y, w1, VLowBits(p.Gamma2(), w))
  }

  /** The rejection loop: nonce counts up modulo 2^16, at most attempts times. */
  ghost function SignLoop(p: Params, h: Hash, k: SecretKey, a: seq<Vec>, mu: seq<Byte>, rhoprime: seq<Byte>, nonce: nat,
                          attempts: nat, n: nat): (r: Option<Signature>)
    requires IsMatrix(p, a) && |k.s1| == p.L() && |k.s2| == |k.t0| == p.K()
    ensures r.Some? ==> ValidSignature(p, r.value)
    decreases attempts
  {
    if attempts == 0 then None
    else match SignAttempt(p, h, k, a, mu, rhoprime, nonce, n)
      case Stuck => None
      case Signed(s) => Some(s)
      case Rejected => SignLoop(p, h, k, a, mu, rhoprime, (nonce + 1) % 0x1_0000, attempts - 1, n)
  }

  lemma LoopStep(p: Params, h: Hash, k: SecretKey, a: seq<Vec>, mu: seq<Byte>, rhoprime: seq<Byte>, nonce: nat, left: nat,
                 n: nat)
    requires IsMatrix(p, a) && |k.s1| == p.L() && |k.s2| == |k.t0| == p.K()
    ensures SignLoop(p, h, k, a, mu, rhoprime, nonce, left, n) ==
            if left == 0 then None
            else match SignAttempt(p, h, k, a, mu, rhoprime, nonce, n)
              case Stuck => None
              case Signed(s) => Some(s)
              case Rejected => SignLoop(p, h, k, a, mu, rhoprime, (nonce + 1) % 0x1_0000, left - 1, n)
  {
    hide SignAttempt, IsMatrix;
  }

  /** What is hashed for a message: a zero, and the length of the context, separate the parts. */
  function MessageInput(tr: seq<Byte>, ctx: seq<Byte>, m: seq<Byte>): seq<Byte>
    requires |ctx| <= 255
  {
    tr + [0, |ctx|] + ctx + m
  }

  /** The 64-byte message representative. */
  function MessageRep(h: Hash, tr: seq<Byte>, ctx: seq<Byte>, m: seq<Byte>): seq<Byte>
    requires |ctx| <= 255
  {
    Shake(h, MessageInput(tr, ctx, m), 64)
  }

  /** With key hashes of 64 bytes, the hashed string determines the key hash, the context and the message. */
  lemma MessageInputInjective(tr: seq<Byte>, ctx: seq<Byte>, m: seq<Byte>, tr': seq<Byte>, ctx': seq<Byte>, m': seq<Byte>)
    requires |ctx| <= 255 && |ctx'| <= 255 && |tr| == |tr'| == 64
    requires MessageInput(tr, ctx, m) == MessageInput(tr', ctx', m')
    ensures tr == tr' && ctx == ctx' && m == m'
  {
    var s, s' := MessageInput(tr, ctx, m), MessageInput(tr', ctx', m');
    assert tr == s[..64] && tr' == s'[..64] && s[65] == |ctx| && s'[65] == |ctx'|;
    assert ctx == s[66..66 + |ctx|] && ctx' == s'[66..66 + |ctx'|];
    assert m == s[66 + |ctx|..] && m' == s'[66 + |ctx'|..];
  }

  datatype SignResult = ContextTooLong | Unfinished | Ok(sig: seq<Byte>)

  ghost function SignatureBytes(p: Params, s: Signature): (r: seq<Byte>)
    requires ValidSignature(p, s)
    ensures |r| == p.SigBytes() && UnpackSig(p, r) == Some(s)
  {
    SigRoundTrip(p, s);
    PackSig(p, s)
  }

  /** crypto_sign_signature_ctx for the random bytes rnd. */
  ghost function Sign(p: Params, h: Hash, sk: seq<Byte>, m: seq<Byte>, ctx: seq<Byte>, rnd: seq<Byte>, attempts: nat,
                      n: nat): (r: SignResult)
    requires |sk| == p.SkBytes() && |rnd| == 32
    ensures r.Ok? ==> |r.sig| == p.SigBytes()
  {
    if |ctx| > 255 then ContextTooLong
    else
      var k := UnpackSk(p, sk);
      var mu := MessageRep(h, k.tr, ctx, m);
      var rhoprime := Shake(h, k.key + rnd + mu, 64);
      if !MatrixDone(p, h, k.rho, n) then Unfinished
      else
        var s := SignLoop(p, h, k, Matrix(p, h, k.rho, n), mu, rhoprime, 0, attempts, n);
        if s.None? then Unfinished else Ok(SignatureBytes(p, s.value))
  }

  // ---- Verification ----

  /** A * z - c * t1 * 2^13, with coefficients in [0, Q). */
  function VerifierVector(a: seq<Vec>, z: Vec, c: Poly, t1: Vec): (v: Vec)
    requires |a| == |t1| && 0 < |z| && forall i :: 0 <= i < |a| ==> |a[i]| == |z|
    ensures |v| == |a|
  {
    seq(|a|, i requires 0 <= i < |a| => PCaddq(RowMinus(a[i], z, c, t1[i])))
  }

  ghost predicate SmallT1(t1: Vec) { forall i, k :: 0 <= i < |t1| && 0 <= k < 256 ==> 0 <= t1[i][k] < 1024 }

  lemma ShiftBound(t: Poly)
    requires forall k :: 0 <= k < 256 ==> 0 <= t[k] < 1024
    ensures Bounded(PShift(t), Q)
  {
  }

  lemma VerifierVectorCanonical(p: Params, a: seq<Vec>, z: Vec, c: Poly, t1: Vec)
    requires IsMatrix(p, a) && |z| == p.L() && |t1| == p.K() && AllBounded(z, Q) && Bounded(c, Q) && SmallT1(t1)
    ensures AllCanonical(VerifierVector(a, z, c, t1))
  {
    hide RowMinus, Bounded, Canonical, PCaddq, PShift;
    forall i | 0 <= i < |a|
      ensures Canonical(VerifierVector(a, z, c, t1)[i])
    {
      ShiftBound(t1[i]);
      RowMinusBound(a[i], z, c, t1[i]);
      Widen(RowMinus(a[i], z, c, t1[i]), 4211177, Q - 1);
      CaddqCanonical(RowMinus(a[i], z, c, t1[i]));
    }
  }

  lemma ChallengeBound(x: Xof, seed: seq<Byte>, tau: nat, n: nat)
    requires tau <= 256 && Challenge(x, seed, tau, n).Some?
    ensures Bounded(Challenge(x, seed, tau, n).value, 1)
  {
    hide Challenge, Weight;
    ChallengeWeight(x, seed, tau, n);
  }

  lemma {:induction false} UnpackedT1(n: nat, b: seq<Byte>)
    requires |b| == n * PolyBytes(T1)
    ensures SmallT1(UnpackVec(T1, n, b))
  {
    hide UnpackPoly, PolyBytes;
    if n > 0 {
      OneLess(n, PolyBytes(T1));
      UnpackBound(T1, b[..PolyBytes(T1)]);
      UnpackedT1(n - 1, b[PolyBytes(T1)..]);
      var v := UnpackVec(T1, n, b);
      var rest := UnpackVec(T1, n - 1, b[PolyBytes(T1)..]);
      var p := UnpackPoly(T1, b[..PolyBytes(T1)]);
      assert forall k :: 0 <= k < 256 ==> Stored(T1, p[k]) == p[k];
      assert v == [p] + rest;
    }
  }

  lemma PublicT1(p: Params, pk: seq<Byte>)
    requires |pk| == p.PkBytes()
    ensures SmallT1(UnpackPk(p, pk).t1)
  {
    hide UnpackVec;
    UnpackedT1(p.K(), pk[32..]);
  }

  lemma HintedFit(p: Params, v: Vec, h: Vec)
    requires AllCanonical(v) && |v| == |h|
    ensures VecFits(p.W1Format(), VUseHint(p.Gamma2(), v, h))
  {
    hide UseHint;
    forall i, k | 0 <= i < |v| && 0 <= k < 256
      ensures Fits(p.W1Format(), VUseHint(p.Gamma2(), v, h)[i][k])
    {
      assert VUseHint(p.Gamma2(), v, h)[i][k] == UseHint(p.Gamma2(), v[i][k], h[i][k]);
    }
  }

  datatype Verdict = Accept | Reject | Undecided

  /** The challenge seed that verification recomputes. */
  function Recomputed(p: Params, h: Hash, a: seq<Vec>, t1: Vec, s: Signature, c: Poly, mu: seq<Byte>): (r: seq<Byte>)
    requires IsMatrix(p, a) && |s.z| == p.L() && |t1| == |s.h| == p.K()
    requires AllBounded(s.z, Q) && Bounded(c, Q) && SmallT1(t1)
  {
    VerifierVectorCanonical(p, a, s.z, c, t1);
    var v := VerifierVector(a, s.z, c, t1);
    HintedFit(p, v, s.h);
    ChallengeSeed(p, h, mu, VUseHint(p.Gamma2(), v, s.h))
  }

  /** crypto_sign_verify_ctx; Undecided if a sampler does not finish within its n extra blocks. */
  ghost function Verify(p: Params, h: Hash, pk: seq<Byte>, m: seq<Byte>, ctx: seq<Byte>, sig: seq<Byte>, n: nat): Verdict
    requires |pk| == p.PkBytes()
  {
    if |ctx| > 255 || |sig| != p.SigBytes() then Reject
    else
      var k := UnpackPk(p, pk);
      var s := UnpackSig(p, sig);
      if s.None? then Reject
      else if !NormBelow(s.value.z, p.Gamma1() - p.Beta()) then Reject
      else
        var mu := MessageRep(h, Shake(h, pk, 64), ctx, m);
        var c := Challenge(h.shake256, s.value.c, p.Tau(), n);
        if c.None? || !MatrixDone(p, h, k.rho, n) then Undecided
        else
          PublicT1(p, pk);
          ChallengeBound(h.shake256, s.value.c, p.Tau(), n);
          NormBounded(s.value.z, p.Gamma1() - p.Beta());
          Widen(c.value, 1, Q);
          if Recomputed(p, h, Matrix(p, h, k.rho, n), k.t1, s.value, c.value, mu) == s.value.c then Accept else Reject
  }

  lemma NormBounded(v: Vec, b: int)
    requires NormBelow(v, b)
    ensures AllBounded(v, Q)
  {
  }
}
