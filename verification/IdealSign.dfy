/** Signing from the secret key and the random bytes to the signature, with hashing and polynomials written out. */
module IdealSign {
  import opened Arith
  import opened Rounding
  import opened NttSpec
  import opened NttInverse
  import opened NttProduct
  import opened PolySpec
  import opened SignAlgebra
  import opened MatrixProduct
  import opened Ranges
  import opened BitPack
  import opened HintCode
  import opened Options
  import opened Params
  import opened Encodings
  import opened Sampling
  import opened InBall
  import opened Scheme
  import opened Ideal
  import opened Streams

  // ---- Residues around zero ----

  /** x modulo Q, between -(Q - 1) / 2 and (Q - 1) / 2. */
  function Centre(x: int): int { if x % Q > (Q - 1) / 2 then x % Q - Q else x % Q }

  /** All coefficients are below b in magnitude. */
  ghost predicate Short(v: Vec, b: int) { forall i, k :: 0 <= i < |v| && 0 <= k < 256 ==> -b < v[i][k] < b }

  /** Up to an eighth of Q, a reduced number is short exactly if the centred residue is, and then they are equal. */
  lemma CentreShort(r: int, x: int, b: int)
    requires Cong(r, x) && -6283009 <= r <= 6283009 && b <= (Q - 1) / 8
    ensures -b < r < b <==> -b < Centre(x) < b
    ensures -b < r < b ==> r == Centre(x)
  {
    var k := Multiple(r, x);
    assert x == r - k * Q;
    ResidueOf(r, x, -k);
  }

  lemma ResidueOf(r: int, x: int, k: int)
    requires x == r + k * Q && -Q < r < Q
    ensures x % Q == if r < 0 then r + Q else r
  {
    if r < 0 {
      assert x == (r + Q) + (k - 1) * Q;
    }
  }

  function VCentre(v: Vec): Vec
  {
    seq(|v|, i requires 0 <= i < |v| => seq(256, k requires 0 <= k < 256 => Centre(v[i][k])))
  }

  lemma VecCentred(u: Vec, x: Vec, b: int)
    requires |u| == |x| && AllBounded(u, 6283009) && b <= (Q - 1) / 8
    requires forall i :: 0 <= i < |u| ==> CongSeq(u[i], x[i])
    ensures Short(u, b) <==> Short(VCentre(x), b)
    ensures Short(u, b) ==> u == VCentre(x)
  {
    hide Centre, Cong;
    var v := VCentre(x);
    forall i, k | 0 <= i < |u| && 0 <= k < 256
      ensures (-b < u[i][k] < b <==> -b < v[i][k] < b) && (-b < u[i][k] < b ==> u[i][k] == v[i][k])
    {
      assert Bounded(u[i], 6283009) && CongSeq(u[i], x[i]);
      CentreShort(u[i][k], x[i][k], b);
    }
    if Short(u, b) {
      forall i | 0 <= i < |u|
        ensures u[i] == v[i]
      {
        assert forall k :: 0 <= k < 256 ==> u[i][k] == v[i][k];
      }
    }
  }

  // ---- One trial ----

  /** Polynomial i of the mask of trial e is read from the stream of the mask seed followed by the two bytes of its
      number, the low one first. */
  function IdealMaskPoly(p: Params, h: Hash, seed: seq<Byte>, e: nat, i: nat): (y: Poly)
    ensures |y| == 256
  {
    var m := p.L() * e + i;
    UnpackPoly(p.ZFormat(), Squeeze(h.shake256, seed + [m % 256, m / 256 % 256], 0, PolyBytes(p.ZFormat())))
  }

  /** The mask of trial e. */
  function IdealMask(p: Params, h: Hash, seed: seq<Byte>, e: nat): (y: Vec)
    ensures |y| == p.L()
  {
    seq(p.L(), i requires 0 <= i < p.L() => IdealMaskPoly(p, h, seed, e, i))
  }

  /** c * v modulo X^256 + 1. */
  function Times(c: Poly, v: Vec): Vec { seq(|v|, i requires 0 <= i < |v| => ProductPoly(c, v[i])) }

  /** What a trial computes. */
  datatype Trial = Trial(ct: seq<Byte>, c: Poly, z: Vec, low: Vec, part: Vec, hint: Vec)

  /** What a run of signing works with: polynomials for the matrix, the unpacked key, the hash of the message, the seed of
      the masks, and the length of the challenge streams. */
  datatype Signer = Signer(p: Params, h: Hash, a: seq<Vec>, k: SecretKey, mu: seq<Byte>, seed: seq<Byte>, n: nat)
  {
    ghost predicate Sized()
    {
      |a| == p.K() && (forall i :: 0 <= i < |a| ==> |a[i]| == p.L()) && |k.s1| == p.L() && |k.s2| == |k.t0| == p.K()
    }

    /** Trial e: the challenge seed is the hash of mu and the high bits of A * y; with the challenge c that belongs to
        it, the response is y + c * s1, and the hints are for adding c * t0 to w0 - c * s2. */
    ghost predicate IsTrial(e: nat, t: Trial)
      requires Sized()
    {
      var y := IdealMask(p, h, seed, e);
      var w := IdealCommitment(a, y);
      AllCanonical(w) &&
      var w1 := VHighBits(p.Gamma2(), w);
      VecFits(p.W1Format(), w1) && t.ct == Squeeze(h.shake256, mu + PackVec(p.W1Format(), w1), 0, p.CTildeBytes()) &&
      Challenge(h.shake256, t.ct, p.Tau(), n) == Some(t.c) && t.z == VCentre(VAdd(y, Times(t.c, k.s1))) &&
      t.low == VCentre(VSub(VLowBits(p.Gamma2(), w), Times(t.c, k.s2))) && t.part == VCentre(Times(t.c, k.t0)) &&
      |t.low| == |t.part| == |w1| && t.hint == VMakeHint(p.Gamma2(), VAdd(t.low, t.part), w1)
    }

    /** Trial e passes and gives the signature s. */
    ghost predicate Emits(e: nat, s: Signature)
      requires Sized()
    {
      exists t :: IsTrial(e, t) && Passes(p, t) && s == Signature(t.ct, t.z, t.hint)
    }

    /** Trial e fails one of the bounds. */
    ghost predicate Refuses(e: nat)
      requires Sized()
    {
      exists t :: IsTrial(e, t) && !Passes(p, t)
    }

    /** From trial d on, e is the first that passes, and gives s. */
    ghost predicate EndsAt(d: nat, e: nat, s: Signature)
      requires Sized()
    {
      d <= e && Emits(e, s) && forall j :: d <= j < e ==> Refuses(j)
    }

    /** One of left trials from d on is the first that passes, and gives s. */
    ghost predicate Ends(d: nat, left: nat, s: Signature)
      requires Sized()
    {
      exists e: nat :: e < d + left && EndsAt(d, e, s)
    }
  }

  /** The four bounds. */
  ghost predicate Passes(p: Params, t: Trial)
  {
    Short(t.z, p.Gamma1() - p.Beta()) && Short(t.low, p.Gamma2() - p.Beta()) && Short(t.part, p.Gamma2()) &&
    CountOnes(t.hint) <= p.Omega()
  }

  lemma MaskPolyIs(p: Params, h: Hash, seed: seq<Byte>, e: nat, i: nat)
    requires i < p.L()
    ensures MaskEntry(p, h, seed, MaskNonce(p, e % 0x1_0000, i)) == IdealMaskPoly(p, h, seed, e, i)
  {
    hide UnpackPoly, Squeeze, PolyBytes, AllFit, Nonce;
    var m := MaskNonce(p, e % 0x1_0000, i);
    MaskNonceIs(p.L(), e, i);
    MaskEntryIs(p, h, seed, m, Squeeze(h.shake256, seed + Nonce(m % 0x1_0000), 0, PolyBytes(p.ZFormat())));
  }

  lemma MaskIs(p: Params, h: Hash, seed: seq<Byte>, e: nat)
    ensures Mask(p, h, seed, e % 0x1_0000) == IdealMask(p, h, seed, e)
  {
    hide MaskEntry, MaskNonce, IdealMaskPoly;
    forall i | 0 <= i < p.L()
      ensures Mask(p, h, seed, e % 0x1_0000)[i] == IdealMask(p, h, seed, e)[i]
    {
      MaskPolyIs(p, h, seed, e, i);
    }
  }

  lemma ProductCong(c: Poly, s: Poly, k: nat)
    requires k < 256
    ensures Cong(Product(c, s)[k], Convolve(c, s, k))
  {
    hide Cong, Product, Convolve, Forward, Inverse, Pointwise;
    NttMultiplies(c, s, k);
    ProductIs(c, s);
  }

  lemma ReducedCong(u: Poly, x: Poly)
    requires Bounded(u, 4211177 + 0x8_0000) && CongSeq(u, x)
    ensures Bounded(PRed(u), 6283009) && CongSeq(PRed(u), x)
  {
    hide Cong, Red, Bounded;
    Widen(u, 4211177 + 0x8_0000, REDMAX);
    RedRange(u);
    forall k | 0 <= k < 256
      ensures Cong(PRed(u)[k], x[k])
    {
      RedCong(u[k]);
      CongTrans(PRed(u)[k], u[k], x[k]);
    }
  }

  lemma ResponseRow(c: Poly, y: Poly, s: Poly)
    requires Bounded(c, Q) && Bounded(s, Q) && Bounded(y, 0x8_0000)
    ensures var u := PRed(PAdd(Product(c, s), y)); Bounded(u, 6283009) && CongSeq(u, PAdd(y, ProductPoly(c, s)))
  {
    hide Cong, Product, Convolve, Bounded, PRed;
    ChallengeProductBound(c, s);
    SumBound(Product(c, s), y, 4211177, 0x8_0000);
    forall k | 0 <= k < 256
      ensures Cong(PAdd(Product(c, s), y)[k], PAdd(y, ProductPoly(c, s))[k])
    {
      ProductCong(c, s, k);
      CongFrom(y[k], y[k], 0);
      CongAdd(Product(c, s)[k], Convolve(c, s, k), y[k], y[k]);
    }
    ReducedCong(PAdd(Product(c, s), y), PAdd(y, ProductPoly(c, s)));
  }

  lemma LowRow(c: Poly, w0: Poly, s: Poly)
    requires Bounded(c, Q) && Bounded(s, Q) && Bounded(w0, 0x8_0000)
    ensures var u := PRed(PSub(w0, Product(c, s))); Bounded(u, 6283009) && CongSeq(u, PSub(w0, ProductPoly(c, s)))
  {
    hide Cong, Product, Convolve, Bounded, PRed;
    ChallengeProductBound(c, s);
    SumBound(w0, Product(c, s), 0x8_0000, 4211177);
    forall k | 0 <= k < 256
      ensures Cong(PSub(w0, Product(c, s))[k], PSub(w0, ProductPoly(c, s))[k])
    {
      ProductCong(c, s, k);
      NegCong(w0[k], Product(c, s)[k], Convolve(c, s, k));
    }
    ReducedCong(PSub(w0, Product(c, s)), PSub(w0, ProductPoly(c, s)));
  }

  lemma NegCong(w: int, x: int, y: int)
    requires Cong(x, y)
    ensures Cong(w - x, w - y)
  {
    var k := Multiple(x, y);
    CongFrom(w - x, w - y, -k);
  }

  lemma PartRow(c: Poly, s: Poly)
    requires Bounded(c, Q) && Bounded(s, Q)
    ensures var u := PRed(Product(c, s)); Bounded(u, 6283009) && CongSeq(u, ProductPoly(c, s))
  {
    hide Cong, Product, Convolve, Bounded, PRed;
    ChallengeProductBound(c, s);
    Widen(Product(c, s), 4211177, 4211177 + 0x8_0000);
    forall k | 0 <= k < 256
      ensures Cong(Product(c, s)[k], ProductPoly(c, s)[k])
    {
      ProductCong(c, s, k);
    }
    ReducedCong(Product(c, s), ProductPoly(c, s));
  }

  lemma ResponseCentred(c: Poly, y: Vec, s1: Vec, b: int)
    requires |y| == |s1| && Bounded(c, Q) && AllBounded(s1, Q) && AllBounded(y, 0x8_0000) && b <= (Q - 1) / 8
    ensures var x := VAdd(y, Times(c, s1));
            (Short(Response(c, y, s1), b) <==> Short(VCentre(x), b)) &&
            (Short(Response(c, y, s1), b) ==> Response(c, y, s1) == VCentre(x))
  {
    hide CongSeq, Product, ProductPoly, Bounded, VCentre, PRed, PAdd, Short;
    var u, x := Response(c, y, s1), VAdd(y, Times(c, s1));
    forall i | 0 <= i < |u|
      ensures Bounded(u[i], 6283009) && CongSeq(u[i], x[i])
    {
      ResponseRow(c, y[i], s1[i]);
    }
    VecCentred(u, x, b);
  }

  lemma LowCentred(c: Poly, w0: Vec, s2: Vec, b: int)
    requires |w0| == |s2| && Bounded(c, Q) && AllBounded(s2, Q) && AllBounded(w0, 0x8_0000) && b <= (Q - 1) / 8
    ensures var x := VSub(w0, Times(c, s2));
            (Short(LowResidue(c, w0, s2), b) <==> Short(VCentre(x), b)) &&
            (Short(LowResidue(c, w0, s2), b) ==> LowResidue(c, w0, s2) == VCentre(x))
  {
    hide CongSeq, Product, ProductPoly, Bounded, VCentre, PRed, PSub, Short;
    var u, x := LowResidue(c, w0, s2), VSub(w0, Times(c, s2));
    forall i | 0 <= i < |u|
      ensures Bounded(u[i], 6283009) && CongSeq(u[i], x[i])
    {
      LowRow(c, w0[i], s2[i]);
    }
    VecCentred(u, x, b);
  }

  lemma PartCentred(c: Poly, t0: Vec, b: int)
    requires Bounded(c, Q) && AllBounded(t0, Q) && b <= (Q - 1) / 8
    ensures var x := Times(c, t0);
            (Short(HintPart(c, t0), b) <==> Short(VCentre(x), b)) &&
            (Short(HintPart(c, t0), b) ==> HintPart(c, t0) == VCentre(x))
  {
    hide CongSeq, Product, ProductPoly, Bounded, VCentre, PRed, Short;
    var u, x := HintPart(c, t0), Times(c, t0);
    forall i | 0 <= i < |u|
      ensures Bounded(u[i], 6283009) && CongSeq(u[i], x[i])
    {
      PartRow(c, t0[i]);
    }
    VecCentred(u, x, b);
  }

  lemma ParamBounds(p: Params)
    ensures p.Gamma1() - p.Beta() <= (Q - 1) / 8 && p.Gamma2() - p.Beta() <= (Q - 1) / 8 && p.Gamma2() <= (Q - 1) / 8
    ensures p.Tau() <= 256
  {
  }

  lemma NormIsShort(v: Vec, b: int)
    requires b <= (Q - 1) / 8
    ensures NormBelow(v, b) <==> Short(v, b)
  {
  }

  /** The four checks on the code's vectors and on the centred ones have the same outcome, and the same signature. */
  lemma RespondIs(p: Params, k: SecretKey, y: Vec, w1: Vec, w0: Vec, t: Trial)
    requires |t.ct| == p.CTildeBytes() && |y| == |k.s1| == p.L() && |w1| == |w0| == |k.s2| == |k.t0| == p.K()
    requires Bounded(t.c, Q) && AllBounded(k.s1, Q) && AllBounded(k.s2, Q) && AllBounded(k.t0, Q)
    requires AllBounded(y, 0x8_0000) && AllBounded(w0, 0x8_0000)
    requires t.z == VCentre(VAdd(y, Times(t.c, k.s1))) && t.low == VCentre(VSub(w0, Times(t.c, k.s2)))
    requires t.part == VCentre(Times(t.c, k.t0))
    requires |t.low| == |t.part| == |w1| && t.hint == VMakeHint(p.Gamma2(), VAdd(t.low, t.part), w1)
    ensures Respond(p, k, t.ct, t.c, y, w1, w0) ==
            if Passes(p, t) then Signed(Signature(t.ct, t.z, t.hint)) else Rejected
  {
    hide Bounded, AllBounded, VCentre, Times, VAdd, VSub, Response, LowResidue, HintPart, VMakeHint, CountOnes, NormBelow,
         Short, ValidSignature;
    ParamBounds(p);
    var z, r0, ct0 := Response(t.c, y, k.s1), LowResidue(t.c, w0, k.s2), HintPart(t.c, k.t0);
    ResponseCentred(t.c, y, k.s1, p.Gamma1() - p.Beta());
    LowCentred(t.c, w0, k.s2, p.Gamma2() - p.Beta());
    PartCentred(t.c, k.t0, p.Gamma2());
    NormIsShort(z, p.Gamma1() - p.Beta());
    NormIsShort(r0, p.Gamma2() - p.Beta());
    NormIsShort(ct0, p.Gamma2());
  }

  lemma LowBitsSmall(g: int, w: Vec)
    requires IsGamma2(g) && AllCanonical(w)
    ensures AllBounded(VLowBits(g, w), 0x8_0000)
  {
    hide Decompose;
    forall i | 0 <= i < |w|
      ensures Bounded(VLowBits(g, w)[i], 0x8_0000)
    {
      forall k | 0 <= k < 256
        ensures -0x8_0000 <= VLowBits(g, w)[i][k] <= 0x8_0000
      {
        assert VLowBits(g, w)[i][k] == Decompose(g, w[i][k]).1;
      }
    }
  }

  /** The sampled matrix is the transform of the signer's polynomials, and the key has the sizes and bounds of one that
      was unpacked. */
  ghost predicate Matches(g: Signer, mat: seq<Vec>)
  {
    IsMatrix(g.p, mat) && StandsFor(mat, g.a) && g.Sized() &&
    AllBounded(g.k.s1, Q) && AllBounded(g.k.s2, Q) && AllBounded(g.k.t0, Q)
  }

  /** What the code computes in an attempt, by names. */
  lemma AttemptParts(g: Signer, mat: seq<Vec>, e: nat) returns (y: Vec, w: Vec, ct: seq<Byte>)
    requires Matches(g, mat)
    ensures y == IdealMask(g.p, g.h, g.seed, e) && AllBounded(y, 0x8_0000)
    ensures w == IdealCommitment(g.a, y) && |w| == g.p.K() && AllCanonical(w)
    ensures VecFits(g.p.W1Format(), VHighBits(g.p.Gamma2(), w)) && g.p.Tau() <= 256
    ensures ct == Squeeze(g.h.shake256, g.mu + PackVec(g.p.W1Format(), VHighBits(g.p.Gamma2(), w)), 0, g.p.CTildeBytes())
    ensures var c := Challenge(g.h.shake256, ct, g.p.Tau(), g.n);
            SignAttempt(g.p, g.h, g.k, mat, g.mu, g.seed, e % 0x1_0000, g.n) ==
            if c.None? then Stuck
            else Respond(g.p, g.k, ct, c.value, y, VHighBits(g.p.Gamma2(), w), VLowBits(g.p.Gamma2(), w))
  {
    hide Mask, IdealMask, Commitment, IdealCommitment, AllCanonical, AllBounded, VecFits, VHighBits, VLowBits, PackVec,
         Challenge, Respond, IsMatrix, StandsFor, Squeeze;
    var p, m := g.p, e % 0x1_0000;
    ParamBounds(p);
    MaskIs(p, g.h, g.seed, e);
    y := Mask(p, g.h, g.seed, m);
    MaskBound(p, g.h, g.seed, m);
    AllWiden(y, 0x8_0000, Q);
    CommitmentIdeal(p, mat, g.a, y);
    CommitmentCanonical(p, mat, y);
    MatrixLength(p, mat);
    w := Commitment(mat, y);
    HighBitsFit(p, w);
    ct := ChallengeSeed(p, g.h, g.mu, VHighBits(p.Gamma2(), w));
  }

  lemma BitSizes(g: int, w: Vec)
    requires IsGamma2(g) && AllCanonical(w)
    ensures |VHighBits(g, w)| == |VLowBits(g, w)| == |w|
  {
  }

  lemma TrialOf(p: Params, k: SecretKey, y: Vec, w: Vec, ct: seq<Byte>, c: Poly) returns (t: Trial)
    requires AllCanonical(w) && |y| == |k.s1| == p.L() && |w| == |k.s2| == |k.t0| == p.K()
    ensures var w1, w0 := VHighBits(p.Gamma2(), w), VLowBits(p.Gamma2(), w);
            |w1| == |w0| == |w| && |Times(c, k.s1)| == |y| && |Times(c, k.s2)| == |w| &&
            t.ct == ct && t.c == c && t.z == VCentre(VAdd(y, Times(c, k.s1))) &&
            t.low == VCentre(VSub(w0, Times(c, k.s2))) && t.part == VCentre(Times(c, k.t0)) &&
            |t.low| == |t.part| == |w1| && t.hint == VMakeHint(p.Gamma2(), VAdd(t.low, t.part), w1)
  {
    hide ProductPoly, PHighBits, PLowBits, Centre, MakeHint;
    var w1, w0 := VHighBits(p.Gamma2(), w), VLowBits(p.Gamma2(), w);
    var low, part := VCentre(VSub(w0, Times(c, k.s2))), VCentre(Times(c, k.t0));
    t := Trial(ct, c, VCentre(VAdd(y, Times(c, k.s1))), low, part, VMakeHint(p.Gamma2(), VAdd(low, part), w1));
  }

  /** An attempt of the code is the trial: it gets stuck exactly if the challenge's stream is too short, and otherwise
      ends in the signature of the trial exactly if the trial passes. */
  lemma AttemptIs(g: Signer, mat: seq<Vec>, e: nat)
    requires Matches(g, mat)
    ensures var r := SignAttempt(g.p, g.h, g.k, mat, g.mu, g.seed, e % 0x1_0000, g.n);
            (r.Stuck? <==> !exists t :: g.IsTrial(e, t)) &&
            forall t :: g.IsTrial(e, t) ==> r == if Passes(g.p, t) then Signed(Signature(t.ct, t.z, t.hint)) else Rejected
  {
    hide IdealMask, IdealCommitment, AllCanonical, AllBounded, Bounded, VecFits, VHighBits, VLowBits, PackVec, VCentre, Times,
         VAdd, VSub, VMakeHint, Challenge, Respond, IsMatrix, StandsFor, Squeeze, Passes, SignAttempt;
    var p, k := g.p, g.k;
    var y, w, ct := AttemptParts(g, mat, e);
    var c := Challenge(g.h.shake256, ct, p.Tau(), g.n);
    if c.Some? {
      var t := TrialOf(p, k, y, w, ct, c.value);
      ChallengeBound(g.h.shake256, ct, p.Tau(), g.n);
      Widen(c.value, 1, Q);
      LowBitsSmall(p.Gamma2(), w);
      BitSizes(p.Gamma2(), w);
      RespondIs(p, k, y, VHighBits(p.Gamma2(), w), VLowBits(p.Gamma2(), w), t);
      assert g.IsTrial(e, t);
    }
  }

  // ---- The rejection loop ----

  lemma AttemptCases(g: Signer, mat: seq<Vec>, e: nat, s: Signature)
    requires Matches(g, mat)
    ensures var r := SignAttempt(g.p, g.h, g.k, mat, g.mu, g.seed, e % 0x1_0000, g.n);
            (r == Signed(s) <==> g.Emits(e, s)) && (r == Rejected <==> g.Refuses(e))
  {
    hide IsMatrix, StandsFor, AllBounded, SignAttempt, g.IsTrial, Passes;
    AttemptIs(g, mat, e);
  }

  lemma MatchedSizes(g: Signer, mat: seq<Vec>)
    requires Matches(g, mat)
    ensures IsMatrix(g.p, mat) && |g.k.s1| == g.p.L() && |g.k.s2| == |g.k.t0| == g.p.K() && g.Sized()
  {
  }

  /** One round of the loop: the trial decides, unless it is refused. */
  lemma LoopRound(g: Signer, mat: seq<Vec>, d: nat, left: nat, s: Signature)
    requires Matches(g, mat)
    ensures left == 0 ==> SignLoop(g.p, g.h, g.k, mat, g.mu, g.seed, d % 0x1_0000, left, g.n) != Some(s)
    ensures left > 0 && !g.Refuses(d) ==>
              (SignLoop(g.p, g.h, g.k, mat, g.mu, g.seed, d % 0x1_0000, left, g.n) == Some(s) <==> g.Emits(d, s))
    ensures left > 0 && g.Refuses(d) ==>
              !g.Emits(d, s) &&
              SignLoop(g.p, g.h, g.k, mat, g.mu, g.seed, d % 0x1_0000, left, g.n) ==
              SignLoop(g.p, g.h, g.k, mat, g.mu, g.seed, (d + 1) % 0x1_0000, left - 1, g.n)
  {
    hide Matches, IsMatrix, SignAttempt, SignLoop, g.Sized, g.Emits, g.Refuses;
    MatchedSizes(g, mat);
    LoopStep(g.p, g.h, g.k, mat, g.mu, g.seed, d % 0x1_0000, left, g.n);
    if left > 0 {
      AttemptCases(g, mat, d, s);
      NextNonce(d);
    }
  }

  /** The loop from trial d on ends with s exactly if the first trial that passes gives s. */
  lemma {:induction false} LoopIs(g: Signer, mat: seq<Vec>, d: nat, left: nat, s: Signature)
    requires Matches(g, mat)
    ensures SignLoop(g.p, g.h, g.k, mat, g.mu, g.seed, d % 0x1_0000, left, g.n) == Some(s) <==> g.Ends(d, left, s)
    decreases left
  {
    hide Matches, IsMatrix, SignLoop, g.Sized, g.Emits, g.Refuses, g.EndsAt, g.Ends;
    MatchedSizes(g, mat);
    LoopRound(g, mat, d, left, s);
    EndsStep(g, d, left, s);
    if left > 0 {
      LoopIs(g, mat, d + 1, left - 1, s);
    }
  }

  lemma NextNonce(d: nat)
    ensures (d % 0x1_0000 + 1) % 0x1_0000 == (d + 1) % 0x1_0000
  {
  }

  /** The first trial decides, unless it is refused. */
  lemma EndsStep(g: Signer, d: nat, left: nat, s: Signature)
    requires g.Sized()
    ensures left == 0 ==> !g.Ends(d, left, s)
    ensures left > 0 && !g.Refuses(d) ==> (g.Ends(d, left, s) <==> g.Emits(d, s))
    ensures left > 0 && g.Refuses(d) && !g.Emits(d, s) ==> (g.Ends(d, left, s) <==> g.Ends(d + 1, left - 1, s))
  {
    hide g.Sized, g.Emits, g.Refuses;
    if left > 0 && g.Emits(d, s) {
      assert g.EndsAt(d, d, s);
    }
    if left > 0 && g.Refuses(d) && !g.Emits(d, s) {
      if g.Ends(d, left, s) {
        var e: nat :| e < d + left && g.EndsAt(d, e, s);
        assert g.EndsAt(d + 1, e, s);
      }
      if g.Ends(d + 1, left - 1, s) {
        var e: nat :| e < d + left && g.EndsAt(d + 1, e, s);
        forall j: nat | d <= j < e
          ensures g.Refuses(j)
        {
          assert j == d || d + 1 <= j;
        }
        assert g.EndsAt(d, e, s);
      }
    }
  }

  // ---- Signing ----

  /** The run of signing for a secret key, a message and random bytes: the seed of the masks is the hash of the key's
      secret, the random bytes and the hash of the message. */
  function SignerOf(p: Params, h: Hash, a: seq<Vec>, sk: seq<Byte>, m: seq<Byte>, ctx: seq<Byte>, rnd: seq<Byte>, n: nat):
    Signer
    requires |sk| == p.SkBytes() && |ctx| <= 255
  {
    var mu := MessageHash(h, sk[64..128], ctx, m);
    Signer(p, h, a, UnpackSk(p, sk), mu, Squeeze(h.shake256, sk[32..64] + rnd + mu, 0, 64), n)
  }

  /** Signing is the rejection loop with the signer's values. */
  lemma SignIsLoop(p: Params, h: Hash, a: seq<Vec>, sk: seq<Byte>, m: seq<Byte>, ctx: seq<Byte>, rnd: seq<Byte>,
                   attempts: nat, n: nat)
    returns (mat: seq<Vec>)
    requires |sk| == p.SkBytes() && |rnd| == 32 && |ctx| <= 255 && MatrixOf(p, h, sk[..32], n, a)
    ensures var g := SignerOf(p, h, a, sk, m, ctx, rnd, n);
            Matches(g, mat) &&
            var s := SignLoop(g.p, g.h, g.k, mat, g.mu, g.seed, 0, attempts, g.n);
            Sign(p, h, sk, m, ctx, rnd, attempts, n) == if s.None? then Unfinished else Ok(SignatureBytes(p, s.value))
  {
    hide UnpackVec, Matrix, MatrixDone, MatrixOf, StandsFor, AllBounded, SignLoop, IsMatrix, SignatureBytes, Squeeze;
    MatrixOfIs(p, h, sk[..32], n, a);
    SecretBound(p, sk);
    mat := Matrix(p, h, sk[..32], n);
    RowLengths(p, mat, a);
  }

  lemma LoopBytes(g: Signer, mat: seq<Vec>, attempts: nat, r: SignResult, sig: seq<Byte>)
    requires Matches(g, mat)
    requires var s := SignLoop(g.p, g.h, g.k, mat, g.mu, g.seed, 0, attempts, g.n);
             r == if s.None? then Unfinished else Ok(SignatureBytes(g.p, s.value))
    ensures r == Ok(sig) <==> Signs(g, attempts, sig)
  {
    hide Matches, SignLoop, g.Ends, g.Sized, ValidSignature, PackSig, UnpackSig;
    MatchedSizes(g, mat);
    var l := SignLoop(g.p, g.h, g.k, mat, g.mu, g.seed, 0, attempts, g.n);
    if l.Some? {
      LoopIs(g, mat, 0, attempts, l.value);
    }
    forall s: Signature | g.Ends(0, attempts, s)
      ensures l == Some(s)
    {
      LoopIs(g, mat, 0, attempts, s);
    }
  }

  /** sig encodes the signature of the first trial that passes. */
  ghost predicate Signs(g: Signer, attempts: nat, sig: seq<Byte>)
    requires g.Sized()
  {
    exists s :: g.Ends(0, attempts, s) && ValidSignature(g.p, s) && PackSig(g.p, s) == sig
  }

  lemma SignerSized(p: Params, h: Hash, a: seq<Vec>, sk: seq<Byte>, m: seq<Byte>, ctx: seq<Byte>, rnd: seq<Byte>, n: nat)
    requires |sk| == p.SkBytes() && |ctx| <= 255 && MatrixOf(p, h, sk[..32], n, a)
    ensures SignerOf(p, h, a, sk, m, ctx, rnd, n).Sized()
  {
    hide UnpackVec, Squeeze, Accepted, CongSeq;
  }

  /** Signing emits exactly the encoding of the signature of the first trial that passes. */
  lemma SignIs(p: Params, h: Hash, a: seq<Vec>, sk: seq<Byte>, m: seq<Byte>, ctx: seq<Byte>, rnd: seq<Byte>,
               attempts: nat, n: nat, sig: seq<Byte>)
    requires |sk| == p.SkBytes() && |rnd| == 32 && |ctx| <= 255 && MatrixOf(p, h, sk[..32], n, a)
    ensures var g := SignerOf(p, h, a, sk, m, ctx, rnd, n);
            g.Sized() && (Sign(p, h, sk, m, ctx, rnd, attempts, n) == Ok(sig) <==> Signs(g, attempts, sig))
  {
    hide Sign, SignLoop, Matches, MatrixOf, UnpackSk, SignatureBytes, Signs, Squeeze, IsMatrix, StandsFor;
    SignerSized(p, h, a, sk, m, ctx, rnd, n);
    var mat := SignIsLoop(p, h, a, sk, m, ctx, rnd, attempts, n);
    LoopBytes(SignerOf(p, h, a, sk, m, ctx, rnd, n), mat, attempts, Sign(p, h, sk, m, ctx, rnd, attempts, n), sig);
  }

  /** Without such polynomials, or with a context of more than 255 bytes, signing emits nothing. */
  lemma SignNeeds(p: Params, h: Hash, sk: seq<Byte>, m: seq<Byte>, ctx: seq<Byte>, rnd: seq<Byte>, attempts: nat, n: nat)
    requires |sk| == p.SkBytes() && |rnd| == 32
    ensures Sign(p, h, sk, m, ctx, rnd, attempts, n).Ok? ==> |ctx| <= 255 && exists a :: MatrixOf(p, h, sk[..32], n, a)
  {
    hide UnpackVec, Matrix, MatrixDone, MatrixOf, StandsFor, SignLoop, SignatureBytes, Squeeze, IsMatrix;
    if Sign(p, h, sk, m, ctx, rnd, attempts, n).Ok? {
      var a := MatrixHasPolynomials(Matrix(p, h, sk[..32], n));
      MatrixOfIs(p, h, sk[..32], n, a);
    }
  }
}
