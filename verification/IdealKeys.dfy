/** Key generation from the seed to the bytes of both keys, with hashing and polynomials written out. */
module IdealKeys {
  import opened Arith
  import opened PolySpec
  import opened MatrixProduct
  import opened Options
  import opened Params
  import opened Encodings
  import opened Sampling
  import opened Scheme
  import opened Ideal
  import opened Streams

  /** The 128 bytes that the seed expands to, in three parts. */
  function SeedRho(p: Params, h: Hash, seed: seq<Byte>): seq<Byte>
  {
    Squeeze(h.shake256, seed + [p.K(), p.L()], 0, 32)
  }

  function SeedRhoPrime(p: Params, h: Hash, seed: seq<Byte>): seq<Byte>
  {
    Squeeze(h.shake256, seed + [p.K(), p.L()], 32, 64)
  }

  function SeedKey(p: Params, h: Hash, seed: seq<Byte>): seq<Byte>
  {
    Squeeze(h.shake256, seed + [p.K(), p.L()], 96, 32)
  }

  /** What the stream number i of the secret seed yields. */
  function ShortStream(p: Params, h: Hash, rhoprime: seq<Byte>, i: nat, n: nat): seq<int>
    requires i < 256
  {
    EtaAccepted(p.Eta(), Squeeze(h.shake256, rhoprime + [i, 0], 0, 136 * ((if p.Eta() == 2 then 1 else 2) + n)))
  }

  /** Every part of the expanded seed is at its place, and the secret key holds the hash of the public key. */
  ghost predicate Placed(p: Params, h: Hash, seed: seq<Byte>, pk: seq<Byte>, sk: seq<Byte>)
    requires |pk| == p.PkBytes() && |sk| == p.SkBytes()
  {
    pk[..32] == SeedRho(p, h, seed) && sk[..32] == SeedRho(p, h, seed) && sk[32..64] == SeedKey(p, h, seed) &&
    sk[64..128] == Squeeze(h.shake256, pk, 0, 64)
  }

  /** The polynomials of v come from the streams with the numbers from first on. */
  ghost predicate ShortFrom(p: Params, h: Hash, rhoprime: seq<Byte>, first: nat, v: Vec, n: nat)
    requires first + |v| <= 256
  {
    forall k :: first <= k < first + |v| ==> FirstOf(v[k - first], ShortStream(p, h, rhoprime, k, n))
  }

  /** t1 and t0 are the high and low parts of A * s1 + s2 modulo Q and X^256 + 1. */
  ghost predicate SplitsKey(a: seq<Vec>, s1: Vec, s2: Vec, t1: Vec, t0: Vec)
    requires |a| == |s2| == |t1| == |t0| && forall i :: 0 <= i < |a| ==> |a[i]| == |s1|
  {
    forall i, j :: 0 <= i < |a| && 0 <= j < 256 ==>
      (SumOfProducts(a[i], s1, j) + s2[i][j]) % Q == t1[i][j] * 8192 + t0[i][j] && -4096 < t0[i][j] <= 4096
  }

  lemma SeedParts(p: Params, h: Hash, seed: seq<Byte>)
    ensures var b := Shake(h, seed + [p.K(), p.L()], 128);
            b[..32] == SeedRho(p, h, seed) && b[32..96] == SeedRhoPrime(p, h, seed) && b[96..] == SeedKey(p, h, seed)
  {
  }

  lemma ShortEntry(p: Params, h: Hash, rhoprime: seq<Byte>, i: nat, n: nat)
    requires i < 256
    ensures var s := ShortStream(p, h, rhoprime, i, n);
            EtaEntry(p, h, rhoprime, i, n) == if |s| >= 256 then Some(s[..256]) else None
  {
    hide EtaAccepted;
    EtaNonce(i);
  }

  /** The short vectors exist exactly if every stream yields 256 values. */
  lemma ShortVec(p: Params, h: Hash, rhoprime: seq<Byte>, first: nat, count: nat, n: nat)
    requires first + count <= 256
    ensures EtaDone(p, h, rhoprime, first, count, n) <==>
            forall k: nat :: first <= k < first + count ==> |ShortStream(p, h, rhoprime, k, n)| >= 256
    ensures EtaDone(p, h, rhoprime, first, count, n) ==>
              ShortFrom(p, h, rhoprime, first, EtaVec(p, h, rhoprime, first, count, n), n)
  {
    hide EtaEntry, ShortStream, Bounded;
    forall k: nat | first <= k < first + count
      ensures var s := ShortStream(p, h, rhoprime, k, n);
              EtaEntry(p, h, rhoprime, k, n) == if |s| >= 256 then Some(s[..256]) else None
    {
      ShortEntry(p, h, rhoprime, k, n);
    }
    if EtaDone(p, h, rhoprime, first, count, n) {
      forall k: nat | first <= k < first + count
        ensures |ShortStream(p, h, rhoprime, k, n)| >= 256
      {
        assert EtaEntry(p, h, rhoprime, k, n).Some?;
      }
    }
  }

  /** The two parts of a coefficient make it up. */
  lemma SplitRow(t: Poly, j: nat)
    requires Canonical(t) && j < 256
    ensures t[j] == PHigh(t)[j] * 8192 + PLow(t)[j] && -4096 < PLow(t)[j] <= 4096
  {
  }

  lemma SplitVec(a: seq<Vec>, s1: Vec, s2: Vec, t: Vec)
    requires |a| == |s2| && forall i :: 0 <= i < |a| ==> |a[i]| == |s1|
    requires t == IdealKey(a, s1, s2) && AllCanonical(t)
    ensures SplitsKey(a, s1, s2, VHigh(t), VLow(t))
  {
    hide SumOfProducts, PHigh, PLow;
    forall i, j | 0 <= i < |a| && 0 <= j < 256
      ensures (SumOfProducts(a[i], s1, j) + s2[i][j]) % Q == VHigh(t)[i][j] * 8192 + VLow(t)[i][j]
      ensures -4096 < VLow(t)[i][j] <= 4096
    {
      SplitRow(t[i], j);
      assert t[i][j] == (SumOfProducts(a[i], s1, j) + s2[i][j]) % Q;
    }
  }

  /** The keys are made of what the seed expands to: every part at its place, s1 and s2 from the streams 0 to K + L - 1
      of the secret seed, and t1 * 2^13 + t0 equal to A * s1 + s2. */
  ghost predicate KeysOf(p: Params, h: Hash, a: seq<Vec>, seed: seq<Byte>, n: nat, pk: seq<Byte>, sk: seq<Byte>)
    requires |pk| == p.PkBytes() && |sk| == p.SkBytes() && |a| == p.K() && forall i :: 0 <= i < |a| ==> |a[i]| == p.L()
  {
    var k, t1 := UnpackSk(p, sk), UnpackPk(p, pk).t1;
    Placed(p, h, seed, pk, sk) && ShortFrom(p, h, SeedRhoPrime(p, h, seed), 0, k.s1, n) &&
    ShortFrom(p, h, SeedRhoPrime(p, h, seed), p.L(), k.s2, n) && SplitsKey(a, k.s1, k.s2, t1, k.t0)
  }

  /** Key generation finishes exactly when every stream yields 256 values, and then gives the keys of the seed, for
      polynomials a that belong to the public seed. */
  lemma KeyGenIs(p: Params, h: Hash, a: seq<Vec>, seed: seq<Byte>, n: nat)
    requires |seed| == 32 && MatrixOf(p, h, SeedRho(p, h, seed), n, a)
    ensures |a| == p.K() && forall i :: 0 <= i < |a| ==> |a[i]| == p.L()
    ensures KeyGen(p, h, seed, n).Some? <==>
            forall k: nat :: k < p.L() + p.K() ==> |ShortStream(p, h, SeedRhoPrime(p, h, seed), k, n)| >= 256
    ensures KeyGen(p, h, seed, n).Some? ==>
              var r := KeyGen(p, h, seed, n).value; KeysOf(p, h, a, seed, n, r.pk, r.sk)
  {
    hide PackPk, PackSk, UnpackPk, UnpackSk, Matrix, MatrixDone, MatrixOf, EtaVec, EtaDone, KeyVector, IdealKey, ShortFrom,
         SplitsKey, ShortStream, StandsFor, SeedRho, SeedRhoPrime, SeedKey, Placed, IsMatrix;
    SeedParts(p, h, seed);
    MatrixOfIs(p, h, SeedRho(p, h, seed), n, a);
    RowLengths(p, Matrix(p, h, SeedRho(p, h, seed), n), a);
    var rho, rhoprime, key := SeedRho(p, h, seed), SeedRhoPrime(p, h, seed), SeedKey(p, h, seed);
    ShortVec(p, h, rhoprime, 0, p.L(), n);
    ShortVec(p, h, rhoprime, p.L(), p.K(), n);
    if KeyGen(p, h, seed, n).Some? {
      var mat := Matrix(p, h, rho, n);
      var s1, s2 := EtaVec(p, h, rhoprime, 0, p.L(), n), EtaVec(p, h, rhoprime, p.L(), p.K(), n);
      AllWiden(s1, p.Eta(), 4);
      AllWiden(s2, p.Eta(), 4);
      KeyVectorCanonical(p, mat, s1, s2);
      KeyIdeal(p, mat, a, s1, s2);
      MatrixLength(p, mat);
      var t := KeyVector(mat, s1, s2);
      SplitVec(a, s1, s2, t);
      KeysPlaced(p, h, seed, rho, key, s1, s2, t);
    }
  }

  lemma KeysPlaced(p: Params, h: Hash, seed: seq<Byte>, rho: seq<Byte>, key: seq<Byte>, s1: Vec, s2: Vec, t: Vec)
    requires rho == SeedRho(p, h, seed) && key == SeedKey(p, h, seed)
    requires |s1| == p.L() && |s2| == |t| == p.K() && AllCanonical(t)
    requires AllBounded(s1, p.Eta()) && AllBounded(s2, p.Eta())
    ensures |rho| == |key| == 32
    ensures var pk := PackPk(p, PublicPart(p, rho, t));
            var sk := PackSk(p, SecretPart(p, rho, key, Shake(h, pk, 64), s1, s2, t));
            var k := UnpackSk(p, sk);
            Placed(p, h, seed, pk, sk) && k.s1 == s1 && k.s2 == s2 && k.t0 == VLow(t) && UnpackPk(p, pk).t1 == VHigh(t)
  {
    hide PackVec, UnpackVec, AllCanonical, AllBounded, VHigh, VLow, VecFits;
    var pub := PublicPart(p, rho, t);
    PkRoundTrip(p, pub);
    var pk := PackPk(p, pub);
    SkRoundTrip(p, SecretPart(p, rho, key, Shake(h, pk, 64), s1, s2, t));
  }

  /** There are such polynomials whenever key generation finishes. */
  lemma KeyGenMatrix(p: Params, h: Hash, seed: seq<Byte>, n: nat)
    requires |seed| == 32 && KeyGen(p, h, seed, n).Some?
    ensures exists a :: MatrixOf(p, h, SeedRho(p, h, seed), n, a)
  {
    hide Matrix, MatrixDone, MatrixOf, EtaVec, EtaDone, AssembleKeys, StandsFor;
    SeedParts(p, h, seed);
    var rho := SeedRho(p, h, seed);
    var a := MatrixHasPolynomials(Matrix(p, h, rho, n));
    MatrixOfIs(p, h, rho, n, a);
  }
}
