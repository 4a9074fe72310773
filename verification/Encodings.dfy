/** packing.c on values: keys and signatures. */
module Encodings {
  import opened Arith
  import opened PolySpec
  import opened BitPack
  import opened HintCode
  import opened Options
  import opened Params

  ghost predicate VecFits(f: Format, v: Vec) { forall i :: 0 <= i < |v| ==> AllFit(f, v[i]) }

  function PackVec(f: Format, v: Vec): (r: seq<Byte>)
    requires VecFits(f, v)
    ensures |r| == |v| * PolyBytes(f)
  {
    if v == [] then []
    else
      OneLess(|v|, PolyBytes(f));
      PackPoly(f, v[0]) + PackVec(f, v[1..])
  }

  function UnpackVec(f: Format, n: nat, a: seq<Byte>): (v: Vec)
    requires |a| == n * PolyBytes(f)
    ensures |v| == n
  {
    if n == 0 then []
    else
      OneLess(n, PolyBytes(f));
      [UnpackPoly(f, a[..PolyBytes(f)])] + UnpackVec(f, n - 1, a[PolyBytes(f)..])
  }

  lemma {:induction false} VecRoundTrip(f: Format, v: Vec)
    requires VecFits(f, v)
    ensures UnpackVec(f, |v|, PackVec(f, v)) == v
  {
    hide PackPoly, UnpackPoly, AllFit, PolyBytes;
    if v != [] {
      var b := PolyBytes(f);
      PolyRoundTrip(f, v[0]);
      VecRoundTrip(f, v[1..]);
      var r := PackVec(f, v);
      assert r[..b] == PackPoly(f, v[0]) && r[b..] == PackVec(f, v[1..]);
      assert v == [v[0]] + v[1..];
    }
  }

  lemma {:induction false} VecCanonical(f: Format, n: nat, a: seq<Byte>)
    requires IsZ(f) && |a| == n * PolyBytes(f)
    ensures VecFits(f, UnpackVec(f, n, a)) && PackVec(f, UnpackVec(f, n, a)) == a
    decreases n
  {
    hide PackPoly, UnpackPoly, AllFit, PolyBytes;
    if n != 0 {
      var b := PolyBytes(f);
      OneLess(n, b);
      PolyCanonical(f, a[..b]);
      VecCanonical(f, n - 1, a[b..]);
      var v := UnpackVec(f, n, a);
      assert v[0] == UnpackPoly(f, a[..b]) && v[1..] == UnpackVec(f, n - 1, a[b..]);
      assert a == a[..b] + a[b..];
    }
  }

  datatype PublicKey = PublicKey(rho: seq<Byte>, t1: Vec)
  datatype SecretKey = SecretKey(rho: seq<Byte>, key: seq<Byte>, tr: seq<Byte>, s1: Vec, s2: Vec, t0: Vec)
  datatype Signature = Signature(c: seq<Byte>, z: Vec, h: Vec)

  ghost predicate ValidPublicKey(p: Params, k: PublicKey)
  {
    |k.rho| == 32 && |k.t1| == p.K() && VecFits(T1, k.t1)
  }

  ghost predicate ValidSecretKey(p: Params, k: SecretKey)
  {
    |k.rho| == 32 && |k.key| == 32 && |k.tr| == 64 && |k.s1| == p.L() && |k.s2| == |k.t0| == p.K() &&
    VecFits(p.EtaFormat(), k.s1) && VecFits(p.EtaFormat(), k.s2) && VecFits(T0, k.t0)
  }

  ghost predicate ValidSignature(p: Params, s: Signature)
  {
    |s.c| == p.CTildeBytes() && |s.z| == p.L() && |s.h| == p.K() &&
    VecFits(p.ZFormat(), s.z) && AllHints(s.h) && CountOnes(s.h) <= p.Omega()
  }

  function PackPk(p: Params, k: PublicKey): (r: seq<Byte>)
    requires ValidPublicKey(p, k)
    ensures |r| == p.PkBytes()
  {
    k.rho + PackVec(T1, k.t1)
  }

  function UnpackPk(p: Params, b: seq<Byte>): (k: PublicKey)
    requires |b| == p.PkBytes()
    ensures |k.rho| == 32 && |k.t1| == p.K()
  {
    PublicKey(b[..32], UnpackVec(T1, p.K(), b[32..]))
  }

  lemma PkRoundTrip(p: Params, k: PublicKey)
    requires ValidPublicKey(p, k)
    ensures UnpackPk(p, PackPk(p, k)) == k
  {
    hide PackVec, UnpackVec;
    var b := PackPk(p, k);
    VecRoundTrip(T1, k.t1);
    assert b[..32] == k.rho && b[32..] == PackVec(T1, k.t1);
  }

  function PackSk(p: Params, k: SecretKey): (r: seq<Byte>)
    requires ValidSecretKey(p, k)
    ensures |r| == p.SkBytes()
  {
    k.rho + k.key + k.tr + PackVec(p.EtaFormat(), k.s1) + PackVec(p.EtaFormat(), k.s2) + PackVec(T0, k.t0)
  }

  function UnpackSk(p: Params, b: seq<Byte>): (k: SecretKey)
    requires |b| == p.SkBytes()
    ensures |k.rho| == 32 && |k.key| == 32 && |k.tr| == 64 && |k.s1| == p.L() && |k.s2| == |k.t0| == p.K()
  {
    var e := PolyBytes(p.EtaFormat());
    var o1 := 128 + p.L() * e;
    var o2 := o1 + p.K() * e;
    SecretKey(b[..32], b[32..64], b[64..128],
              UnpackVec(p.EtaFormat(), p.L(), b[128..o1]),
              UnpackVec(p.EtaFormat(), p.K(), b[o1..o2]),
              UnpackVec(T0, p.K(), b[o2..]))
  }

  lemma SkRoundTrip(p: Params, k: SecretKey)
    requires ValidSecretKey(p, k)
    ensures UnpackSk(p, PackSk(p, k)) == k
  {
    hide PackVec, UnpackVec;
    var b := PackSk(p, k);
    var e := PolyBytes(p.EtaFormat());
    var o1 := 128 + p.L() * e;
    var o2 := o1 + p.K() * e;
    VecRoundTrip(p.EtaFormat(), k.s1);
    VecRoundTrip(p.EtaFormat(), k.s2);
    VecRoundTrip(T0, k.t0);
    assert b[..32] == k.rho && b[32..64] == k.key && b[64..128] == k.tr;
    assert b[128..o1] == PackVec(p.EtaFormat(), k.s1);
    assert b[o1..o2] == PackVec(p.EtaFormat(), k.s2);
    assert b[o2..] == PackVec(T0, k.t0);
  }

  function PackSig(p: Params, s: Signature): (r: seq<int>)
    requires ValidSignature(p, s)
    ensures |r| == p.SigBytes()
  {
    s.c + PackVec(p.ZFormat(), s.z) + EncodeHints(s.h, p.Omega())
  }

  function UnpackSig(p: Params, b: seq<Byte>): (r: Option<Signature>)
    requires |b| == p.SigBytes()
    ensures r.Some? ==> |r.value.c| == p.CTildeBytes() && |r.value.z| == p.L() && |r.value.h| == p.K()
  {
    var o := p.CTildeBytes() + p.L() * PolyBytes(p.ZFormat());
    var h := DecodeHints(b[o..], p.Omega());
    if h.None? then None
    else Some(Signature(b[..p.CTildeBytes()], UnpackVec(p.ZFormat(), p.L(), b[p.CTildeBytes()..o]), h.value))
  }

  lemma SigRoundTrip(p: Params, s: Signature)
    requires ValidSignature(p, s)
    ensures forall i :: 0 <= i < p.SigBytes() ==> 0 <= PackSig(p, s)[i] < 256
    ensures UnpackSig(p, PackSig(p, s)) == Some(s)
  {
    hide PackVec, UnpackVec, EncodeHints, DecodeHints;
    var b := PackSig(p, s);
    var o := p.CTildeBytes() + p.L() * PolyBytes(p.ZFormat());
    VecRoundTrip(p.ZFormat(), s.z);
    HintsRoundTrip(s.h, p.Omega());
    assert b[..p.CTildeBytes()] == s.c;
    assert b[p.CTildeBytes()..o] == PackVec(p.ZFormat(), s.z);
    assert b[o..] == EncodeHints(s.h, p.Omega());
  }

  /** A signature that decodes has exactly one encoding. */
  lemma SigCanonical(p: Params, b: seq<Byte>)
    requires |b| == p.SigBytes()
    ensures UnpackSig(p, b).Some? ==>
              ValidSignature(p, UnpackSig(p, b).value) && PackSig(p, UnpackSig(p, b).value) == b
  {
    hide PackVec, UnpackVec, EncodeHints, DecodeHints, PolyBytes, VecFits, AllHints, CountOnes;
    var f, n := p.ZFormat(), p.CTildeBytes();
    var o := n + p.L() * PolyBytes(f);
    SigLayout(p);
    VecCanonical(f, p.L(), b[n..o]);
    if UnpackSig(p, b).Some? {
      HintsCanonical(b[o..], p.Omega());
      ThreePieces(b, n, o);
    }
  }

  lemma SigLayout(p: Params)
    ensures p.CTildeBytes() <= p.CTildeBytes() + p.L() * PolyBytes(p.ZFormat())
    ensures p.SigBytes() == p.CTildeBytes() + p.L() * PolyBytes(p.ZFormat()) + p.Omega() + p.K()
  {
  }

  lemma ThreePieces(b: seq<Byte>, n: nat, o: nat)
    requires n <= o <= |b|
    ensures b == b[..n] + b[n..o] + b[o..]
  {
  }
}
