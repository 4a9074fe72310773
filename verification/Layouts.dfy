/** Where everything stands in keys and signatures, bit by bit. */
module Layouts {
  import opened Arith
  import opened PolySpec
  import opened BitPack
  import opened BitLaw
  import opened HintCode
  import opened Options
  import opened Params
  import opened Encodings

  /** The polynomials of v stand in b one behind the other, each in size bytes, the first at off. */
  ghost predicate Stand(f: Format, size: nat, b: seq<Byte>, off: nat, v: Vec)
  {
    forall i :: 0 <= i < |v| ==> StandsAt(f, size, b, off + i * size, v[i])
  }

  ghost predicate StandsAt(f: Format, size: nat, b: seq<Byte>, off: int, p: Poly)
  {
    0 <= off && off + size <= |b| && Holds(f, b[off..off + size], p)
  }

  lemma SliceOf(b: seq<Byte>, off: nat, n: nat, i: nat, j: nat)
    requires off + n <= |b| && i <= j <= n
    ensures b[off..off + n][i..j] == b[off + i..off + j]
  {
    var s, t := b[off..off + n][i..j], b[off + i..off + j];
    assert forall k :: 0 <= k < j - i ==> s[k] == b[off + i + k] == t[k];
  }

  /** Where polynomial i stands, seen from the first and from the second. */
  lemma Offsets(off: int, size: int, i: int)
    ensures off + 0 * size == off && off + size + i * size == off + (i + 1) * size
  {
  }

  /** The first polynomial and the others. */
  lemma StandStep(f: Format, size: nat, b: seq<Byte>, off: nat, v: Vec)
    requires |v| > 0
    ensures Stand(f, size, b, off, v) <==>
            StandsAt(f, size, b, off, v[0]) && Stand(f, size, b, off + size, v[1..])
  {
    hide StandsAt;
    var rest := v[1..];
    Offsets(off, size, 0);
    if Stand(f, size, b, off, v) {
      assert StandsAt(f, size, b, off + 0 * size, v[0]);
      forall i | 0 <= i < |rest|
        ensures StandsAt(f, size, b, off + size + i * size, rest[i])
      {
        Offsets(off, size, i);
        assert StandsAt(f, size, b, off + (i + 1) * size, v[i + 1]);
      }
      assert Stand(f, size, b, off + size, rest);
    }
    if StandsAt(f, size, b, off, v[0]) && Stand(f, size, b, off + size, rest) {
      forall i | 0 <= i < |v|
        ensures StandsAt(f, size, b, off + i * size, v[i])
      {
        if i == 0 {
          assert i * size == 0;
        } else {
          Offsets(off, size, i - 1);
          assert StandsAt(f, size, b, off + size + (i - 1) * size, rest[i - 1]);
        }
      }
      assert Stand(f, size, b, off, v);
    }
  }

  lemma {:induction false} VecIs(f: Format, n: nat, b: seq<Byte>, off: nat, v: Vec)
    requires |v| == n && off + n * PolyBytes(f) <= |b|
    ensures UnpackVec(f, n, b[off..off + n * PolyBytes(f)]) == v <==> Stand(f, PolyBytes(f), b, off, v)
  {
    hide PolyBytes, UnpackPoly, Stand, Holds;
    var s := PolyBytes(f);
    if n == 0 {
      NoneStand(f, s, b, off, v);
    } else {
      OneLess(n, s);
      var a := b[off..off + n * s];
      SliceOf(b, off, n * s, 0, s);
      SliceOf(b, off, n * s, s, n * s);
      UnpackIs(f, b[off..off + s], v[0]);
      VecIs(f, n - 1, b, off + s, v[1..]);
      StandStep(f, s, b, off, v);
      assert v == [v[0]] + v[1..];
    }
  }

  lemma NoneStand(f: Format, size: nat, b: seq<Byte>, off: nat, v: Vec)
    requires v == []
    ensures Stand(f, size, b, off, v)
  {
  }

  /** A public key is rho, and behind it t1 in ten bits a coefficient. */
  lemma PublicKeyIs(p: Params, b: seq<Byte>, k: PublicKey)
    requires |b| == p.PkBytes() && |k.t1| == p.K()
    ensures UnpackPk(p, b) == k <==> k.rho == b[..32] && Stand(T1, 320, b, 32, k.t1)
  {
    hide UnpackVec, Stand;
    assert b[32..] == b[32..32 + p.K() * 320];
    VecIs(T1, p.K(), b, 32, k.t1);
  }

  /** Bytes of a polynomial with coefficients up to ETA. */
  function EtaSize(p: Params): nat { if p == Mldsa65 then 128 else 96 }

  /** Bytes of a polynomial of the response. */
  function ZSize(p: Params): nat { if p == Mldsa44 then 576 else 640 }

  /** A secret key is rho, the signing secret, the hash of the public key, s1, s2 and t0, in this order. */
  lemma SecretKeyIs(p: Params, b: seq<Byte>, k: SecretKey)
    requires |b| == p.SkBytes() && |k.s1| == p.L() && |k.s2| == |k.t0| == p.K()
    ensures UnpackSk(p, b) == k <==>
            k.rho == b[..32] && k.key == b[32..64] && k.tr == b[64..128] &&
            Stand(p.EtaFormat(), EtaSize(p), b, 128, k.s1) &&
            Stand(p.EtaFormat(), EtaSize(p), b, 128 + p.L() * EtaSize(p), k.s2) &&
            Stand(T0, 416, b, 128 + (p.L() + p.K()) * EtaSize(p), k.t0)
  {
    hide UnpackVec, Stand;
    var f, e := p.EtaFormat(), EtaSize(p);
    assert PolyBytes(f) == e && PolyBytes(T0) == 416;
    var o1 := 128 + p.L() * e;
    var o2 := o1 + p.K() * e;
    assert o2 == 128 + (p.L() + p.K()) * e;
    assert b[o2..] == b[o2..o2 + p.K() * 416];
    VecIs(f, p.L(), b, 128, k.s1);
    VecIs(f, p.K(), b, o1, k.s2);
    VecIs(T0, p.K(), b, o2, k.t0);
  }

  /** A signature is the challenge seed, the response, and the hints as positions and totals. */
  lemma SignatureIs(p: Params, b: seq<Byte>, s: Signature)
    requires |b| == p.SigBytes() && |s.z| == p.L() && |s.h| == p.K()
    ensures var n := p.CTildeBytes();
            var o := n + p.L() * ZSize(p);
            o + p.Omega() <= |b| &&
            (UnpackSig(p, b) == Some(s) <==>
             s.c == b[..n] && Stand(p.ZFormat(), ZSize(p), b, n, s.z) &&
             RowsAt(b[o..o + p.Omega()], b[o + p.Omega()..], 0, s.h))
  {
    hide UnpackVec, Stand, DecodeHints, RowsAt;
    var n := p.CTildeBytes();
    var o := n + p.L() * ZSize(p);
    assert PolyBytes(p.ZFormat()) == ZSize(p);
    SigLayout(p);
    VecIs(p.ZFormat(), p.L(), b, n, s.z);
    DecodesIs(b[o..], p.Omega(), s.h);
    assert b[o..][..p.Omega()] == b[o..o + p.Omega()] && b[o..][p.Omega()..] == b[o + p.Omega()..];
  }
}
