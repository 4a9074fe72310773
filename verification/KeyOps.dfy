/** packing.c: the loops that write and read keys and signatures. */
module KeyOps {
  import opened Arith
  import opened PolySpec
  import opened BitPack
  import opened HintCode
  import opened Options
  import opened Params
  import opened Encodings
  import opened PackOps

  /** Appends s to what has been written so far. */
  method Append(r: array<Byte>, ghost start: seq<Byte>, ghost done: seq<Byte>, off: nat, s: seq<Byte>)
    requires off == |done| && off + |s| <= r.Length == |start| && r[..] == Written(start, 0, done)
    modifies r
    ensures r[..] == Written(start, 0, done + s)
  {
    hide Written;
    WriteBytes(r, off, s);
    WrittenTwice(start, 0, done, s);
  }

  method AppendVec(f: Format, r: array<Byte>, ghost start: seq<Byte>, ghost done: seq<Byte>, off: nat, v: Vec)
    requires VecFits(f, v) && off == |done| && off + |PackVec(f, v)| <= r.Length == |start|
    requires r[..] == Written(start, 0, done)
    modifies r
    ensures r[..] == Written(start, 0, done + PackVec(f, v))
  {
    hide *;
    PackVecAt(f, r, off, v);
    WrittenTwice(start, 0, done, PackVec(f, v));
  }

  /** pack_pk */
  method PackPublicKey(p: Params, k: PublicKey) returns (b: seq<Byte>)
    requires ValidPublicKey(p, k)
    ensures b == PackPk(p, k)
  {
    hide Written, PackVec, VecFits;
    var r := new Byte[p.PkBytes()](i => 0);
    ghost var start: seq<Byte> := r[..];
    WrittenNothing(start, 0);
    Append(r, start, [], 0, k.rho);
    AppendVec(T1, r, start, [] + k.rho, 32, k.t1);
    assert [] + k.rho + PackVec(T1, k.t1) == PackPk(p, k);
    WrittenWhole(start, PackPk(p, k));
    b := r[..];
  }

  /** unpack_pk */
  method UnpackPublicKey(p: Params, b: seq<Byte>) returns (k: PublicKey)
    requires |b| == p.PkBytes()
    ensures k == UnpackPk(p, b)
  {
    hide UnpackVec;
    var t1 := UnpackVecAt(T1, p.K(), b, 32);
    assert b[32..32 + p.K() * PolyBytes(T1)] == b[32..];
    k := PublicKey(b[..32], t1);
  }

  /** pack_sk */
  method PackSecretKey(p: Params, k: SecretKey) returns (b: seq<Byte>)
    requires ValidSecretKey(p, k)
    ensures b == PackSk(p, k)
  {
    hide Written, PackVec, VecFits;
    var e := PolyBytes(p.EtaFormat());
    var r := new Byte[p.SkBytes()](i => 0);
    ghost var start: seq<Byte> := r[..];
    WrittenNothing(start, 0);
    Append(r, start, [], 0, k.rho);
    ghost var d := [] + k.rho;
    Append(r, start, d, 32, k.key);
    d := d + k.key;
    Append(r, start, d, 64, k.tr);
    d := d + k.tr;
    AppendVec(p.EtaFormat(), r, start, d, 128, k.s1);
    d := d + PackVec(p.EtaFormat(), k.s1);
    AppendVec(p.EtaFormat(), r, start, d, 128 + p.L() * e, k.s2);
    d := d + PackVec(p.EtaFormat(), k.s2);
    AppendVec(T0, r, start, d, 128 + p.L() * e + p.K() * e, k.t0);
    d := d + PackVec(T0, k.t0);
    assert d == PackSk(p, k) by { assert [] + k.rho == k.rho; }
    WrittenWhole(start, PackSk(p, k));
    b := r[..];
  }

  /** unpack_sk */
  method UnpackSecretKey(p: Params, b: seq<Byte>) returns (k: SecretKey)
    requires |b| == p.SkBytes()
    ensures k == UnpackSk(p, b)
  {
    hide UnpackVec;
    var e := PolyBytes(p.EtaFormat());
    var o1 := 128 + p.L() * e;
    var o2 := o1 + p.K() * e;
    var s1 := UnpackVecAt(p.EtaFormat(), p.L(), b, 128);
    var s2 := UnpackVecAt(p.EtaFormat(), p.K(), b, o1);
    var t0 := UnpackVecAt(T0, p.K(), b, o2);
    assert b[o2..o2 + p.K() * PolyBytes(T0)] == b[o2..];
    k := SecretKey(b[..32], b[32..64], b[64..128], s1, s2, t0);
  }

  /** pack_sig */
  method PackSignature(p: Params, s: Signature) returns (b: seq<Byte>)
    requires ValidSignature(p, s)
    ensures b == PackSig(p, s)
  {
    hide Written, PackVec, VecFits, EncodeHints, CountOnes;
    var o := p.CTildeBytes() + p.L() * PolyBytes(p.ZFormat());
    var r := new Byte[p.SigBytes()](i => 0);
    ghost var start: seq<Byte> := r[..];
    WrittenNothing(start, 0);
    Append(r, start, [], 0, s.c);
    ghost var d := [] + s.c;
    AppendVec(p.ZFormat(), r, start, d, p.CTildeBytes(), s.z);
    d := d + PackVec(p.ZFormat(), s.z);
    var e := new Byte[p.Omega() + p.K()](i => 0);
    EncodeHintsInto(e, s.h, p.Omega());
    Append(r, start, d, o, e[..]);
    d := d + e[..];
    assert d == PackSig(p, s) by { assert [] + s.c == s.c; }
    WrittenWhole(start, d);
    b := r[..];
  }

  /** unpack_sig */
  method UnpackSignature(p: Params, b: seq<Byte>) returns (s: Option<Signature>)
    requires |b| == p.SigBytes()
    ensures s == UnpackSig(p, b)
  {
    hide UnpackVec, DecodeHints;
    var o := p.CTildeBytes() + p.L() * PolyBytes(p.ZFormat());
    var z := UnpackVecAt(p.ZFormat(), p.L(), b, p.CTildeBytes());
    var h := DecodeHintsFrom(b[o..], p.Omega());
    s := if h.None? then None else Some(Signature(b[..p.CTildeBytes()], z, h.value));
  }
}
