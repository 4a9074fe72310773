/** The operations of poly.c and polyvec.c on values. */
module PolySpec {
  import opened Arith
  import opened Rounding
  import opened NttSpec
  import opened NttInverse
  import opened NttProduct

  /** A polynomial modulo X^256 + 1, lowest coefficient first. */
  type Poly = p: seq<int> | |p| == 256 witness seq(256, i => 0)
  type Vec = seq<Poly>

  ghost predicate Canonical(p: seq<int>)
  {
    forall i :: 0 <= i < |p| ==> 0 <= p[i] < Q
  }

  ghost predicate AllBounded(v: Vec, b: int)
  {
    forall i :: 0 <= i < |v| ==> Bounded(v[i], b)
  }

  ghost predicate AllCanonical(v: Vec)
  {
    forall i :: 0 <= i < |v| ==> Canonical(v[i])
  }

  /** reduce32 without the machine's range. */
  function Red(a: int): int { a - (a + 0x40_0000) / 0x80_0000 * Q }

  function CAdd(a: int): int { if a < 0 then a + Q else a }

  function PRed(p: Poly): Poly { seq(256, i requires 0 <= i < 256 => Red(p[i])) }

  function PCaddq(p: Poly): Poly { seq(256, i requires 0 <= i < 256 => CAdd(p[i])) }

  function PAdd(p: Poly, q: Poly): Poly { seq(256, i requires 0 <= i < 256 => p[i] + q[i]) }

  function PSub(p: Poly, q: Poly): Poly { seq(256, i requires 0 <= i < 256 => p[i] - q[i]) }

  function PShift(p: Poly): Poly { seq(256, i requires 0 <= i < 256 => p[i] * 8192) }

  function PHigh(p: Poly): Poly
    requires Canonical(p)
  {
    seq(256, i requires 0 <= i < 256 => Power2Round(p[i]).0)
  }

  function PLow(p: Poly): Poly
    requires Canonical(p)
  {
    seq(256, i requires 0 <= i < 256 => Power2Round(p[i]).1)
  }

  function PHighBits(g: int, p: Poly): Poly
    requires IsGamma2(g) && Canonical(p)
  {
    seq(256, i requires 0 <= i < 256 => Decompose(g, p[i]).0)
  }

  function PLowBits(g: int, p: Poly): Poly
    requires IsGamma2(g) && Canonical(p)
  {
    seq(256, i requires 0 <= i < 256 => Decompose(g, p[i]).1)
  }

  function PMakeHint(g: int, p0: Poly, p1: Poly): Poly
  {
    seq(256, i requires 0 <= i < 256 => MakeHint(g, p0[i], p1[i]))
  }

  function PUseHint(g: int, p: Poly, h: Poly): Poly
    requires IsGamma2(g) && Canonical(p)
  {
    seq(256, i requires 0 <= i < 256 => UseHint(g, p[i], h[i]))
  }

  /** Row of the matrix times a vector, both transformed: the sum of the pointwise products. */
  function Acc(row: Vec, v: Vec): Poly
    requires 0 < |row| == |v|
  {
    var n := |row| - 1;
    if n == 0 then Pointwise(row[0], v[0]) else PAdd(Acc(row[..n], v[..n]), Pointwise(row[n], v[n]))
  }

  function VForward(v: Vec): Vec { seq(|v|, i requires 0 <= i < |v| => Forward(v[i])) }

  function VInverse(v: Vec): Vec { seq(|v|, i requires 0 <= i < |v| => Inverse(v[i])) }

  function VRed(v: Vec): Vec { seq(|v|, i requires 0 <= i < |v| => PRed(v[i])) }

  function VCaddq(v: Vec): Vec { seq(|v|, i requires 0 <= i < |v| => PCaddq(v[i])) }

  function VShift(v: Vec): Vec { seq(|v|, i requires 0 <= i < |v| => PShift(v[i])) }

  function VAdd(u: Vec, v: Vec): Vec
    requires |u| == |v|
  {
    seq(|v|, i requires 0 <= i < |v| => PAdd(u[i], v[i]))
  }

  function VSub(u: Vec, v: Vec): Vec
    requires |u| == |v|
  {
    seq(|v|, i requires 0 <= i < |v| => PSub(u[i], v[i]))
  }

  function VPointwise(c: Poly, v: Vec): Vec { seq(|v|, i requires 0 <= i < |v| => Pointwise(c, v[i])) }

  function VMat(mat: seq<Vec>, v: Vec): Vec
    requires 0 < |v| && forall i :: 0 <= i < |mat| ==> |mat[i]| == |v|
  {
    seq(|mat|, i requires 0 <= i < |mat| => Acc(mat[i], v))
  }

  function VHigh(v: Vec): Vec
    requires AllCanonical(v)
  {
    seq(|v|, i requires 0 <= i < |v| => PHigh(v[i]))
  }

  function VLow(v: Vec): Vec
    requires AllCanonical(v)
  {
    seq(|v|, i requires 0 <= i < |v| => PLow(v[i]))
  }

  function VHighBits(g: int, v: Vec): Vec
    requires IsGamma2(g) && AllCanonical(v)
  {
    seq(|v|, i requires 0 <= i < |v| => PHighBits(g, v[i]))
  }

  function VLowBits(g: int, v: Vec): Vec
    requires IsGamma2(g) && AllCanonical(v)
  {
    seq(|v|, i requires 0 <= i < |v| => PLowBits(g, v[i]))
  }

  function VMakeHint(g: int, v0: Vec, v1: Vec): Vec
    requires |v0| == |v1|
  {
    seq(|v0|, i requires 0 <= i < |v0| => PMakeHint(g, v0[i], v1[i]))
  }

  function VUseHint(g: int, v: Vec, h: Vec): Vec
    requires IsGamma2(g) && AllCanonical(v) && |v| == |h|
  {
    seq(|v|, i requires 0 <= i < |v| => PUseHint(g, v[i], h[i]))
  }
}
