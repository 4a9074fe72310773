/** polyvec.c: the loops over vectors of polynomials. */
module PolyVecs {
  import opened Arith
  import opened Rounding
  import opened NttSpec
  import opened NttInverse
  import opened NttProduct
  import opened N = Ntt
  import opened PolySpec
  import opened Ranges
  import opened PolyOps
  import opened HintCode
  import opened Params
  import opened Scheme

  /** The coefficients of a polynomial in an array of their own. */
  method Load(p: Poly) returns (a: array<Int32>)
    requires Bounded(p, 0x7fff_ffff)
    ensures fresh(a) && a.Length == 256 && a[..] == p
  {
    a := new Int32[256](i => 0);
    for i := 0 to 256
      invariant forall k :: 0 <= k < i ==> a[k] == p[k]
    {
      a[i] := p[i];
    }
  }

  /** polyvecl_pointwise_acc_montgomery: at most seven products accumulate below 2^31. */
  method PointwiseAcc(row: Vec, v: Vec) returns (w: array<Int32>)
    requires 0 < |row| == |v| <= 7 && AllCanonical(row) && AllBounded(v, 9 * Q)
    ensures fresh(w) && w.Length == 256 && w[..] == Acc(row, v) && Bounded(w[..], 7 * (Q - 1))
  {
    hide Canonical, Bounded, Pointwise, Acc, ProductsFit;
    CanonicalWide(row[0]);
    Wide(v[0]);
    w := Load(row[0]);
    var b := Load(v[0]);
    TransformProductsFit(w[..], b[..]);
    PolyPointwise(w, w, b);
    AccOne(row[..1], v[..1]);
    for i := 1 to |row|
      invariant w[..] == Acc(row[..i], v[..i]) && Bounded(w[..], i * (Q - 1))
    {
      CanonicalWide(row[i]);
      Wide(v[i]);
      var t := Load(row[i]);
      b := Load(v[i]);
      TransformProductsFit(t[..], b[..]);
      PolyPointwise(t, t, b);
      AccStep(row[..i + 1], v[..i + 1]);
      assert row[..i + 1][..i] == row[..i] && v[..i + 1][..i] == v[..i];
      SumBound(w[..], t[..], i * (Q - 1), Q - 1);
      Widen(PAdd(w[..], t[..]), i * (Q - 1) + (Q - 1), 0x7fff_ffff);
      PolyAdd(w, w, t);
      assert i * (Q - 1) + (Q - 1) == (i + 1) * (Q - 1);
    }
    assert row[..|row|] == row && v[..|v|] == v;
    Widen(w[..], |row| * (Q - 1), 7 * (Q - 1));
  }

  lemma Wide(p: Poly)
    requires Bounded(p, 9 * Q)
    ensures Bounded(p, 0x7fff_ffff)
  {
  }

  lemma CanonicalWide(p: Poly)
    requires Canonical(p)
    ensures Bounded(p, 9 * Q) && Bounded(p, 0x7fff_ffff)
  {
  }

  lemma AccOne(row: Vec, v: Vec)
    requires |row| == |v| == 1
    ensures Acc(row, v) == Pointwise(row[0], v[0])
  {
  }

  lemma AccStep(row: Vec, v: Vec)
    requires 1 < |row| == |v|
    ensures var n := |row| - 1; Acc(row, v) == PAdd(Acc(row[..n], v[..n]), Pointwise(row[n], v[n]))
  {
  }

  class PolyVec {
    var vec: Vec

    constructor (v: Vec)
      ensures vec == v
    {
      vec := v;
    }

    /** polyvec_reduce */
    method Reduce()
      requires AllBounded(vec, REDMAX)
      modifies this
      ensures vec == VRed(old(vec)) && AllBounded(vec, 6283009)
    {
      hide PRed, Bounded;
      for i := 0 to |vec|
        invariant |vec| == |old(vec)|
        invariant forall j :: 0 <= j < i ==> vec[j] == PRed(old(vec)[j]) && Bounded(vec[j], 6283009)
        invariant forall j :: i <= j < |vec| ==> vec[j] == old(vec)[j]
      {
        Widen(vec[i], REDMAX, 0x7fff_ffff);
        var t := Load(vec[i]);
        PolyReduce(t);
        vec := vec[i := t[..]];
      }
      assert vec == VRed(old(vec));
    }

    /** polyvec_caddq */
    method Caddq()
      requires AllBounded(vec, Q - 1)
      modifies this
      ensures vec == VCaddq(old(vec)) && AllCanonical(vec)
    {
      hide PCaddq, Bounded, Canonical;
      for i := 0 to |vec|
        invariant |vec| == |old(vec)|
        invariant forall j :: 0 <= j < i ==> vec[j] == PCaddq(old(vec)[j]) && Canonical(vec[j])
        invariant forall j :: i <= j < |vec| ==> vec[j] == old(vec)[j]
      {
        CaddqCanonical(vec[i]);
        Widen(vec[i], Q - 1, 0x7fff_ffff);
        var t := Load(vec[i]);
        PolyCaddq(t);
        vec := vec[i := t[..]];
      }
      assert vec == VCaddq(old(vec));
    }

    /** polyvec_add; the result may replace a summand. */
    method Add(u: PolyVec, v: PolyVec, ghost b: int, ghost c: int)
      requires |u.vec| == |v.vec| == |vec|
      requires AllBounded(u.vec, b) && AllBounded(v.vec, c) && 0 <= b && 0 <= c && b + c <= 0x7fff_ffff
      modifies this
      ensures vec == VAdd(old(u.vec), old(v.vec)) && AllBounded(vec, b + c)
    {
      hide PAdd, Bounded;
      for i := 0 to |vec|
        invariant |vec| == |u.vec| == |v.vec| == |old(vec)|
        invariant forall j :: 0 <= j < i ==>
          vec[j] == PAdd(old(u.vec)[j], old(v.vec)[j]) && Bounded(vec[j], b + c)
        invariant forall j :: i <= j < |vec| ==> u.vec[j] == old(u.vec)[j] && v.vec[j] == old(v.vec)[j]
      {
        SumBound(u.vec[i], v.vec[i], b, c);
        Widen(u.vec[i], b, 0x7fff_ffff);
        Widen(v.vec[i], c, 0x7fff_ffff);
        var s := Load(u.vec[i]);
        var t := Load(v.vec[i]);
        Widen(PAdd(s[..], t[..]), b + c, 0x7fff_ffff);
        PolyAdd(s, s, t);
        vec := vec[i := s[..]];
      }
      assert vec == VAdd(old(u.vec), old(v.vec));
    }

    /** polyvec_sub; the result may replace an operand. */
    method Sub(u: PolyVec, v: PolyVec, ghost b: int, ghost c: int)
      requires |u.vec| == |v.vec| == |vec|
      requires AllBounded(u.vec, b) && AllBounded(v.vec, c) && 0 <= b && 0 <= c && b + c <= 0x7fff_ffff
      modifies this
      ensures vec == VSub(old(u.vec), old(v.vec)) && AllBounded(vec, b + c)
    {
      hide PSub, Bounded;
      for i := 0 to |vec|
        invariant |vec| == |u.vec| == |v.vec| == |old(vec)|
        invariant forall j :: 0 <= j < i ==>
          vec[j] == PSub(old(u.vec)[j], old(v.vec)[j]) && Bounded(vec[j], b + c)
        invariant forall j :: i <= j < |vec| ==> u.vec[j] == old(u.vec)[j] && v.vec[j] == old(v.vec)[j]
      {
        SumBound(u.vec[i], v.vec[i], b, c);
        Widen(u.vec[i], b, 0x7fff_ffff);
        Widen(v.vec[i], c, 0x7fff_ffff);
        var s := Load(u.vec[i]);
        var t := Load(v.vec[i]);
        Widen(PSub(s[..], t[..]), b + c, 0x7fff_ffff);
        PolySub(s, s, t);
        vec := vec[i := s[..]];
      }
      assert vec == VSub(old(u.vec), old(v.vec));
    }

    /** polyveck_shiftl, for t1. */
    method Shiftl()
      requires SmallT1(vec)
      modifies this
      ensures vec == VShift(old(vec)) && AllBounded(vec, Q)
    {
      hide PShift, Bounded;
      for i := 0 to |vec|
        invariant |vec| == |old(vec)|
        invariant forall j :: 0 <= j < i ==> vec[j] == PShift(old(vec)[j]) && Bounded(vec[j], Q)
        invariant forall j :: i <= j < |vec| ==> vec[j] == old(vec)[j]
      {
        ShiftBound(vec[i]);
        T1Bound(vec[i]);
        var t := Load(vec[i]);
        PolyShiftl(t);
        vec := vec[i := t[..]];
      }
      assert vec == VShift(old(vec));
    }

    /** polyvec_ntt */
    method NttAll()
      requires AllBounded(vec, Q)
      modifies this
      ensures vec == VForward(old(vec)) && AllBounded(vec, 9 * Q)
    {
      hide Forward, Bounded, Eval, OutRoot, Cong;
      for i := 0 to |vec|
        invariant |vec| == |old(vec)|
        invariant forall j :: 0 <= j < i ==> vec[j] == Forward(old(vec)[j]) && Bounded(vec[j], 9 * Q)
        invariant forall j :: i <= j < |vec| ==> vec[j] == old(vec)[j]
      {
        Widen(vec[i], Q, 0x7fff_ffff);
        var t := Load(vec[i]);
        N.Ntt(t, Q);
        Widen(t[..], Q + 8 * (Q - 1), 9 * Q);
        vec := vec[i := t[..]];
      }
      assert vec == VForward(old(vec));
    }

    /** polyvec_invntt_tomont */
    method InvNttAll()
      requires AllBounded(vec, Q - 1)
      modifies this
      ensures vec == VInverse(old(vec)) && AllBounded(vec, 4211177)
    {
      hide Inverse, Forward, Bounded, Scaled;
      for i := 0 to |vec|
        invariant |vec| == |old(vec)|
        invariant forall j :: 0 <= j < i ==> vec[j] == Inverse(old(vec)[j]) && Bounded(vec[j], 4211177)
        invariant forall j :: i <= j < |vec| ==> vec[j] == old(vec)[j]
      {
        Widen(vec[i], Q - 1, 0x7fff_ffff);
        var t := Load(vec[i]);
        InvNttToMont(t);
        vec := vec[i := t[..]];
      }
      assert vec == VInverse(old(vec));
    }

    /** polyvec_pointwise_poly_montgomery; the result may replace v. */
    method PointwisePoly(c: array<Int32>, v: PolyVec)
      requires c.Length == 256 && Bounded(c[..], 9 * Q) && AllBounded(v.vec, 9 * Q) && |v.vec| == |vec|
      modifies this
      ensures vec == VPointwise(c[..], old(v.vec)) && AllBounded(vec, Q - 1)
    {
      hide Pointwise, Bounded, ProductsFit;
      ghost var cs: Poly := c[..];
      for i := 0 to |vec|
        invariant |vec| == |v.vec| == |old(vec)| && c[..] == cs
        invariant forall j :: 0 <= j < i ==> vec[j] == Pointwise(cs, old(v.vec)[j]) && Bounded(vec[j], Q - 1)
        invariant forall j :: i <= j < |vec| ==> v.vec[j] == old(v.vec)[j]
      {
        Wide(v.vec[i]);
        var t := Load(v.vec[i]);
        TransformProductsFit(c[..], t[..]);
        PolyPointwise(t, c, t);
        vec := vec[i := t[..]];
      }
      assert vec == VPointwise(cs, old(v.vec));
    }

    /** polyvec_matrix_pointwise_montgomery */
    method MatrixPointwise(p: Params, mat: seq<Vec>, v: PolyVec)
      requires v != this && IsMatrix(p, mat) && |vec| == |mat| && |v.vec| == p.L() && AllBounded(v.vec, 9 * Q)
      modifies this
      ensures vec == VMat(mat, v.vec) && AllBounded(vec, 7 * (Q - 1))
    {
      hide Acc, Bounded, AllCanonical;
      for i := 0 to |vec|
        invariant |vec| == |mat|
        invariant forall j :: 0 <= j < i ==> vec[j] == Acc(mat[j], v.vec) && Bounded(vec[j], 7 * (Q - 1))
      {
        var t := PointwiseAcc(mat[i], v.vec);
        vec := vec[i := t[..]];
      }
      assert vec == VMat(mat, v.vec);
    }

    /** polyveck_power2round: the high parts replace the input. */
    method Power2Round(v0: PolyVec)
      requires v0 != this && |v0.vec| == |vec| && AllCanonical(vec)
      modifies this, v0
      ensures vec == VHigh(old(vec)) && v0.vec == VLow(old(vec))
    {
      hide PHigh, PLow, Canonical;
      ghost var s := vec;
      for i := 0 to |vec|
        invariant |vec| == |v0.vec| == |s|
        invariant forall j :: 0 <= j < i ==> vec[j] == PHigh(s[j]) && v0.vec[j] == PLow(s[j])
        invariant forall j :: i <= j < |vec| ==> vec[j] == s[j]
      {
        CanonicalWide(vec[i]);
        var t := Load(vec[i]);
        var t0 := new Int32[256](i => 0);
        PolyPower2Round(t, t0, t);
        vec := vec[i := t[..]];
        v0.vec := v0.vec[i := t0[..]];
      }
      assert vec == VHigh(s);
      assert v0.vec == VLow(s);
    }

    /** polyveck_decompose: the high parts replace the input. */
    method Decompose(g: int, v0: PolyVec)
      requires IsGamma2(g) && v0 != this && |v0.vec| == |vec| && AllCanonical(vec)
      modifies this, v0
      ensures vec == VHighBits(g, old(vec)) && v0.vec == VLowBits(g, old(vec))
    {
      hide PHighBits, PLowBits, Canonical;
      ghost var s := vec;
      for i := 0 to |vec|
        invariant |vec| == |v0.vec| == |s|
        invariant forall j :: 0 <= j < i ==> vec[j] == PHighBits(g, s[j]) && v0.vec[j] == PLowBits(g, s[j])
        invariant forall j :: i <= j < |vec| ==> vec[j] == s[j]
      {
        CanonicalWide(vec[i]);
        var t := Load(vec[i]);
        var t0 := new Int32[256](i => 0);
        PolyDecompose(g, t, t0, t);
        vec := vec[i := t[..]];
        v0.vec := v0.vec[i := t0[..]];
      }
      assert vec == VHighBits(g, s);
      assert v0.vec == VLowBits(g, s);
    }

    /** polyveck_make_hint returns the number of ones. */
    method MakeHint(g: int, v0: PolyVec, v1: PolyVec) returns (s: nat)
      requires v0 != this && v1 != this && |v0.vec| == |v1.vec| == |vec|
      requires AllBounded(v0.vec, 0x7fff_ffff) && AllBounded(v1.vec, 0x7fff_ffff)
      modifies this
      ensures vec == VMakeHint(g, v0.vec, v1.vec) && s == CountOnes(vec)
    {
      hide PMakeHint, Bounded, Ones;
      s := 0;
      for i := 0 to |vec|
        invariant |v0.vec| == |vec| && s == CountOnes(vec[..i])
        invariant forall j :: 0 <= j < i ==> vec[j] == PMakeHint(g, v0.vec[j], v1.vec[j])
      {
        var a0 := Load(v0.vec[i]);
        var a1 := Load(v1.vec[i]);
        var h := new Int32[256](i => 0);
        var n := PolyMakeHint(g, h, a0, a1);
        ghost var before := vec[..i];
        vec := vec[i := h[..]];
        assert vec[..i + 1] == before + [vec[i]];
        CountOnesAppend(before, vec[i]);
        s := s + n;
      }
      assert vec[..|vec|] == vec;
      assert vec == VMakeHint(g, v0.vec, v1.vec);
    }

    /** polyveck_use_hint: the corrected high parts replace the input. */
    method UseHint(g: int, h: PolyVec)
      requires IsGamma2(g) && h != this && |h.vec| == |vec| && AllCanonical(vec) && AllBounded(h.vec, 0x7fff_ffff)
      modifies this
      ensures vec == VUseHint(g, old(vec), h.vec)
    {
      hide PUseHint, Canonical, Bounded;
      ghost var s := vec;
      for i := 0 to |vec|
        invariant |vec| == |h.vec| == |s|
        invariant forall j :: 0 <= j < i ==> vec[j] == PUseHint(g, s[j], h.vec[j])
        invariant forall j :: i <= j < |vec| ==> vec[j] == s[j]
      {
        CanonicalWide(vec[i]);
        var t := Load(vec[i]);
        var u := Load(h.vec[i]);
        PolyUseHint(g, t, t, u);
        vec := vec[i := t[..]];
      }
      assert vec == VUseHint(g, s, h.vec);
    }

    /** polyvec_chknorm */
    method ChkNorm(b: int) returns (violated: bool)
      requires AllBounded(vec, 0x3fff_ffff) && 0 < |vec|
      ensures violated <==> !NormBelow(vec, b)
    {
      hide Bounded, Small;
      for i := 0 to |vec|
        invariant forall j :: 0 <= j < i ==> Small(vec[j], b)
      {
        Widen(vec[i], 0x3fff_ffff, 0x7fff_ffff);
        var t := Load(vec[i]);
        violated := PolyChkNorm(t, b);
        if violated {
          NormFails(vec, b, i);
          return;
        }
      }
      violated := false;
      NormHolds(vec, b);
    }
  }

  lemma T1Bound(t: Poly)
    requires forall k :: 0 <= k < 256 ==> 0 <= t[k] < 1024
    ensures Bounded(t, 0x3_ffff) && Bounded(t, 0x7fff_ffff)
  {
  }

  lemma {:induction false} CountOnesAppend(h: Vec, p: Poly)
    ensures CountOnes(h + [p]) == CountOnes(h) + |Ones(p)|
  {
    hide Ones;
    if h == [] {
      assert [] + [p] == [p];
      assert CountOnes([p]) == |Ones(p)| + CountOnes([p][1..]);
    } else {
      assert (h + [p])[1..] == h[1..] + [p];
      CountOnesAppend(h[1..], p);
    }
  }

  lemma NormFails(v: Vec, b: int, i: nat)
    requires i < |v| && !Small(v[i], b)
    ensures !NormBelow(v, b)
  {
  }

  lemma NormHolds(v: Vec, b: int)
    requires 0 < |v| && forall i :: 0 <= i < |v| ==> Small(v[i], b)
    ensures NormBelow(v, b)
  {
    assert Small(v[0], b);
  }
}
