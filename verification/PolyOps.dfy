/** poly.c: the loops over coefficient arrays. */
module PolyOps {
  import opened Arith
  import opened Reduce
  import opened Rounding
  import opened NttProduct
  import opened Ntt
  import opened PolySpec
  import opened Ranges
  import opened HintCode

  /** poly_reduce */
  method PolyReduce(a: array<Int32>)
    requires a.Length == 256 && Bounded(a[..], REDMAX)
    modifies a
    ensures a[..] == PRed(old(a[..])) && Bounded(a[..], 6283009)
  {
    hide Red, Reduce32;
    ghost var s: Poly := a[..];
    RedRange(s);
    for i := 0 to 256
      invariant forall k :: 0 <= k < i ==> a[k] == PRed(s)[k]
      invariant forall k :: i <= k < 256 ==> a[k] == s[k]
    {
      assert a[i] == s[i];
      a[i] := Reduce32(a[i]);
    }
    assert a[..] == PRed(s);
  }

  /** poly_caddq */
  method PolyCaddq(a: array<Int32>)
    requires a.Length == 256
    modifies a
    ensures a[..] == PCaddq(old(a[..]))
  {
    ghost var s: Poly := a[..];
    for i := 0 to 256
      invariant forall k :: 0 <= k < i ==> a[k] == PCaddq(s)[k]
      invariant forall k :: i <= k < 256 ==> a[k] == s[k]
    {
      assert a[i] == s[i];
      a[i] := Caddq(a[i]);
    }
    assert a[..] == PCaddq(s);
  }

  /** poly_add; the output may be one of the inputs. */
  method PolyAdd(c: array<Int32>, a: array<Int32>, b: array<Int32>)
    requires a.Length == b.Length == c.Length == 256
    requires Bounded(PAdd(a[..], b[..]), 0x7fff_ffff)
    modifies c
    ensures c[..] == PAdd(old(a[..]), old(b[..]))
  {
    ghost var s, t: Poly := a[..], b[..];
    for i := 0 to 256
      invariant forall k :: 0 <= k < i ==> c[k] == s[k] + t[k]
      invariant forall k :: i <= k < 256 ==> a[k] == s[k] && b[k] == t[k]
    {
      assert -0x7fff_ffff <= PAdd(s, t)[i] <= 0x7fff_ffff;
      c[i] := a[i] + b[i];
    }
    assert c[..] == PAdd(s, t);
  }

  /** poly_sub; the output may be one of the inputs. */
  method PolySub(c: array<Int32>, a: array<Int32>, b: array<Int32>)
    requires a.Length == b.Length == c.Length == 256
    requires Bounded(PSub(a[..], b[..]), 0x7fff_ffff)
    modifies c
    ensures c[..] == PSub(old(a[..]), old(b[..]))
  {
    ghost var s, t: Poly := a[..], b[..];
    for i := 0 to 256
      invariant forall k :: 0 <= k < i ==> c[k] == s[k] - t[k]
      invariant forall k :: i <= k < 256 ==> a[k] == s[k] && b[k] == t[k]
    {
      assert -0x7fff_ffff <= PSub(s, t)[i] <= 0x7fff_ffff;
      c[i] := a[i] - b[i];
    }
    assert c[..] == PSub(s, t);
  }

  /** poly_shiftl, for coefficients below 2^18 in magnitude. */
  method PolyShiftl(a: array<Int32>)
    requires a.Length == 256 && Bounded(a[..], 0x3_ffff)
    modifies a
    ensures a[..] == PShift(old(a[..]))
  {
    ghost var s: Poly := a[..];
    for i := 0 to 256
      invariant forall k :: 0 <= k < i ==> a[k] == s[k] * 8192
      invariant forall k :: i <= k < 256 ==> a[k] == s[k]
    {
      assert a[i] == s[i];
      a[i] := a[i] * 8192;
    }
    assert a[..] == PShift(s);
  }

  /** The products that montgomery_reduce accepts. */
  ghost predicate ProductsFit(a: seq<int>, b: seq<int>)
    requires |a| == |b|
  {
    forall k :: 0 <= k < |a| ==> -0x8000_0000 * Q <= a[k] * b[k] < 0x8000_0000 * Q
  }

  lemma TransformProductsFit(a: seq<int>, b: seq<int>)
    requires |a| == |b| && Bounded(a, 9 * Q) && Bounded(b, 9 * Q)
    ensures ProductsFit(a, b)
  {
    forall k | 0 <= k < |a|
      ensures -0x8000_0000 * Q <= a[k] * b[k] < 0x8000_0000 * Q
    {
      ProductBound(a[k], 9 * Q, b[k], 9 * Q);
    }
  }

  /** poly_pointwise_montgomery; the output may be one of the inputs. */
  method PolyPointwise(c: array<Int32>, a: array<Int32>, b: array<Int32>)
    requires a.Length == b.Length == c.Length == 256 && ProductsFit(a[..], b[..])
    modifies c
    ensures c[..] == Pointwise(old(a[..]), old(b[..]))
    ensures Bounded(c[..], Q - 1)
  {
    hide Redc, MontgomeryReduce, Cong;
    ghost var s, t: Poly := a[..], b[..];
    for i := 0 to 256
      invariant forall k :: 0 <= k < i ==> c[k] == Redc(s[k] * t[k]) && -Q < c[k] < Q
      invariant forall k :: i <= k < 256 ==> a[k] == s[k] && b[k] == t[k]
    {
      var x: int, y: int := a[i], b[i];
      assert x == s[i] && y == t[i];
      c[i] := MontgomeryReduce(x * y);
    }
    assert c[..] == Pointwise(s, t);
  }

  /** poly_power2round; the high part may overwrite the input. */
  method PolyPower2Round(a1: array<Int32>, a0: array<Int32>, a: array<Int32>)
    requires a.Length == a1.Length == a0.Length == 256 && a0 != a1 && a0 != a && Canonical(a[..])
    modifies a1, a0
    ensures a1[..] == PHigh(old(a[..])) && a0[..] == PLow(old(a[..]))
  {
    hide Power2Round;
    ghost var s: Poly := a[..];
    for i := 0 to 256
      invariant forall k :: 0 <= k < i ==> a1[k] == Power2Round(s[k]).0 && a0[k] == Power2Round(s[k]).1
      invariant forall k :: i <= k < 256 ==> a[k] == s[k]
    {
      var (hi, lo) := Power2Round(a[i]);
      a1[i] := hi;
      a0[i] := lo;
    }
    assert a1[..] == PHigh(s);
    assert a0[..] == PLow(s);
  }

  /** poly_decompose; the high part may overwrite the input. */
  method PolyDecompose(g: int, a1: array<Int32>, a0: array<Int32>, a: array<Int32>)
    requires IsGamma2(g) && a.Length == a1.Length == a0.Length == 256 && a0 != a1 && a0 != a && Canonical(a[..])
    modifies a1, a0
    ensures a1[..] == PHighBits(g, old(a[..])) && a0[..] == PLowBits(g, old(a[..]))
  {
    hide Decompose;
    ghost var s: Poly := a[..];
    for i := 0 to 256
      invariant forall k :: 0 <= k < i ==> a1[k] == Decompose(g, s[k]).0 && a0[k] == Decompose(g, s[k]).1
      invariant forall k :: i <= k < 256 ==> a[k] == s[k]
    {
      var (hi, lo) := Decompose(g, a[i]);
      a1[i] := hi;
      a0[i] := lo;
    }
    assert a1[..] == PHighBits(g, s);
    assert a0[..] == PLowBits(g, s);
  }

  lemma {:induction false} OnesStep(p: Poly, j: nat)
    requires j < 256
    ensures |OnesFrom(p, 0)| - |OnesFrom(p, j)| + (if p[j] != 0 then 1 else 0) ==
            |OnesFrom(p, 0)| - |OnesFrom(p, j + 1)|
  {
  }

  /** poly_make_hint returns the number of ones. */
  method PolyMakeHint(g: int, h: array<Int32>, a0: array<Int32>, a1: array<Int32>) returns (s: nat)
    requires h.Length == a0.Length == a1.Length == 256
    modifies h
    ensures h[..] == PMakeHint(g, old(a0[..]), old(a1[..]))
    ensures s == |Ones(h[..])|
  {
    hide MakeHint, OnesFrom;
    ghost var s0, s1: Poly := a0[..], a1[..];
    ghost var r := PMakeHint(g, s0, s1);
    s := 0;
    OnesEnd(r);
    for i := 0 to 256
      invariant forall k :: 0 <= k < i ==> h[k] == MakeHint(g, s0[k], s1[k])
      invariant forall k :: i <= k < 256 ==> a0[k] == s0[k] && a1[k] == s1[k]
      invariant s == |OnesFrom(r, 0)| - |OnesFrom(r, i)|
    {
      OnesStep(r, i);
      h[i] := MakeHint(g, a0[i], a1[i]);
      assert r[i] == h[i] && (h[i] == 0 || h[i] == 1);
      s := s + h[i];
    }
    assert h[..] == r;
  }

  /** poly_use_hint; the output may overwrite the input. */
  method PolyUseHint(g: int, b: array<Int32>, a: array<Int32>, h: array<Int32>)
    requires IsGamma2(g) && b.Length == a.Length == h.Length == 256 && Canonical(a[..])
    modifies b
    ensures b[..] == PUseHint(g, old(a[..]), old(h[..]))
  {
    hide UseHint;
    ghost var s, t: Poly := a[..], h[..];
    for i := 0 to 256
      invariant forall k :: 0 <= k < i ==> b[k] == UseHint(g, s[k], t[k])
      invariant forall k :: i <= k < 256 ==> a[k] == s[k] && h[k] == t[k]
    {
      assert a[i] == s[i] && h[i] == t[i];
      b[i] := UseHint(g, a[i], h[i]);
    }
    assert b[..] == PUseHint(g, s, t);
  }

  /** What poly_chknorm accepts. */
  ghost predicate Small(p: seq<int>, b: int)
  {
    b <= (Q - 1) / 8 && forall k :: 0 <= k < |p| ==> -b < p[k] < b
  }

  /** poly_chknorm: the sign mask makes the absolute value. */
  method PolyChkNorm(a: array<Int32>, b: int) returns (violated: bool)
    requires a.Length == 256 && Bounded(a[..], 0x3fff_ffff)
    ensures violated <==> !Small(a[..], b)
  {
    if b > (Q - 1) / 8 {
      return true;
    }
    for i := 0 to 256
      invariant forall k :: 0 <= k < i ==> -b < a[k] < b
    {
      assert a[i] == a[..][i];
      var t: Int32 := if a[i] < 0 then -1 else 0;
      var double: Int32 := 2 * a[i];
      t := a[i] - MaskAnd(t, double);
      if t >= b {
        assert !(-b < a[..][i] < b);
        return true;
      }
    }
    assert forall k :: 0 <= k < 256 ==> a[..][k] == a[k];
    return false;
  }
}
