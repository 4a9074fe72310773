/** Multiplication modulo X^256 + 1, by Horner, by the schoolbook sum, and through the transforms. */
module NttProduct {
  import opened Arith
  import opened Reduce
  import opened Zetas
  import opened NttSpec
  import opened NttInverse

  /** X * b modulo X^n + 1. */
  function Rotate(b: seq<int>): (r: seq<int>)
    requires |b| > 0
    ensures |r| == |b|
  {
    [-b[|b| - 1]] + b[..|b| - 1]
  }

  /** a * b modulo X^n + 1, by Horner's rule on a. */
  function NegMul(a: seq<int>, b: seq<int>): (r: seq<int>)
    requires |b| > 0
    ensures |r| == |b|
  {
    if a == [] then seq(|b|, i => 0)
    else
      var rest := NegMul(a[1..], Rotate(b));
      seq(|b|, i requires 0 <= i < |b| => rest[i] + a[0] * b[i])
  }

  /** The coefficient of X^m in b, where X^n is -1. */
  function NegCoeff(b: seq<int>, m: int): int
    requires -|b| <= m < |b|
  {
    if m >= 0 then b[m] else -b[m + |b|]
  }

  /** The schoolbook coefficient: the sum of a[i] * b[k - i], with a minus sign where k - i wraps. */
  function Convolve(a: seq<int>, b: seq<int>, k: int): int
    requires |a| - |b| - 1 <= k < |b|
  {
    if a == [] then 0 else a[0] * NegCoeff(b, k) + Convolve(a[1..], b, k - 1)
  }

  lemma RotateCoeff(b: seq<int>, c: seq<int>, j: nat)
    requires 0 < |b| == |c| && j < |b|
    requires forall m :: 0 <= m < |b| ==> c[m] == NegCoeff(b, m - j)
    ensures forall m :: 0 <= m < |b| ==> Rotate(c)[m] == NegCoeff(b, m - (j + 1))
  {
    forall m | 0 <= m < |b|
      ensures Rotate(c)[m] == NegCoeff(b, m - (j + 1))
    {
      if m == 0 {
        assert c[|b| - 1] == NegCoeff(b, |b| - 1 - j);
      } else {
        assert Rotate(c)[m] == c[m - 1];
      }
    }
  }

  lemma {:induction false} NegMulIsConvolution(a: seq<int>, b: seq<int>, c: seq<int>, j: nat, k: nat)
    requires |a| + j <= |b| == |c| && k < |b|
    requires forall m :: 0 <= m < |b| ==> c[m] == NegCoeff(b, m - j)
    ensures NegMul(a, c)[k] == Convolve(a, b, k - j)
  {
    hide Rotate;
    if a != [] {
      RotateCoeff(b, c, j);
      NegMulIsConvolution(a[1..], b, Rotate(c), j + 1, k);
    }
  }

  lemma RotateEval(b: seq<int>, x: int)
    requires |b| > 0 && Cong(Pow(x, |b|), -1)
    ensures Cong(Eval(Rotate(b), x), x * Eval(b, x))
  {
    hide Cong, Pow, Eval;
    var n := |b| - 1;
    EvalLast(b, x);
    EvalFirst(-b[n], b[..n], x);
    PowStep(x, n);
    WrapTop(Eval(b[..n], x), b[n], Pow(x, n), x);
  }

  lemma PowStep(x: int, n: nat)
    ensures Pow(x, n + 1) == x * Pow(x, n)
  {
  }

  lemma EvalFirst(t: int, b: seq<int>, x: int)
    ensures Eval([t] + b, x) == t + x * Eval(b, x)
  {
    assert ([t] + b)[1..] == b;
  }

  lemma EvalLast(b: seq<int>, x: int)
    requires |b| > 0
    ensures Eval(b, x) == Eval(b[..|b| - 1], x) + Pow(x, |b| - 1) * b[|b| - 1]
  {
    hide Pow, Eval;
    var n := |b| - 1;
    assert b == b[..n] + [b[n]];
    EvalAppend(b[..n], [b[n]], x);
    EvalOne(b[n], x);
  }

  lemma EvalOne(t: int, x: int)
    ensures Eval([t], x) == t
  {
    assert Eval([t][1..], x) == 0;
  }

  lemma WrapTop(e: int, t: int, p: int, x: int)
    requires Cong(x * p, -1)
    ensures Cong(-t + x * e, x * (e + p * t))
  {
    var k := Multiple(x * p, -1);
    assert x * (e + p * t) == x * e + (x * p) * t;
    assert (-1 + k * Q) * t == -t + (k * t) * Q;
    CongFrom(-t + x * e, x * (e + p * t), -(k * t));
  }

  lemma {:induction false} EvalZero(n: nat, z: seq<int>, x: int)
    requires |z| == n && forall i :: 0 <= i < n ==> z[i] == 0
    ensures Eval(z, x) == 0
  {
    if n > 0 {
      EvalZero(n - 1, z[1..], x);
    }
  }

  /** One step of the Horner multiplication, at a point. */
  lemma NegMulStep(a: seq<int>, b: seq<int>, x: int)
    requires a != [] && |b| > 0
    ensures Cong(Eval(NegMul(a, b), x), Eval(NegMul(a[1..], Rotate(b)), x) + a[0] * Eval(b, x))
  {
    hide Cong;
    var rest, p := NegMul(a[1..], Rotate(b)), NegMul(a, b);
    forall i | 0 <= i < |b|
      ensures Cong(p[i], rest[i] + a[0] * b[i])
    {
      CongFrom(p[i], p[i], 0);
    }
    EvalLinear(rest, b, p, a[0], x);
  }

  /** At a root of X^n + 1 the product has the product of the values. */
  lemma {:induction false} NegMulEval(a: seq<int>, b: seq<int>, x: int)
    requires |b| > 0 && Cong(Pow(x, |b|), -1)
    ensures Cong(Eval(NegMul(a, b), x), Eval(a, x) * Eval(b, x))
  {
    hide Cong, Pow, Rotate;
    if a == [] {
      EvalZero(|b|, NegMul(a, b), x);
      CongFrom(0, 0, 0);
    } else {
      NegMulStep(a, b, x);
      NegMulEval(a[1..], Rotate(b), x);
      RotateEval(b, x);
      HornerStep(Eval(NegMul(a, b), x), Eval(NegMul(a[1..], Rotate(b)), x), Eval(Rotate(b), x), a[0], Eval(a[1..], x),
                 Eval(b, x), x);
    }
  }

  lemma HornerStep(p: int, r: int, s: int, a0: int, ar: int, b: int, x: int)
    requires Cong(p, r + a0 * b) && Cong(r, ar * s) && Cong(s, x * b)
    ensures Cong(p, (a0 + x * ar) * b)
  {
    var i, j, k := Multiple(p, r + a0 * b), Multiple(r, ar * s), Multiple(s, x * b);
    assert ar * s == ar * (x * b) + (ar * k) * Q;
    assert (a0 + x * ar) * b == a0 * b + ar * (x * b);
    CongFrom(p, (a0 + x * ar) * b, i + j + ar * k);
  }

  function Pointwise(u: seq<int>, v: seq<int>): (r: seq<int>)
    requires |u| == |v|
    ensures |r| == |u|
  {
    seq(|u|, i requires 0 <= i < |u| => Redc(u[i] * v[i]))
  }

  lemma PointwiseOfTransforms(a: seq<int>, b: seq<int>)
    requires |a| == |b| == 256
    ensures Scaled(Pointwise(Forward(a), Forward(b)), RINV, Forward(NegMul(a, b)))
  {
    hide Cong, Redc, NegMul, Forward, OutRoot, Pow, Eval;
    var c, p := NegMul(a, b), Pointwise(Forward(a), Forward(b));
    forall j | 0 <= j < 256
      ensures Cong(p[j], RINV * Forward(c)[j])
    {
      var x := OutRoot(j);
      ForwardEvaluates(a, j);
      ForwardEvaluates(b, j);
      ForwardEvaluates(c, j);
      NegMulEval(a, b, x);
      CongTrans(Forward(c)[j], Eval(c, x), Eval(a, x) * Eval(b, x));
      CongMul(Forward(a)[j], Eval(a, x), Forward(b)[j], Eval(b, x));
      CongSym(Forward(c)[j], Eval(a, x) * Eval(b, x));
      CongTrans(Forward(a)[j] * Forward(b)[j], Eval(a, x) * Eval(b, x), Forward(c)[j]);
      RedcCong(Forward(a)[j] * Forward(b)[j]);
      CongFrom(RINV, RINV, 0);
      CongMul(Forward(a)[j] * Forward(b)[j], Forward(c)[j], RINV, RINV);
      CongTrans(p[j], Forward(a)[j] * Forward(b)[j] * RINV, RINV * Forward(c)[j]);
    }
  }

  /** Transform, multiply pointwise, transform back: multiplication modulo X^256 + 1. */
  lemma NttMultiplies(a: seq<int>, b: seq<int>, k: nat)
    requires |a| == |b| == 256 && k < 256
    ensures Cong(Inverse(Pointwise(Forward(a), Forward(b)))[k], Convolve(a, b, k))
  {
    hide Cong, Pointwise, NegMul, Forward, Inverse;
    var p := Pointwise(Forward(a), Forward(b));
    PointwiseOfTransforms(a, b);
    InverseOfForward(NegMul(a, b), p, RINV);
    NegMulIsConvolution(a, b, b, 0, k);
    OneFactor(Inverse(p)[k], NegMul(a, b)[k]);
  }

  lemma OneFactor(x: int, y: int)
    requires Cong(x, RINV * R * y)
    ensures Cong(x, y)
  {
    assert RINV * R == 1 + 4236238847 * Q;
    CongFrom(RINV * R * y, y, 4236238847 * y);
    CongTrans(x, RINV * R * y, y);
  }
}
