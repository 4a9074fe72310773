/** The forward transform layer by layer, and its meaning: evaluation at the roots of X^256 + 1. */
module NttSpec {
  import opened Arith
  import opened Reduce
  import opened Zetas

  ghost predicate CongSeq(a: seq<int>, b: seq<int>)
  {
    |a| == |b| && forall i :: 0 <= i < |a| ==> Cong(a[i], b[i])
  }

  function Zt(k: int): int { if 0 <= k < 256 then Zeta(k) else 0 }

  /** One block of a forward layer: X^(2 len) - z^2 split into X^len - z and X^len + z. */
  function Butterfly(k: int, len: nat, s: seq<int>): (r: seq<int>)
    requires |s| == 2 * len
    ensures |r| == |s|
  {
    seq(2 * len, i requires 0 <= i < 2 * len =>
      if i < len then s[i] + Redc(Zt(k) * s[i + len]) else s[i - len] - Redc(Zt(k) * s[i]))
  }

  function Layer(k: int, len: nat, s: seq<int>): (r: seq<int>)
    requires len > 0
    ensures |r| == |s|
    decreases |s|
  {
    if |s| < 2 * len then s else Butterfly(k, len, s[..2 * len]) + Layer(k + 1, len, s[2 * len..])
  }

  function Layers(k: int, len: nat, s: seq<int>): (r: seq<int>)
    ensures |r| == |s|
    decreases len
  {
    if len == 0 then s else Layers(2 * k, len / 2, Layer(k, len, s))
  }

  /** Horner's rule: the polynomial with coefficients a, lowest first, at x. */
  function Eval(a: seq<int>, x: int): int
  {
    if a == [] then 0 else a[0] + x * Eval(a[1..], x)
  }

  predicate BlockLen(len: nat) { len in {1, 2, 4, 8, 16, 32, 64, 128} }

  lemma MulPred(m: nat, n: nat)
    requires m > 0
    ensures m * n == (m - 1) * n + n && (m - 1) * n >= 0
  {
  }

  lemma LayerCons(k: int, len: nat, x: seq<int>, y: seq<int>)
    requires 0 < 2 * len <= |x|
    ensures Layer(k, len, x + y) == Butterfly(k, len, x[..2 * len]) + Layer(k + 1, len, x[2 * len..] + y)
    ensures Layer(k, len, x) == Butterfly(k, len, x[..2 * len]) + Layer(k + 1, len, x[2 * len..])
  {
    hide Butterfly;
    assert (x + y)[..2 * len] == x[..2 * len];
    assert (x + y)[2 * len..] == x[2 * len..] + y;
  }

  lemma {:induction false} LayerSplit(k: int, len: nat, m: nat, x: seq<int>, y: seq<int>)
    requires len > 0 && |x| == m * (2 * len)
    ensures Layer(k, len, x + y) == Layer(k, len, x) + Layer(k + m, len, y)
    decreases m
  {
    hide Butterfly;
    if m == 0 {
      assert x + y == y;
    } else {
      var n := 2 * len;
      MulPred(m, n);
      LayerCons(k, len, x, y);
      LayerSplit(k + 1, len, m - 1, x[n..], y);
    }
  }

  lemma {:induction false} LayersSplit(k: int, len: nat, m: nat, x: seq<int>, y: seq<int>)
    requires BlockLen(len) || len == 0
    requires |x| == m * (2 * len) || len == 0
    ensures Layers(k, len, x + y) == Layers(k, len, x) + Layers(k + m, len, y)
    decreases len
  {
    hide Layer;
    if len != 0 {
      LayerSplit(k, len, m, x, y);
      assert len > 1 ==> 2 * (len / 2) == len;
      assert m * (2 * len) == (2 * m) * len;
      LayersSplit(2 * k, len / 2, 2 * m, Layer(k, len, x), Layer(k + m, len, y));
    }
  }

  /** The layers below one block act on its two halves separately. */
  lemma Halves(k: int, len: nat, s: seq<int>)
    requires BlockLen(len) && |s| == 2 * len
    ensures var b := Butterfly(k, len, s);
            Layers(k, len, s) == Layers(2 * k, len / 2, b[..len]) + Layers(2 * k + 1, len / 2, b[len..])
  {
    hide Butterfly;
    var b := Butterfly(k, len, s);
    assert s[..2 * len] == s && s[2 * len..] == [];
    assert Layer(k, len, s) == b + Layer(k + 1, len, []) == b;
    assert Layers(k, len, s) == Layers(2 * k, len / 2, b);
    assert b[..len] + b[len..] == b;
    LayersSplit(2 * k, len / 2, 1, b[..len], b[len..]);
  }

  lemma {:induction false} EvalAppend(a: seq<int>, b: seq<int>, x: int)
    ensures Eval(a + b, x) == Eval(a, x) + Pow(x, |a|) * Eval(b, x)
  {
    if a == [] {
      assert a + b == b;
    } else {
      assert (a + b)[1..] == a[1..] + b;
      EvalAppend(a[1..], b, x);
      assert x * (Pow(x, |a| - 1) * Eval(b, x)) == (x * Pow(x, |a| - 1)) * Eval(b, x);
    }
  }

  lemma EvalNone(x: int)
    ensures Eval([], x) == 0
  {
  }

  lemma EvalStep(a: seq<int>, x: int)
    requires a != []
    ensures Eval(a, x) == a[0] + x * Eval(a[1..], x)
  {
  }

  lemma LinearStep(c0: int, a0: int, b0: int, ec: int, ea: int, eb: int, t: int, x: int)
    requires Cong(c0, a0 + t * b0) && Cong(ec, ea + t * eb)
    ensures Cong(c0 + x * ec, (a0 + x * ea) + t * (b0 + x * eb))
  {
    var i, k := Multiple(c0, a0 + t * b0), Multiple(ec, ea + t * eb);
    assert x * (ea + t * eb + k * Q) == x * ea + t * (x * eb) + (x * k) * Q;
    assert t * (b0 + x * eb) == t * b0 + t * (x * eb);
    CongFrom(c0 + x * ec, (a0 + x * ea) + t * (b0 + x * eb), i + x * k);
  }

  /** Evaluation is linear, and respects congruence. */
  lemma {:induction false} EvalLinear(a: seq<int>, b: seq<int>, c: seq<int>, t: int, x: int)
    requires |a| == |b| == |c|
    requires forall i :: 0 <= i < |a| ==> Cong(c[i], a[i] + t * b[i])
    ensures Cong(Eval(c, x), Eval(a, x) + t * Eval(b, x))
  {
    hide Cong, Eval;
    if a == [] {
      EvalNone(x);
      CongFrom(0, 0 + t * 0, 0);
    } else {
      EvalLinear(a[1..], b[1..], c[1..], t, x);
      EvalStep(a, x);
      EvalStep(b, x);
      EvalStep(c, x);
      LinearStep(c[0], a[0], b[0], Eval(c[1..], x), Eval(a[1..], x), Eval(b[1..], x), t, x);
    }
  }

  lemma ZetaTimes(k: int, h: int)
    requires 1 <= k < 256
    ensures Cong(Redc(Zt(k) * h), W(E(k)) * h)
  {
    hide Zeta, Cong, Redc, W, E;
    ZetaIsPower(k);
    RedcCong(Zt(k) * h);
    CongFrom(h, h, 0);
    CongMul(Zt(k), R * W(E(k)), h, h);
    assert (R * W(E(k))) * h == (W(E(k)) * h) * R;
    CongTrans(Redc(Zt(k) * h) * R, Zt(k) * h, (W(E(k)) * h) * R);
    CancelBoth(Redc(Zt(k) * h), W(E(k)) * h);
  }

  lemma ButterflyMeaning(k: int, len: nat, s: seq<int>, i: nat)
    requires 1 <= k < 256 && |s| == 2 * len && i < len
    ensures Cong(Butterfly(k, len, s)[i], s[i] + W(E(k)) * s[i + len])
    ensures Cong(Butterfly(k, len, s)[i + len], s[i] - W(E(k)) * s[i + len])
  {
    hide Cong, Redc, W, E, Zt;
    ZetaTimes(k, s[i + len]);
    CongFrom(s[i], s[i], 0);
    CongAdd(s[i], s[i], Redc(Zt(k) * s[i + len]), W(E(k)) * s[i + len]);
  }

  lemma NegFactor(w: int, h: int)
    ensures (-w) * h == -(w * h)
  {
  }

  lemma HalvesMeaning(k: int, len: nat, s: seq<int>)
    requires 1 <= k < 256 && |s| == 2 * len
    ensures var b := Butterfly(k, len, s);
            forall i :: 0 <= i < len ==>
              Cong(b[..len][i], s[i] + W(E(k)) * s[i + len]) && Cong(b[len..][i], s[i] + (-W(E(k))) * s[i + len])
  {
    hide Cong, W, E, Butterfly;
    var b, w := Butterfly(k, len, s), W(E(k));
    forall i | 0 <= i < len
      ensures Cong(b[..len][i], s[i] + w * s[i + len]) && Cong(b[len..][i], s[i] + (-w) * s[i + len])
    {
      ButterflyMeaning(k, len, s, i);
      NegFactor(w, s[i + len]);
    }
  }

  lemma NegSquare(w: int)
    ensures (-w) * (-w) == w * w
  {
  }

  /** A residue modulo X^len - t has the value of the whole wherever X^len is t. */
  lemma ResidueEval(s: seq<int>, len: nat, c: seq<int>, t: int, x: int)
    requires |s| == 2 * len && |c| == len
    requires forall i :: 0 <= i < len ==> Cong(c[i], s[i] + t * s[i + len])
    requires Cong(Pow(x, len), t)
    ensures Cong(Eval(c, x), Eval(s, x))
    ensures Cong(Pow(x, 2 * len), t * t)
  {
    hide Cong, Pow, Eval;
    var a, b := s[..len], s[len..];
    assert a + b == s;
    EvalAppend(a, b, x);
    forall i | 0 <= i < len
      ensures Cong(c[i], a[i] + t * b[i])
    {
      assert b[i] == s[i + len];
    }
    EvalLinear(a, b, c, t, x);
    CongFrom(Eval(b, x), Eval(b, x), 0);
    CongFrom(Eval(a, x), Eval(a, x), 0);
    CongSym(Pow(x, len), t);
    CongMul(t, Pow(x, len), Eval(b, x), Eval(b, x));
    CongAdd(Eval(a, x), Eval(a, x), t * Eval(b, x), Pow(x, len) * Eval(b, x));
    CongTrans(Eval(c, x), Eval(a, x) + t * Eval(b, x), Eval(s, x));
    PowAdd(x, len, len);
    CongMul(Pow(x, len), t, Pow(x, len), t);
  }

  /** The root under output j of the layers below node k. */
  function Root(k: nat, len: nat, j: nat): int
  {
    W(E(k * len + j / 2) + 256 * (j % 2))
  }

  lemma {:induction false} LeafEval(k: nat, s: seq<int>, j: nat)
    requires 128 <= k < 256 && |s| == 2 && j < 2
    ensures Cong(Layers(k, 1, s)[j], Eval(s, Root(k, 1, j)))
    ensures Cong(Pow(Root(k, 1, j), 2), W(E(k)) * W(E(k)))
  {
    hide Cong, Butterfly, W, E;
    Halves(k, 1, s);
    var x, w := Root(k, 1, j), W(E(k));
    ButterflyMeaning(k, 1, s, 0);
    assert Eval(s, x) == s[0] + x * s[1] by {
      assert Eval(s[1..], x) == s[1] + x * Eval([], x);
    }
    assert Pow(x, 2) == x * x by {
      assert Pow(x, 1) == x;
    }
    var y := if j == 0 then w else -w;
    if j == 0 {
      CongFrom(x, w, 0);
    } else {
      HalfTurn(E(k));
    }
    CongMul(x, y, x, y);
    assert y * y == w * w by { if j == 1 { assert (-w) * (-w) == w * w; } }
    assert Layers(k, 1, s)[j] == Butterfly(k, 1, s)[j];
    assert (-w) * s[1] == -(w * s[1]);
    LinearCong(s[0], s[1], y, x);
    CongTrans(Layers(k, 1, s)[j], s[0] + y * s[1], Eval(s, x));
  }

  lemma LinearCong(s: int, t: int, y: int, x: int)
    requires Cong(x, y)
    ensures Cong(s + y * t, s + x * t)
  {
    hide Cong;
    CongFrom(s, s, 0);
    CongFrom(t, t, 0);
    CongMul(x, y, t, t);
    CongAdd(s, s, x * t, y * t);
    CongSym(s + x * t, s + y * t);
  }

  lemma ChildRoot(k: nat, h: nat, j: nat)
    requires BlockLen(h) && j < 4 * h && 128 <= k * (2 * h) < 256
    ensures 1 <= k < 128
    ensures j < 2 * h ==> Root(2 * k, h, j) == Root(k, 2 * h, j)
    ensures j >= 2 * h ==> Root(2 * k + 1, h, j - 2 * h) == Root(k, 2 * h, j)
    ensures (2 * k) * h == k * (2 * h) && 128 <= (2 * k + 1) * h < 256
  {
    hide W, E;
    assert (2 * k) * h == k * (2 * h);
    assert (2 * k + 1) * h == k * (2 * h) + h;
    assert (j - 2 * h) / 2 == j / 2 - h;
  }

  /** Each output of the layers below node k is the value of the block at one root of
      X^(2 len) - W(E(k))^2. */
  lemma {:induction false} NodeEval(k: nat, len: nat, s: seq<int>, j: nat)
    requires BlockLen(len) && 128 <= k * len < 256
    requires |s| == 2 * len && j < 2 * len
    ensures Cong(Layers(k, len, s)[j], Eval(s, Root(k, len, j)))
    ensures Cong(Pow(Root(k, len, j), 2 * len), W(E(k)) * W(E(k)))
    decreases len
  {
    hide Cong, Butterfly, W, E, Eval, Pow, Layers, Root, Layer, Zt;
    if len == 1 {
      LeafEval(k, s, j);
    } else {
      var b, h, w, x := Butterfly(k, len, s), len / 2, W(E(k)), Root(k, len, j);
      Halves(k, len, s);
      assert 2 * h == len;
      assert 1 <= k < 128;
      var c, t, kk, jj := if j < len then b[..len] else b[len..], if j < len then w else -w,
        if j < len then 2 * k else 2 * k + 1, if j < len then j else j - len;
      ChildRoot(k, h, j);
      NodeEval(kk, h, c, jj);
      assert Layers(k, len, s)[j] == Layers(kk, h, c)[jj];
      HalvesMeaning(k, len, s);
      ChildModulus(k);
      NegSquare(w);
      CongTrans(Pow(x, len), W(E(kk)) * W(E(kk)), t);
      ResidueEval(s, len, c, t, x);
      CongTrans(Layers(k, len, s)[j], Eval(c, x), Eval(s, x));
    }
  }

  lemma ChildModulus(k: nat)
    requires 1 <= k < 128
    ensures Cong(W(E(2 * k)) * W(E(2 * k)), W(E(k)))
    ensures Cong(W(E(2 * k + 1)) * W(E(2 * k + 1)), -W(E(k)))
  {
    hide Cong, W, E;
    Children(k);
    WAdd(E(2 * k), E(2 * k));
    WAdd(E(2 * k + 1), E(2 * k + 1));
    CongFrom(W(E(k)), W(E(k)), 0);
    HalfTurn(E(k));
  }

  /** The forward transform of ntt.c: eight layers from one block of 256 down to 128 blocks of two. */
  function Forward(a: seq<int>): (r: seq<int>)
    ensures |r| == |a|
  {
    Layers(1, 128, a)
  }

  /** Output j belongs to the root 1753^(2 brv8(j) + 1) of X^256 + 1. */
  function OutRoot(j: nat): int { W(2 * BitRev(8, j) + 1) }

  lemma OutRootIsRoot(j: nat)
    requires j < 256
    ensures Root(1, 128, j) == OutRoot(j)
  {
    hide BitRev, Pow, Exp2;
    ExpEnds();
    BitRevAdd(8, 7, j / 2);
    BitRevWiden(7, j / 2);
    BitRevChildren(8, j / 2);
  }

  lemma ExpEnds()
    ensures Exp2(7) == 128 && Exp2(0) == 1
  {
  }

  /** The transform evaluates at all 256 roots of X^256 + 1. */
  lemma ForwardEvaluates(a: seq<int>, j: nat)
    requires |a| == 256 && j < 256
    ensures Cong(Forward(a)[j], Eval(a, OutRoot(j)))
    ensures Cong(Pow(OutRoot(j), 256), -1)
  {
    hide Cong, W, E, Eval, Pow, Layers, Root, OutRoot;
    OutRootIsRoot(j);
    NodeEval(1, 128, a, j);
    assert E(1) == 128 by { EOne(); }
    WAdd(128, 128);
    HalfTurn(0);
    CongTrans(Pow(OutRoot(j), 256), W(128) * W(128), -1);
  }

  lemma EOne()
    ensures E(1) == 128
  {
    hide Exp2;
    assert BitRev(8, 1) == Exp2(7) + BitRev(7, 0);
    BitRevZero(7);
    ExpEnds();
  }
}
