/** The inverse transform layer by layer, and that each transform undoes the other. */
module NttInverse {
  import opened Arith
  import opened Reduce
  import opened Zetas
  import opened NttSpec

  function InvButterfly(k: int, len: nat, s: seq<int>): (r: seq<int>)
    requires |s| == 2 * len
    ensures |r| == |s|
  {
    seq(2 * len, i requires 0 <= i < 2 * len =>
      if i < len then s[i] + s[i + len] else Redc(-Zt(k) * (s[i - len] - s[i])))
  }

  function InvLayer(k: int, len: nat, s: seq<int>): (r: seq<int>)
    requires len > 0
    ensures |r| == |s|
    decreases |s|
  {
    if |s| < 2 * len then s else InvButterfly(k, len, s[..2 * len]) + InvLayer(k - 1, len, s[2 * len..])
  }

  /** The inverse layers for lengths 1 up to len, where blocks * len == 128. */
  function InvLayers(blocks: nat, len: nat, y: seq<int>): (r: seq<int>)
    requires len > 0
    ensures |r| == |y|
    decreases len
  {
    InvLayer(2 * blocks - 1, len, if len == 1 then y else InvLayers(2 * blocks, len / 2, y))
  }

  function ToMont(s: seq<int>): (r: seq<int>)
    ensures |r| == |s|
  {
    seq(|s|, i requires 0 <= i < |s| => Redc(41978 * s[i]))
  }

  function Inverse(y: seq<int>): (r: seq<int>)
    ensures |r| == |y|
  {
    ToMont(InvLayers(1, 128, y))
  }

  ghost predicate Scaled(y: seq<int>, c: int, s: seq<int>)
  {
    |y| == |s| && forall i :: 0 <= i < |y| ==> Cong(y[i], c * s[i])
  }

  /** A butterfly followed by its inverse doubles. */
  lemma Undo(w: int, v: int, c: int, s: int, t: int, p: int, q: int)
    requires Cong(w * v, -1) && Cong(p, c * (s + w * t)) && Cong(q, c * (s - w * t))
    ensures Cong(p + q, 2 * c * s) && Cong(-v * (p - q), 2 * c * t)
  {
    var a, b, d := Multiple(p, c * (s + w * t)), Multiple(q, c * (s - w * t)), Multiple(w * v, -1);
    assert c * (s + w * t) == c * s + c * (w * t) && c * (s - w * t) == c * s - c * (w * t);
    CongFrom(p + q, 2 * c * s, a + b);
    calc {
      -v * (p - q);
      -v * (2 * (c * (w * t)) + (a - b) * Q);
      -(2 * c * t) * (w * v) - v * ((a - b) * Q);
      2 * c * t + (-(2 * c * t) * d - v * (a - b)) * Q;
    }
    CongFrom(-v * (p - q), 2 * c * t, -(2 * c * t) * d - v * (a - b));
  }

  /** An inverse butterfly followed by the forward one doubles. */
  lemma Redo(w: int, v: int, c: int, s: int, t: int, p: int, q: int)
    requires Cong(w * v, -1) && Cong(s, c * (p + q)) && Cong(t, c * (-v * (p - q)))
    ensures Cong(s + w * t, 2 * c * p) && Cong(s - w * t, 2 * c * q)
  {
    var a, b, d := Multiple(s, c * (p + q)), Multiple(t, c * (-v * (p - q))), Multiple(w * v, -1);
    calc {
      w * t;
      w * (c * (-v * (p - q)) + b * Q);
      -(c * (p - q)) * (w * v) + w * (b * Q);
      c * (p - q) + (-(c * (p - q)) * d + w * b) * Q;
    }
    CongFrom(s + w * t, 2 * c * p, a - (c * (p - q)) * d + w * b);
    CongFrom(s - w * t, 2 * c * q, a + (c * (p - q)) * d - w * b);
  }

  lemma PairProduct(l: nat, b: nat)
    requires l <= 7 && b < Exp2(l)
    ensures 1 <= Exp2(l) + b < 256 && 1 <= 2 * Exp2(l) - 1 - b < 256
    ensures Cong(W(E(Exp2(l) + b)) * W(E(2 * Exp2(l) - 1 - b)), -1)
  {
    hide Cong, W, E, Exp2;
    SmallExp2(l);
    Partners(l, b);
    WAdd(E(Exp2(l) + b), E(2 * Exp2(l) - 1 - b));
    HalfTurn(0);
  }

  lemma InvButterflyMeaning(k: int, len: nat, y: seq<int>, i: nat)
    requires 1 <= k < 256 && |y| == 2 * len && i < len
    ensures InvButterfly(k, len, y)[i] == y[i] + y[i + len]
    ensures Cong(InvButterfly(k, len, y)[i + len], -W(E(k)) * (y[i] - y[i + len]))
  {
    hide Cong, Redc, W, E, Zt;
    var d := y[i] - y[i + len];
    ZetaTimes(k, -d);
    assert -Zt(k) * d == Zt(k) * (-d) && -W(E(k)) * d == W(E(k)) * (-d);
  }

  lemma BlockUndo(k: int, kk: int, len: nat, s: seq<int>, y: seq<int>, c: int)
    requires 1 <= k < 256 && 1 <= kk < 256 && |s| == 2 * len
    requires Cong(W(E(k)) * W(E(kk)), -1)
    requires Scaled(y, c, Butterfly(k, len, s))
    ensures Scaled(InvButterfly(kk, len, y), 2 * c, s)
  {
    hide Cong, W, E, Butterfly, InvButterfly;
    forall i | 0 <= i < len
      ensures CongPair(InvButterfly(kk, len, y), 2 * c, s, len, i)
    {
      var w, v, t, u := W(E(k)), W(E(kk)), Butterfly(k, len, s)[i], Butterfly(k, len, s)[i + len];
      ButterflyMeaning(k, len, s, i);
      InvButterflyMeaning(kk, len, y, i);
      CongFrom(c, c, 0);
      CongMul(c, c, t, s[i] + w * s[i + len]);
      CongMul(c, c, u, s[i] - w * s[i + len]);
      CongTrans(y[i], c * t, c * (s[i] + w * s[i + len]));
      CongTrans(y[i + len], c * u, c * (s[i] - w * s[i + len]));
      Undo(w, v, c, s[i], s[i + len], y[i], y[i + len]);
      CongTrans(InvButterfly(kk, len, y)[i + len], -v * (y[i] - y[i + len]), 2 * c * s[i + len]);
    }
    ByHalves(InvButterfly(kk, len, y), 2 * c, s, len);
  }

  ghost predicate CongPair(y: seq<int>, c: int, s: seq<int>, len: nat, i: nat)
    requires |y| == |s| == 2 * len && i < len
  {
    Cong(y[i], c * s[i]) && Cong(y[i + len], c * s[i + len])
  }

  lemma ByHalves(y: seq<int>, c: int, s: seq<int>, len: nat)
    requires |y| == |s| == 2 * len
    requires forall i :: 0 <= i < len ==> CongPair(y, c, s, len, i)
    ensures Scaled(y, c, s)
  {
    hide Cong;
    forall j | 0 <= j < 2 * len
      ensures Cong(y[j], c * s[j])
    {
      assert j < len ==> CongPair(y, c, s, len, j);
      if j >= len {
        assert CongPair(y, c, s, len, j - len);
      }
    }
  }

  lemma BlockRedo(k: int, kk: int, len: nat, s: seq<int>, y: seq<int>, c: int)
    requires 1 <= k < 256 && 1 <= kk < 256 && |y| == 2 * len
    requires Cong(W(E(k)) * W(E(kk)), -1)
    requires Scaled(s, c, InvButterfly(kk, len, y))
    ensures Scaled(Butterfly(k, len, s), 2 * c, y)
  {
    hide Cong, W, E, Butterfly, InvButterfly;
    var b := Butterfly(k, len, s);
    forall i | 0 <= i < len
      ensures CongPair(b, 2 * c, y, len, i)
    {
      var w, v, u := W(E(k)), W(E(kk)), InvButterfly(kk, len, y)[i + len];
      ButterflyMeaning(k, len, s, i);
      InvButterflyMeaning(kk, len, y, i);
      CongFrom(c, c, 0);
      CongMul(c, c, u, -v * (y[i] - y[i + len]));
      CongTrans(s[i + len], c * u, c * (-v * (y[i] - y[i + len])));
      Redo(w, v, c, s[i], s[i + len], y[i], y[i + len]);
      CongTrans(b[i], s[i] + w * s[i + len], 2 * c * y[i]);
      CongTrans(b[i + len], s[i] - w * s[i + len], 2 * c * y[i + len]);
    }
    ByHalves(b, 2 * c, y, len);
  }

  lemma ScaledConcat(y: seq<int>, c: int, s: seq<int>, n: nat)
    requires |y| == |s| && n <= |s|
    requires Scaled(y[..n], c, s[..n]) && Scaled(y[n..], c, s[n..])
    ensures Scaled(y, c, s)
  {
    hide Cong;
    forall i | 0 <= i < |y|
      ensures Cong(y[i], c * s[i])
    {
      if i < n {
        assert y[..n][i] == y[i] && s[..n][i] == s[i];
      } else {
        assert y[n..][i - n] == y[i] && s[n..][i - n] == s[i];
      }
    }
  }

  lemma ScaledParts(y: seq<int>, c: int, a: seq<int>, b: seq<int>)
    requires Scaled(y, c, a + b)
    ensures Scaled(y[..|a|], c, a) && Scaled(y[|a|..], c, b)
  {
    hide Cong;
    forall i | 0 <= i < |b|
      ensures Cong(y[|a|..][i], c * b[i])
    {
      assert (a + b)[|a| + i] == b[i];
      assert Cong(y[|a| + i], c * (a + b)[|a| + i]);
    }
    forall i | 0 <= i < |a|
      ensures Cong(y[..|a|][i], c * a[i])
    {
      assert (a + b)[i] == a[i];
    }
  }

  /** Undoing one layer, from its block b onwards. */
  lemma {:induction false} LayerUndo(l: nat, b: nat, len: nat, s: seq<int>, y: seq<int>, c: int)
    requires l <= 7 && b <= Exp2(l) && len > 0 && |s| == (Exp2(l) - b) * (2 * len)
    requires Scaled(y, c, Layer(Exp2(l) + b, len, s))
    ensures Scaled(InvLayer(2 * Exp2(l) - 1 - b, len, y), 2 * c, s)
    decreases Exp2(l) - b
  {
    hide Scaled, Cong, W, E, Butterfly, InvButterfly, Exp2;
    var n, k, kk := 2 * len, Exp2(l) + b, 2 * Exp2(l) - 1 - b;
    ScaledLength(y, c, Layer(k, len, s));
    if b == Exp2(l) {
      ScaledEmpty(2 * c);
    } else {
      MulPred(Exp2(l) - b, n);
      PairProduct(l, b);
      var z := InvLayer(kk, len, y);
      ScaledParts(y, c, Butterfly(k, len, s[..n]), Layer(k + 1, len, s[n..]));
      BlockUndo(k, kk, len, s[..n], y[..n], c);
      LayerUndo(l, b + 1, len, s[n..], y[n..], c);
      assert z[..n] == InvButterfly(kk, len, y[..n]) && z[n..] == InvLayer(kk - 1, len, y[n..]);
      ScaledConcat(z, 2 * c, s, n);
    }
  }

  lemma ScaledLength(y: seq<int>, c: int, s: seq<int>)
    requires Scaled(y, c, s)
    ensures |y| == |s|
  {
  }

  lemma ScaledEmpty(c: int)
    ensures Scaled([], c, [])
  {
  }

  lemma {:induction false} LayerRedo(l: nat, b: nat, len: nat, s: seq<int>, y: seq<int>, c: int)
    requires l <= 7 && b <= Exp2(l) && len > 0 && |y| == (Exp2(l) - b) * (2 * len)
    requires Scaled(s, c, InvLayer(2 * Exp2(l) - 1 - b, len, y))
    ensures Scaled(Layer(Exp2(l) + b, len, s), 2 * c, y)
    decreases Exp2(l) - b
  {
    hide Scaled, Cong, W, E, Butterfly, InvButterfly, Exp2;
    var n, k, kk := 2 * len, Exp2(l) + b, 2 * Exp2(l) - 1 - b;
    ScaledLength(s, c, InvLayer(kk, len, y));
    if b == Exp2(l) {
      ScaledEmpty(2 * c);
    } else {
      MulPred(Exp2(l) - b, n);
      PairProduct(l, b);
      var z := Layer(k, len, s);
      ScaledParts(s, c, InvButterfly(kk, len, y[..n]), InvLayer(kk - 1, len, y[n..]));
      BlockRedo(k, kk, len, s[..n], y[..n], c);
      LayerRedo(l, b + 1, len, s[n..], y[n..], c);
      assert z[..n] == Butterfly(k, len, s[..n]) && z[n..] == Layer(k + 1, len, s[n..]);
      ScaledConcat(z, 2 * c, y, n);
    }
  }

  lemma UnrollLayers(k: int, len: nat, s: seq<int>)
    requires len > 0
    ensures Layers(k, len, s) == Layers(2 * k, len / 2, Layer(k, len, s))
  {
    hide Layer;
  }

  lemma LayersDone(k: int, s: seq<int>)
    ensures Layers(k, 0, s) == s
  {
  }

  lemma UnrollInvLayers(blocks: nat, len: nat, y: seq<int>)
    requires len > 0
    ensures InvLayers(blocks, len, y) ==
            InvLayer(2 * blocks - 1, len, if len == 1 then y else InvLayers(2 * blocks, len / 2, y))
  {
    hide InvLayer;
  }

  /** A factor taken along: 2 * (len * c) as the lemmas below write it. */
  lemma Factor(len: int, c: int)
    ensures 2 * (len * c) == 2 * len * c && len * (2 * c) == 2 * len * c
  {
  }

  lemma {:induction false} LayersUndo(l: nat, s: seq<int>, y: seq<int>, c: int)
    requires l <= 7 && |s| == 256
    requires Scaled(y, c, Layers(Exp2(l), Exp2(7 - l), s))
    ensures Scaled(InvLayers(Exp2(l), Exp2(7 - l), y), 2 * Exp2(7 - l) * c, s)
    decreases 7 - l
  {
    hide Scaled, Layer, InvLayer, Layers, InvLayers, Exp2;
    var k, len := Exp2(l), Exp2(7 - l);
    LengthsOfLayer(l);
    UnrollLayers(k, len, s);
    UnrollInvLayers(k, len, y);
    if l == 7 {
      LayersDone(2 * k, Layer(k, len, s));
      LayerUndo(l, 0, len, s, y, c);
    } else {
      LayersUndo(l + 1, Layer(k, len, s), y, c);
      Factor(len / 2, c);
      LayerUndo(l, 0, len, s, InvLayers(2 * k, len / 2, y), len * c);
      Factor(len, c);
    }
  }

  lemma LengthsOfLayer(l: nat)
    requires l <= 7
    ensures Exp2(l) * (2 * Exp2(7 - l)) == 256
    ensures l < 7 ==> Exp2(l + 1) == 2 * Exp2(l) && 2 * Exp2(7 - (l + 1)) == Exp2(7 - l)
    ensures Exp2(7 - 7) == 1
  {
    assert Exp2(0) == 1 && Exp2(1) == 2 && Exp2(2) == 4 && Exp2(3) == 8;
    assert Exp2(4) == 16 && Exp2(5) == 32 && Exp2(6) == 64 && Exp2(7) == 128;
  }

  lemma {:induction false} LayersRedo(l: nat, s: seq<int>, y: seq<int>, c: int)
    requires l <= 7 && |y| == 256
    requires Scaled(s, c, InvLayers(Exp2(l), Exp2(7 - l), y))
    ensures Scaled(Layers(Exp2(l), Exp2(7 - l), s), 2 * Exp2(7 - l) * c, y)
    decreases 7 - l
  {
    hide Scaled, Layer, InvLayer, Layers, InvLayers, Exp2;
    var k, len := Exp2(l), Exp2(7 - l);
    LengthsOfLayer(l);
    UnrollLayers(k, len, s);
    UnrollInvLayers(k, len, y);
    if l == 7 {
      LayersDone(2 * k, Layer(k, len, s));
      LayerRedo(l, 0, len, s, y, c);
    } else {
      LayerRedo(l, 0, len, s, InvLayers(2 * k, len / 2, y), c);
      LayersRedo(l + 1, Layer(k, len, s), y, 2 * c);
      Factor(len, c);
    }
  }

  /** Inverse undoes Forward and leaves the Montgomery factor. */
  lemma InverseOfForward(s: seq<int>, y: seq<int>, c: int)
    requires |s| == 256 && Scaled(y, c, Forward(s))
    ensures Scaled(Inverse(y), c * R, s)
  {
    hide Scaled, Layers, InvLayers, ToMont;
    ExpEnds();
    LayersUndo(0, s, y, c);
    ToMontScales(InvLayers(1, 128, y), c, s);
  }

  lemma ToMontScales(y: seq<int>, c: int, s: seq<int>)
    requires Scaled(y, 2 * 128 * c, s)
    ensures Scaled(ToMont(y), c * R, s)
  {
    hide Redc, Cong;
    forall i | 0 <= i < |y|
      ensures Cong(ToMont(y)[i], c * R * s[i])
    {
      RedcCong(41978 * y[i]);
      ScaleBack(y[i], c, s[i], Redc(41978 * y[i]));
    }
  }

  /** 41978 is R^2 / 256. */
  lemma ScaleBack(y: int, c: int, s: int, r: int)
    requires Cong(y, 2 * 128 * c * s) && Cong(r * R, 41978 * y)
    ensures Cong(r, c * R * s)
  {
    var k, m := Multiple(y, 2 * 128 * c * s), Multiple(r * R, 41978 * y);
    assert 41978 * 256 == R * R - 2201172575744 * Q;
    calc {
      r * R;
      41978 * (256 * (c * s) + k * Q) + m * Q;
      (R * R) * (c * s) + (41978 * k + m - 2201172575744 * (c * s)) * Q;
    }
    assert (R * R) * (c * s) == (c * R * s) * R;
    CongFrom(r * R, (c * R * s) * R, 41978 * k + m - 2201172575744 * (c * s));
    CancelBoth(r, c * R * s);
  }

  /** Forward undoes Inverse, up to the same factor. */
  lemma ForwardOfInverse(y: seq<int>)
    requires |y| == 256
    ensures Scaled(Forward(Inverse(y)), R, y)
  {
    hide Scaled, Layers, InvLayers, ToMont;
    ExpEnds();
    var u := InvLayers(1, 128, y);
    ToMontCong(u);
    LayersRedo(0, Inverse(y), y, 41978 * RINV);
    Rescale(Forward(Inverse(y)), y);
  }

  lemma ToMontCong(u: seq<int>)
    ensures Scaled(ToMont(u), 41978 * RINV, u)
  {
    hide Redc, Cong;
    forall i | 0 <= i < |u|
      ensures Cong(ToMont(u)[i], 41978 * RINV * u[i])
    {
      RedcCong(41978 * u[i]);
    }
  }

  lemma RescaleOne(x: int, y: int)
    requires Cong(x, 2 * 128 * (41978 * RINV) * y)
    ensures Cong(x, R * y)
  {
    assert 2 * 128 * (41978 * RINV) == R + 10598912 * Q;
    var k := Multiple(x, 2 * 128 * (41978 * RINV) * y);
    assert (R + 10598912 * Q) * y == R * y + (10598912 * y) * Q;
    CongFrom(x, R * y, k + 10598912 * y);
  }

  lemma Rescale(s: seq<int>, y: seq<int>)
    requires Scaled(s, 2 * 128 * (41978 * RINV), y)
    ensures Scaled(s, R, y)
  {
    hide Cong;
    forall i | 0 <= i < |s|
      ensures Cong(s[i], R * y[i])
    {
      RescaleOne(s[i], y[i]);
    }
  }
}
