/** How large coefficients become in the transforms. */
module NttBounds {
  import opened Arith
  import opened Reduce
  import opened Zetas
  import opened NttSpec
  import opened NttInverse
  import opened NttProduct
  import opened Ntt
  import opened PolySpec

  /** The number of layers from length len down. */
  function LayerCount(len: nat): nat { if len == 0 then 0 else 1 + LayerCount(len / 2) }

  lemma {:induction false} LayersBound(k: int, len: nat, s: seq<int>, b: int)
    requires Bounded(s, b) && 0 <= b && b + LayerCount(len) * (Q - 1) <= 0x8000_0000
    ensures Bounded(Layers(k, len, s), b + LayerCount(len) * (Q - 1))
    decreases len
  {
    hide Layer;
    if len != 0 {
      assert LayerCount(len) * (Q - 1) == LayerCount(len / 2) * (Q - 1) + (Q - 1);
      LayerBound(k, len, s, b);
      LayersBound(2 * k, len / 2, Layer(k, len, s), b + Q - 1);
    }
  }

  /** Eight layers add less than 8 Q. */
  lemma ForwardBound(a: seq<int>, b: int)
    requires Bounded(a, b) && 0 <= b <= Q
    ensures Bounded(Forward(a), b + 8 * (Q - 1))
  {
    hide Layers;
    assert LayerCount(128) == 8;
    LayersBound(1, 128, a, b);
  }

  /** Each layer of the inverse transform at most doubles. */
  lemma {:induction false} InvLayersGrowth(blocks: nat, len: nat, y: seq<int>, b: int)
    requires BlockLen(len) && Bounded(y, b) && Q - 1 <= b <= 8388607
    ensures Bounded(InvLayers(blocks, len, y), 2 * len * b)
    decreases len
  {
    hide InvLayer;
    if len == 1 {
      InvLayerBound(2 * blocks - 1, 1, y, b);
    } else {
      InvLayersGrowth(2 * blocks, len / 2, y, b);
      InvLayerBound(2 * blocks - 1, len, InvLayers(2 * blocks, len / 2, y), len * b);
    }
  }

  /** The inverse transform of reduced input stays below 0.503 Q. */
  lemma InverseBound(y: seq<int>)
    requires Bounded(y, Q - 1)
    ensures Bounded(Inverse(y), 4211177)
  {
    hide InvLayers, Redc;
    InvLayersGrowth(1, 128, y, Q - 1);
    var u := InvLayers(1, 128, y);
    forall i | 0 <= i < |u|
      ensures -4211177 <= Redc(41978 * u[i]) <= 4211177
    {
      ToMontBound(u[i]);
    }
  }

  /** Products of transforms stay in the domain of montgomery_reduce. */
  lemma PointwiseBound(p: Poly, q: Poly)
    requires Bounded(p, 9 * Q) && Bounded(q, 9 * Q)
    ensures Bounded(Pointwise(p, q), Q - 1)
  {
    hide Redc;
    forall i | 0 <= i < 256
      ensures -Q < Redc(p[i] * q[i]) < Q
    {
      ProductBound(p[i], 9 * Q, q[i], 9 * Q);
      RedcBelowQ(p[i] * q[i]);
    }
  }

  lemma BlockHalves(blocks: nat, len: nat, start: nat, m: nat)
    requires LayerShape(blocks, len) && AtBlock(start, m, len) && m < blocks
    ensures 0 < len && start + 2 * len <= 256
    ensures len > 1 ==> LayerShape(2 * blocks, len / 2) && 2 * (len / 2) == len
    ensures len > 1 ==> AtBlock(start, 2 * m, len / 2) && AtBlock(start + len, 2 * m + 1, len / 2)
  {
  }

  /** On the input whose coefficients all are b, the first entry of every block is the sum of what went into it. */
  lemma {:induction false} ConstantGrows(blocks: nat, len: nat, y: seq<int>, b: int, m: nat, start: nat)
    requires LayerShape(blocks, len) && AtBlock(start, m, len) && m < blocks && |y| == 256
    requires forall i :: 0 <= i < 256 ==> y[i] == b
    ensures start < 256 && InvLayers(blocks, len, y)[start] == Twice(len * b)
    decreases len
  {
    hide InvLayer, InvButterfly, InvLayers, LayerShape, AtBlock;
    BlockHalves(blocks, len, start, m);
    var s := if len == 1 then y else InvLayers(2 * blocks, len / 2, y);
    UnrollInvLayers(blocks, len, y);
    if len > 1 {
      ConstantGrows(2 * blocks, len / 2, y, b, 2 * m, start);
      ConstantGrows(2 * blocks, len / 2, y, b, 2 * m + 1, start + len);
      HalfTwice(len / 2, b, len);
    }
    assert s[start] == len * b && s[start + len] == len * b;
    var c := InvLayerBlock(2 * blocks - 1, len, s, m, start);
    EntryOfBlock(s, start, 2 * len, 0);
    EntryOfBlock(s, start, 2 * len, len);
    InvButterflyAt(2 * blocks - 1 - m, len, c, 0);
    EntryOfBlock(InvLayers(blocks, len, y), start, 2 * len, 0);
  }

  function Twice(x: int): int { x + x }

  lemma HalfTwice(h: int, b: int, len: int)
    requires 2 * h == len
    ensures Twice(h * b) == len * b
  {
    assert (2 * h) * b == 2 * (h * b);
  }

  lemma EntryOfBlock(s: seq<int>, start: nat, n: nat, o: nat)
    requires o < n && start + n <= |s|
    ensures s[start..start + n][o] == s[start + o]
  {
  }

  /** What the layer of length len finds in the array: the input, or what the layers below left. */
  function LayerInput(blocks: nat, len: nat, y: Poly): (s: Poly)
    requires len > 0
  {
    if len == 1 then y else InvLayers(2 * blocks, len / 2, y)
  }

  /** The sums and differences that a layer computes fit in 32 bits. */
  ghost predicate PairsFit(len: nat, s: Poly)
    requires len > 0
  {
    forall i :: 0 <= i < 256 - len && (i / len) % 2 == 0 ==>
      -0x8000_0000 <= s[i] + s[i + len] <= 0x7fff_ffff && -0x8000_0000 <= s[i] - s[i + len] <= 0x7fff_ffff
  }

  /** Every sum and difference of the inverse transform of y fits in 32 bits. */
  ghost predicate SumsFit(y: Poly)
  {
    forall blocks: nat, len: nat :: LayerShape(blocks, len) ==> PairsFit(len, LayerInput(blocks, len, y))
  }

  lemma LayerInputBound(blocks: nat, len: nat, y: Poly, b: int)
    requires LayerShape(blocks, len) && Bounded(y, b) && Q - 1 <= b <= 8388607
    ensures Bounded(LayerInput(blocks, len, y), len * b)
  {
    hide InvLayers, Bounded;
    if len > 1 {
      InvLayersGrowth(2 * blocks, len / 2, y, b);
    }
  }

  lemma BoundedPairs(len: nat, s: Poly, b: int)
    requires len > 0 && Bounded(s, b) && 2 * b <= 0x7fff_ffff
    ensures PairsFit(len, s)
  {
    forall i | 0 <= i < 256 - len
      ensures -0x7fff_ffff <= s[i] + s[i + len] <= 0x7fff_ffff && -0x7fff_ffff <= s[i] - s[i + len] <= 0x7fff_ffff
    {
      assert -b <= s[i] <= b && -b <= s[i + len] <= b;
    }
  }

  lemma BoundedSumsFit(y: Poly, b: int)
    requires Bounded(y, b) && Q - 1 <= b <= 8388607
    ensures SumsFit(y)
  {
    hide Bounded, PairsFit, LayerInput;
    forall blocks: nat, len: nat | LayerShape(blocks, len)
      ensures PairsFit(len, LayerInput(blocks, len, y))
    {
      LayerInputBound(blocks, len, y, b);
      BoundedPairs(len, LayerInput(blocks, len, y), len * b);
    }
  }

  /** The last layer adds 128 times b to itself. */
  lemma ConstantDoesNotFit(y: Poly, b: int)
    requires b > 8388607 && forall i :: 0 <= i < 256 ==> y[i] == b
    ensures !SumsFit(y)
  {
    hide InvLayers, PairsFit;
    ConstantGrows(2, 64, y, b, 0, 0);
    ConstantGrows(2, 64, y, b, 1, 128);
    LastPair(LayerInput(1, 128, y), 128 * b);
  }

  lemma LastPair(s: Poly, c: int)
    requires s[0] == s[128] == c && 2 * c > 0x7fff_ffff
    ensures !PairsFit(128, s)
  {
    assert s[0] + s[0 + 128] > 0x7fff_ffff;
  }

  /** Input coefficients up to b keep all sums and differences of the inverse transform inside 32 bits exactly when
      256 * b fits: the bound 2 * Q that polyveck_invntt_tomont documents is too large, the bound Q of
      invntt_tomont is right. */
  lemma InverseDomain(b: int)
    ensures (forall y: Poly :: Bounded(y, b) ==> SumsFit(y)) <==> b <= 8388607
  {
    hide SumsFit, Bounded;
    if b <= 8388607 {
      forall y: Poly | Bounded(y, b)
        ensures SumsFit(y)
      {
        var c := if b < Q then Q else b;
        WiderBound(y, b, c);
        BoundedSumsFit(y, c);
      }
    } else {
      var y: Poly := seq(256, i => b);
      ConstantBound(y, b);
      ConstantDoesNotFit(y, b);
    }
  }

  lemma WiderBound(s: seq<int>, b: int, c: int)
    requires Bounded(s, b) && b <= c
    ensures Bounded(s, c)
  {
  }

  lemma ConstantBound(y: seq<int>, b: int)
    requires 0 <= b && forall i :: 0 <= i < |y| ==> y[i] == b
    ensures Bounded(y, b)
  {
  }
}
