/** ntt.c: the two in-place transforms. */
module Ntt {
  import opened Arith
  import opened Reduce
  import opened Zetas
  import opened NttSpec
  import opened NttInverse

  lemma ButterflyAt(k: int, len: nat, c: seq<int>, o: nat)
    requires |c| == 2 * len && o < len
    ensures Butterfly(k, len, c)[o] == c[o] + Redc(Zt(k) * c[o + len])
    ensures Butterfly(k, len, c)[o + len] == c[o] - Redc(Zt(k) * c[o + len])
  {
    hide Zt, Redc;
  }

  lemma InvButterflyAt(k: int, len: nat, c: seq<int>, o: nat)
    requires |c| == 2 * len && o < len
    ensures InvButterfly(k, len, c)[o] == c[o] + c[o + len]
    ensures InvButterfly(k, len, c)[o + len] == Redc(-Zt(k) * (c[o] - c[o + len]))
  {
    hide Zt, Redc;
  }

  lemma LayerBlock(k: nat, len: nat, s: seq<int>, m: nat, start: nat) returns (c: seq<int>)
    requires 0 < len && AtBlock(start, m, len) && start + 2 * len <= |s|
    ensures c == s[start..start + 2 * len]
    ensures Layer(k, len, s)[start..start + 2 * len] == Butterfly(k + m, len, c)
  {
    hide Layer, Butterfly;
    var n := 2 * len;
    c := s[start..start + n];
    var x, y := s[..start], s[start + n..];
    assert s == x + (c + y);
    LayerSplit(k, len, m, x, c + y);
    assert c[..n] == c && c[n..] + y == y;
    LayerCons(k + m, len, c, y);
  }

  lemma MontgomeryOfZeta(k: nat, x: int)
    requires k < 256 && -0x8000_0000 <= x <= 0x8000_0000
    ensures -0x8000_0000 * Q < Zeta(k) * x < 0x8000_0000 * Q
    ensures -0x8000_0000 * Q < -Zeta(k) * x < 0x8000_0000 * Q
    ensures Zt(k) == Zeta(k)
  {
    hide Zeta;
    ZetaBound(k);
    assert -Zeta(k) * x == -(Zeta(k) * x);
    ProductBound(Zeta(k), 4108315, x, 0x8000_0000);
  }

  lemma ProductBound(x: int, a: int, y: int, b: int)
    requires -a <= x <= a && -b <= y <= b
    ensures -a * b <= x * y <= a * b
  {
    assert (a - x) * (b + y) >= 0 && (a + x) * (b - y) >= 0;
    assert (a - x) * (b - y) >= 0 && (a + x) * (b + y) >= 0;
  }

  lemma RedcOfZeta(k: int, x: int)
    requires -0x8000_0000 <= x <= 0x8000_0000
    ensures -Q < Redc(Zt(k) * x) < Q && -Q < Redc(-Zt(k) * x) < Q
  {
    hide Zeta;
    if 0 <= k < 256 {
      MontgomeryOfZeta(k, x);
    }
    RedcBelowQ(Zt(k) * x);
    RedcBelowQ(-Zt(k) * x);
  }

  lemma RedcBelowQ(a: int)
    requires -0x8000_0000 * Q < a < 0x8000_0000 * Q
    ensures -Q < Redc(a) < Q
  {
    var t := ToInt32(a * QINV);
  }

  /** A butterfly adds less than Q to the magnitudes. */
  lemma ButterflyBound(k: int, len: nat, c: seq<int>, b: int)
    requires |c| == 2 * len && Bounded(c, b) && 0 <= b <= 0x8000_0000
    ensures Bounded(Butterfly(k, len, c), b + Q - 1)
  {
    hide Zt, Redc, Butterfly;
    forall i | 0 <= i < 2 * len
      ensures -b - Q < Butterfly(k, len, c)[i] < b + Q
    {
      var o := if i < len then i else i - len;
      assert -b <= c[o] <= b && -b <= c[o + len] <= b;
      ButterflyAt(k, len, c, o);
      RedcOfZeta(k, c[o + len]);
    }
  }

  /** An inverse butterfly at most doubles them. */
  lemma InvButterflyBound(k: int, len: nat, c: seq<int>, b: int)
    requires |c| == 2 * len && Bounded(c, b) && Q - 1 <= 2 * b <= 0x8000_0000
    ensures Bounded(InvButterfly(k, len, c), 2 * b)
  {
    hide Zt, Redc, InvButterfly;
    forall i | 0 <= i < 2 * len
      ensures -2 * b <= InvButterfly(k, len, c)[i] <= 2 * b
    {
      var o := if i < len then i else i - len;
      assert -b <= c[o] <= b && -b <= c[o + len] <= b;
      InvButterflyAt(k, len, c, o);
      RedcOfZeta(k, c[o] - c[o + len]);
    }
  }

  lemma BoundedConcat(a: seq<int>, b: seq<int>, c: int)
    requires Bounded(a, c) && Bounded(b, c)
    ensures Bounded(a + b, c)
  {
  }

  lemma {:induction false} LayerBound(k: int, len: nat, s: seq<int>, b: int)
    requires len > 0 && Bounded(s, b) && 0 <= b <= 0x8000_0000
    ensures Bounded(Layer(k, len, s), b + Q - 1)
    decreases |s|
  {
    hide Butterfly;
    if |s| >= 2 * len {
      var c := s[..2 * len];
      ButterflyBound(k, len, c, b);
      LayerBound(k + 1, len, s[2 * len..], b);
      BoundedConcat(Butterfly(k, len, c), Layer(k + 1, len, s[2 * len..]), b + Q - 1);
    }
  }

  lemma {:induction false} InvLayerBound(k: int, len: nat, s: seq<int>, b: int)
    requires len > 0 && Bounded(s, b) && Q - 1 <= 2 * b <= 0x8000_0000
    ensures Bounded(InvLayer(k, len, s), 2 * b)
    decreases |s|
  {
    hide InvButterfly;
    if |s| >= 2 * len {
      var c := s[..2 * len];
      InvButterflyBound(k, len, c, b);
      InvLayerBound(k - 1, len, s[2 * len..], b);
      BoundedConcat(InvButterfly(k, len, c), InvLayer(k - 1, len, s[2 * len..]), 2 * b);
    }
  }

  predicate LayerShape(blocks: nat, len: nat)
  {
    (blocks, len) in {(1, 128), (2, 64), (4, 32), (8, 16), (16, 8), (32, 4), (64, 2), (128, 1)}
  }

  /** Block m of length 2 * len begins at start. */
  ghost predicate AtBlock(start: nat, m: nat, len: nat) { start == m * (2 * len) }

  lemma FirstBlock(blocks: nat, len: nat)
    requires LayerShape(blocks, len)
    ensures AtBlock(0, 0, len) && 0 < blocks <= 128 && len > 0
  {
  }

  lemma NextBlock(blocks: nat, len: nat, start: nat, m: nat)
    requires LayerShape(blocks, len) && AtBlock(start, m, len) && start < 256
    ensures AtBlock(start + 2 * len, m + 1, len) && start + 2 * len <= 256 && m < blocks
  {
  }

  lemma LastBlock(blocks: nat, len: nat, start: nat, m: nat)
    requires LayerShape(blocks, len) && AtBlock(start, m, len) && start == 256
    ensures m == blocks
  {
  }

  /** s with the block at start replaced by c. */
  ghost function Patched(s: seq<int>, start: nat, c: seq<int>): (r: seq<int>)
    requires start + |c| <= |s|
    ensures |r| == |s|
    ensures forall i :: 0 <= i < |c| ==> r[start + i] == c[i]
    ensures forall i :: 0 <= i < start || start + |c| <= i < |s| ==> r[i] == s[i]
    ensures r[start..start + |c|] == c
  {
    s[..start] + c + s[start + |c|..]
  }

  /** The butterflies of one block, in place. */
  method NttBlock(a: array<Int32>, start: nat, len: nat, k: nat, ghost b: int)
    requires a.Length == 256 && start + 2 * len <= 256 && k < 256
    requires Bounded(a[start..start + 2 * len], b) && 0 <= b <= 0x7fff_ffff - (Q - 1)
    modifies a
    ensures a[..] == Patched(old(a[..]), start, Butterfly(k, len, old(a[start..start + 2 * len])))
    ensures Bounded(a[start..start + 2 * len], b + Q - 1)
  {
    hide Zeta, Zt, Redc, MontgomeryReduce, Cong, Butterfly, Patched;
    ghost var s: seq<int> := a[..];
    ghost var c: seq<int> := a[start..start + 2 * len];
    ButterflyBound(k, len, c, b);
    ghost var l := Patched(s, start, Butterfly(k, len, c));
    var zeta := Zeta(k);
    var j := start;
    while j < start + len
      invariant start <= j <= start + len
      invariant forall i :: 0 <= i < 256 ==>
                  a[i] == if start <= i < j || start + len <= i < j + len then l[i] else s[i]
    {
      MontgomeryOfZeta(k, a[j + len]);
      ButterflyAt(k, len, c, j - start);
      assert c[j - start] == s[j] && c[j - start + len] == s[j + len];
      assert l[start + (j - start)] == l[j] && l[start + (j - start + len)] == l[j + len];
      var t := MontgomeryReduce(zeta * a[j + len]);
      a[j + len] := a[j] - t;
      a[j] := a[j] + t;
      j := j + 1;
    }
    assert a[..] == l;
  }

  /** One layer in place. */
  method NttLayer(a: array<Int32>, len: nat, k0: nat, ghost b: int) returns (k: nat)
    requires a.Length == 256 && LayerShape(k0 + 1, len)
    requires Bounded(a[..], b) && 0 <= b <= 0x7fff_ffff - (Q - 1)
    modifies a
    ensures a[..] == Layer(k0 + 1, len, old(a[..]))
    ensures Bounded(a[..], b + Q - 1)
    ensures k == 2 * k0 + 1
  {
    hide Zeta, Zt, Layer, LayerShape, Butterfly, Patched, AtBlock;
    FirstBlock(k0 + 1, len);
    ghost var s: seq<int> := a[..];
    ghost var l := Layer(k0 + 1, len, s);
    var start := 0;
    ghost var m := 0;
    k := k0;
    while start < 256
      invariant AtBlock(start, m, len) && start <= 256 && k == k0 + m
      invariant forall i :: 0 <= i < start ==> a[i] == l[i]
      invariant forall i :: start <= i < 256 ==> a[i] == s[i]
    {
      NextBlock(k0 + 1, len, start, m);
      k := k + 1;
      ghost var c := LayerBlock(k0 + 1, len, s, m, start);
      assert a[start..start + 2 * len] == c;
      NttBlock(a, start, len, k, b);
      Advance(l, s, a[..], start, 2 * len);
      start := start + 2 * len;
      m := m + 1;
    }
    LastBlock(k0 + 1, len, start, m);
    assert a[..] == l;
    LayerBound(k0 + 1, len, s, b);
  }

  /** Patching in the next block of l extends the part that agrees with l. */
  lemma Advance(l: seq<int>, s: seq<int>, a: seq<int>, start: nat, n: nat)
    requires |l| == |s| == |a| && start + n <= |l|
    requires forall i :: start + n <= i < |l| ==> a[i] == s[i]
    requires forall i :: 0 <= i < start ==> a[i] == l[i]
    requires a[start..start + n] == l[start..start + n]
    ensures forall i :: 0 <= i < start + n ==> a[i] == l[i]
  {
    forall i | start <= i < start + n
      ensures a[i] == l[i]
    {
      assert a[start..start + n][i - start] == l[start..start + n][i - start];
    }
  }

  /** ntt: the forward transform in place; no addition or subtraction leaves 32 bits. */
  method Ntt(a: array<Int32>, ghost b: int)
    requires a.Length == 256
    requires Bounded(a[..], b) && 0 <= b <= 0x7fff_ffff - 8 * (Q - 1)
    modifies a
    ensures a[..] == Forward(old(a[..]))
    ensures Bounded(a[..], b + 8 * (Q - 1))
    ensures forall j :: 0 <= j < 256 ==> Cong(a[j], Eval(old(a[..]), OutRoot(j)))
  {
    hide Layers, Layer, Cong, Eval, OutRoot;
    ghost var s: seq<int> := a[..];
    ghost var done := 0;
    var k, len := 0, 128;
    while len > 0
      invariant (done, len) in {(0, 128), (1, 64), (2, 32), (3, 16), (4, 8), (5, 4), (6, 2), (7, 1), (8, 0)}
      invariant len > 0 ==> LayerShape(k + 1, len)
      invariant Layers(k + 1, len, a[..]) == Forward(s)
      invariant Bounded(a[..], b + done * (Q - 1))
      decreases len
    {
      UnrollLayers(k + 1, len, a[..]);
      k := NttLayer(a, len, k, b + done * (Q - 1));
      len := len / 2;
      done := done + 1;
    }
    LayersDone(k + 1, a[..]);
    forall j | 0 <= j < 256
      ensures Cong(a[j], Eval(s, OutRoot(j)))
    {
      ForwardEvaluates(s, j);
    }
  }

  lemma {:induction false} InvLayerSplit(k: int, len: nat, m: nat, x: seq<int>, y: seq<int>)
    requires len > 0 && |x| == m * (2 * len)
    ensures InvLayer(k, len, x + y) == InvLayer(k, len, x) + InvLayer(k - m, len, y)
    decreases m
  {
    hide InvButterfly;
    if m == 0 {
      assert x + y == y;
    } else {
      var n := 2 * len;
      MulPred(m, n);
      InvLayerCons(k, len, x, y);
      InvLayerSplit(k - 1, len, m - 1, x[n..], y);
    }
  }

  lemma InvLayerCons(k: int, len: nat, x: seq<int>, y: seq<int>)
    requires 0 < 2 * len <= |x|
    ensures InvLayer(k, len, x + y) == InvButterfly(k, len, x[..2 * len]) + InvLayer(k - 1, len, x[2 * len..] + y)
    ensures InvLayer(k, len, x) == InvButterfly(k, len, x[..2 * len]) + InvLayer(k - 1, len, x[2 * len..])
  {
    hide InvButterfly;
    assert (x + y)[..2 * len] == x[..2 * len];
    assert (x + y)[2 * len..] == x[2 * len..] + y;
  }

  lemma InvLayerBlock(k: int, len: nat, s: seq<int>, m: nat, start: nat) returns (c: seq<int>)
    requires 0 < len && AtBlock(start, m, len) && start + 2 * len <= |s|
    ensures c == s[start..start + 2 * len]
    ensures InvLayer(k, len, s)[start..start + 2 * len] == InvButterfly(k - m, len, c)
  {
    hide InvLayer, InvButterfly;
    var n := 2 * len;
    c := s[start..start + n];
    var x, y := s[..start], s[start + n..];
    assert s == x + (c + y);
    InvLayerSplit(k, len, m, x, c + y);
    assert c[..n] == c && c[n..] + y == y;
    InvLayerCons(k - m, len, c, y);
  }

  /** The inverse butterflies of one block, in place: magnitudes at most double. */
  method InvNttBlock(a: array<Int32>, start: nat, len: nat, k: nat, ghost b: int)
    requires a.Length == 256 && start + 2 * len <= 256 && k < 256
    requires Bounded(a[start..start + 2 * len], b) && Q - 1 <= 2 * b <= 0x7fff_ffff
    modifies a
    ensures a[..] == Patched(old(a[..]), start, InvButterfly(k, len, old(a[start..start + 2 * len])))
    ensures Bounded(a[start..start + 2 * len], 2 * b)
  {
    hide Zeta, Zt, Redc, MontgomeryReduce, Cong, InvButterfly, Patched;
    ghost var s: seq<int> := a[..];
    ghost var c: seq<int> := a[start..start + 2 * len];
    InvButterflyBound(k, len, c, b);
    ghost var l := Patched(s, start, InvButterfly(k, len, c));
    var zeta := -Zeta(k);
    var j := start;
    while j < start + len
      invariant start <= j <= start + len
      invariant forall i :: 0 <= i < 256 ==>
                  a[i] == if start <= i < j || start + len <= i < j + len then l[i] else s[i]
    {
      InvButterflyAt(k, len, c, j - start);
      assert c[j - start] == s[j] && c[j - start + len] == s[j + len];
      assert l[start + (j - start)] == l[j] && l[start + (j - start + len)] == l[j + len];
      var t := a[j];
      a[j] := t + a[j + len];
      a[j + len] := t - a[j + len];
      MontgomeryOfZeta(k, a[j + len]);
      a[j + len] := MontgomeryReduce(zeta * a[j + len]);
      j := j + 1;
    }
    assert a[..] == l;
  }

  /** One inverse layer in place. */
  method InvNttLayer(a: array<Int32>, len: nat, k0: nat, ghost b: int) returns (k: nat)
    requires a.Length == 256 && LayerShape(k0 / 2, len) && k0 % 2 == 0
    requires Bounded(a[..], b) && Q - 1 <= 2 * b <= 0x7fff_ffff
    modifies a
    ensures a[..] == InvLayer(k0 - 1, len, old(a[..]))
    ensures Bounded(a[..], 2 * b)
    ensures k == k0 / 2
  {
    hide Zeta, Zt, InvLayer, LayerShape, InvButterfly, Patched, AtBlock;
    FirstBlock(k0 / 2, len);
    ghost var s: seq<int> := a[..];
    ghost var l := InvLayer(k0 - 1, len, s);
    var start := 0;
    ghost var m := 0;
    k := k0;
    while start < 256
      invariant AtBlock(start, m, len) && start <= 256 && k == k0 - m && m <= k0 / 2
      invariant forall i :: 0 <= i < start ==> a[i] == l[i]
      invariant forall i :: start <= i < 256 ==> a[i] == s[i]
    {
      NextBlock(k0 / 2, len, start, m);
      k := k - 1;
      ghost var c := InvLayerBlock(k0 - 1, len, s, m, start);
      assert a[start..start + 2 * len] == c;
      InvNttBlock(a, start, len, k, b);
      Advance(l, s, a[..], start, 2 * len);
      start := start + 2 * len;
      m := m + 1;
    }
    LastBlock(k0 / 2, len, start, m);
    assert a[..] == l;
    InvLayerBound(k0 - 1, len, s, b);
  }

  /** The last multiplication of the inverse transform brings 2^31 down to about Q / 2. */
  lemma ToMontBound(x: int)
    requires -256 * (Q - 1) <= x <= 256 * (Q - 1)
    ensures -4211177 <= Redc(41978 * x) <= 4211177
    ensures -0x8000_0000 * Q < 41978 * x < 0x8000_0000 * Q
  {
    var t := ToInt32(41978 * x * QINV);
    assert Redc(41978 * x) * R == 41978 * x - t * Q;
  }

  /** invntt_tomont: the inverse transform in place, times the Montgomery factor. */
  method InvNttToMont(a: array<Int32>)
    requires a.Length == 256
    requires Bounded(a[..], Q - 1)
    modifies a
    ensures a[..] == Inverse(old(a[..]))
    ensures Bounded(a[..], 4211177)
    ensures Scaled(Forward(a[..]), R, old(a[..]))
  {
    hide InvLayers, InvLayer, Redc, MontgomeryReduce, Scaled, Forward;
    ghost var y: seq<int> := a[..];
    ghost var b := Q - 1;
    var k, len := 256, 1;
    while len < 256
      invariant (b, len) in {(Q - 1, 1), (2 * (Q - 1), 2), (4 * (Q - 1), 4), (8 * (Q - 1), 8), (16 * (Q - 1), 16),
                             (32 * (Q - 1), 32), (64 * (Q - 1), 64), (128 * (Q - 1), 128), (256 * (Q - 1), 256)}
      invariant k * len == 256
      invariant a[..] == if len == 1 then y else InvLayers(k, len / 2, y)
      invariant Bounded(a[..], b)
    {
      UnrollInvLayers(k / 2, len, y);
      k := InvNttLayer(a, len, k, b);
      len := len * 2;
      b := 2 * b;
    }
    ghost var u: seq<int> := a[..];
    var f: int := 41978;
    var j := 0;
    while j < 256
      invariant 0 <= j <= 256
      invariant forall i :: 0 <= i < j ==> a[i] == Redc(41978 * u[i]) && -4211177 <= a[i] <= 4211177
      invariant forall i :: j <= i < 256 ==> a[i] == u[i]
    {
      ToMontBound(u[j]);
      a[j] := MontgomeryReduce(f * a[j]);
      j := j + 1;
    }
    assert a[..] == Inverse(y);
    ForwardOfInverse(y);
  }
}
