/** The table of ntt.c, and why it holds the powers of 1753 in bit-reversed order. */
module Zetas {
  import opened Arith

  function Zeta(k: nat): (z: int)
    requires k < 256
  {
    if k < 8 then [0, 25847, -2608894, -518909, 237124, -777960, -876248, 466468][k]
    else if k < 16 then [1826347, 2353451, -359251, -2091905, 3119733, -2884855, 3111497, 2680103][k - 8]
    else if k < 24 then [2725464, 1024112, -1079900, 3585928, -549488, -1119584, 2619752, -2108549][k - 16]
    else if k < 32 then [-2118186, -3859737, -1399561, -3277672, 1757237, -19422, 4010497, 280005][k - 24]
    else if k < 40 then [2706023, 95776, 3077325, 3530437, -1661693, -3592148, -2537516, 3915439][k - 32]
    else if k < 48 then [-3861115, -3043716, 3574422, -2867647, 3539968, -300467, 2348700, -539299][k - 40]
    else if k < 56 then [-1699267, -1643818, 3505694, -3821735, 3507263, -2140649, -1600420, 3699596][k - 48]
    else if k < 64 then [811944, 531354, 954230, 3881043, 3900724, -2556880, 2071892, -2797779][k - 56]
    else if k < 72 then [-3930395, -1528703, -3677745, -3041255, -1452451, 3475950, 2176455, -1585221][k - 64]
    else if k < 80 then [-1257611, 1939314, -4083598, -1000202, -3190144, -3157330, -3632928, 126922][k - 72]
    else if k < 88 then [3412210, -983419, 2147896, 2715295, -2967645, -3693493, -411027, -2477047][k - 80]
    else if k < 96 then [-671102, -1228525, -22981, -1308169, -381987, 1349076, 1852771, -1430430][k - 88]
    else if k < 104 then [-3343383, 264944, 508951, 3097992, 44288, -1100098, 904516, 3958618][k - 96]
    else if k < 112 then [-3724342, -8578, 1653064, -3249728, 2389356, -210977, 759969, -1316856][k - 104]
    else if k < 120 then [189548, -3553272, 3159746, -1851402, -2409325, -177440, 1315589, 1341330][k - 112]
    else if k < 128 then [1285669, -1584928, -812732, -1439742, -3019102, -3881060, -3628969, 3839961][k - 120]
    else if k < 136 then [2091667, 3407706, 2316500, 3817976, -3342478, 2244091, -2446433, -3562462][k - 128]
    else if k < 144 then [266997, 2434439, -1235728, 3513181, -3520352, -3759364, -1197226, -3193378][k - 136]
    else if k < 152 then [900702, 1859098, 909542, 819034, 495491, -1613174, -43260, -522500][k - 144]
    else if k < 160 then [-655327, -3122442, 2031748, 3207046, -3556995, -525098, -768622, -3595838][k - 152]
    else if k < 168 then [342297, 286988, -2437823, 4108315, 3437287, -3342277, 1735879, 203044][k - 160]
    else if k < 176 then [2842341, 2691481, -2590150, 1265009, 4055324, 1247620, 2486353, 1595974][k - 168]
    else if k < 184 then [-3767016, 1250494, 2635921, -3548272, -2994039, 1869119, 1903435, -1050970][k - 176]
    else if k < 192 then [-1333058, 1237275, -3318210, -1430225, -451100, 1312455, 3306115, -1962642][k - 184]
    else if k < 200 then [-1279661, 1917081, -2546312, -1374803, 1500165, 777191, 2235880, 3406031][k - 192]
    else if k < 208 then [-542412, -2831860, -1671176, -1846953, -2584293, -3724270, 594136, -3776993][k - 200]
    else if k < 216 then [-2013608, 2432395, 2454455, -164721, 1957272, 3369112, 185531, -1207385][k - 208]
    else if k < 224 then [-3183426, 162844, 1616392, 3014001, 810149, 1652634, -3694233, -1799107][k - 216]
    else if k < 232 then [-3038916, 3523897, 3866901, 269760, 2213111, -975884, 1717735, 472078][k - 224]
    else if k < 240 then [-426683, 1723600, -1803090, 1910376, -1667432, -1104333, -260646, -3833893][k - 232]
    else if k < 248 then [-2939036, -2235985, -420899, -2286327, 183443, -976891, 1612842, -3545687][k - 240]
    else [-554416, 3919660, -48306, -1362209, 3937738, 1400424, -846154, 1976782][k - 248]
  }

  /** No entry of the table exceeds 4108315 < Q / 2 in absolute value. */
  lemma ZetaBound(k: nat)
    requires k < 256
    ensures -4108315 <= Zeta(k) <= 4108315
  {
    if k < 128 {
      ZetaBoundLow(k);
    } else {
      ZetaBoundHigh(k);
    }
  }

  lemma ZetaBoundLow(k: nat)
    requires k < 128
    ensures -4108315 <= Zeta(k) <= 4108315
  {
    if k < 64 {} else {}
  }

  lemma ZetaBoundHigh(k: nat)
    requires 128 <= k < 256
    ensures -4108315 <= Zeta(k) <= 4108315
  {
    if k < 192 {} else {}
  }

  /** zetas[h + b] = zetas[h] * zetas[b] / R for a power of two h. */
  ghost predicate Factors(h: nat, b: nat)
    requires 1 <= b < h <= 128
  {
    Cong(Zeta(h + b) * R, Zeta(h) * Zeta(b))
  }

  /** Factors(128, b), with the value of zetas[128] in place. */
  ghost predicate FactorsTop(b: nat)
    requires b < 128
  {
    Cong(Zeta(128 + b) * R, 2091667 * Zeta(b))
  }

  lemma Factors128(b: nat)
    requires 1 <= b < 128
    ensures Factors(128, b)
  {
    if b < 32 {
      Factors128A(b);
    } else if b < 64 {
      Factors128B(b);
    } else if b < 96 {
      Factors128C(b);
    } else {
      Factors128D(b);
    }
    assert Zeta(128) == 2091667;
  }

  lemma Factors128A(b: nat)
    requires 1 <= b < 32
    ensures FactorsTop(b)
  {
    if b < 4 {} else if b < 8 {} else if b < 12 {} else if b < 16 {}
    else if b < 20 {} else if b < 24 {} else if b < 28 {} else {}
  }

  lemma Factors128B(b: nat)
    requires 32 <= b < 64
    ensures FactorsTop(b)
  {
    if b < 36 {} else if b < 40 {} else if b < 44 {} else if b < 48 {}
    else if b < 52 {} else if b < 56 {} else if b < 60 {} else {}
  }

  lemma Factors128C(b: nat)
    requires 64 <= b < 96
    ensures FactorsTop(b)
  {
    if b < 68 {} else if b < 72 {} else if b < 76 {} else if b < 80 {}
    else if b < 84 {} else if b < 88 {} else if b < 92 {} else {}
  }

  lemma Factors128D(b: nat)
    requires 96 <= b < 128
    ensures FactorsTop(b)
  {
    if b < 100 {} else if b < 104 {} else if b < 108 {} else if b < 112 {}
    else if b < 116 {} else if b < 120 {} else if b < 124 {} else {}
  }

  lemma Factors64(b: nat)
    requires 1 <= b < 64
    ensures Factors(64, b)
  {
    if b < 32 {
      Factors64A(b);
    } else {
      Factors64B(b);
    }
  }

  lemma Factors64A(b: nat)
    requires 1 <= b < 32
    ensures Factors(64, b)
  {
    if b < 8 {} else if b < 16 {} else if b < 24 {} else {}
  }

  lemma Factors64B(b: nat)
    requires 32 <= b < 64
    ensures Factors(64, b)
  {
    if b < 40 {} else if b < 48 {} else if b < 56 {} else {}
  }

  lemma Factors32(b: nat)
    requires 1 <= b < 32
    ensures Factors(32, b)
  {
    if b < 8 {} else if b < 16 {} else if b < 24 {} else {}
  }

  lemma Factors16(b: nat)
    requires 1 <= b < 16
    ensures Factors(16, b)
  {
    if b < 4 {} else if b < 8 {} else if b < 12 {} else {}
  }

  lemma FactorsSmall(h: nat, b: nat)
    requires h in {2, 4, 8} && 1 <= b < h
    ensures Factors(h, b)
  {
    if h == 2 {
    } else if h == 4 {
      Factors4(b);
    } else {
      Factors8(b);
    }
  }

  lemma Factors4(b: nat)
    requires 1 <= b < 4
    ensures Factors(4, b)
  {
    if b == 1 {} else if b == 2 {} else {}
  }

  lemma Factors8(b: nat)
    requires 1 <= b < 8
    ensures Factors(8, b)
  {
    if b < 4 {} else {}
  }

  lemma TableFactors(h: nat, b: nat)
    requires h in {2, 4, 8, 16, 32, 64, 128} && 1 <= b < h
    ensures Factors(h, b)
  {
    hide Factors;
    if h == 128 {
      Factors128(b);
    } else if h == 64 {
      Factors64(b);
    } else if h == 32 {
      Factors32(b);
    } else if h == 16 {
      Factors16(b);
    } else {
      FactorsSmall(h, b);
    }
  }

  /** The zetas at powers of two are square roots, one after the other. */
  lemma PowerRoot(h: nat)
    requires h in {1, 2, 4, 8, 16, 32, 64}
    ensures Cong(Zeta(h) * R, Zeta(2 * h) * Zeta(2 * h))
  {
    if h <= 2 {} else if h <= 8 {} else if h <= 16 {} else {}
  }

  lemma PowerRoots()
    ensures Cong(Zeta(1) * Zeta(1), -R * R)
    ensures forall h :: h in {1, 2, 4, 8, 16, 32, 64} ==> Cong(Zeta(h) * R, Zeta(2 * h) * Zeta(2 * h))
    ensures Cong(Zeta(128), R * 1753)
  {
    hide Zeta, Cong;
    forall h | h in {1, 2, 4, 8, 16, 32, 64}
      ensures Cong(Zeta(h) * R, Zeta(2 * h) * Zeta(2 * h))
    {
      PowerRoot(h);
    }
    LastZeta();
  }

  lemma LastZeta()
    ensures Cong(Zeta(1) * Zeta(1), -R * R) && Cong(Zeta(128), R * 1753)
  {
  }

  function Pow(x: int, n: nat): int
  {
    if n == 0 then 1 else x * Pow(x, n - 1)
  }

  lemma {:induction false} PowAdd(x: int, m: nat, n: nat)
    ensures Pow(x, m + n) == Pow(x, m) * Pow(x, n)
  {
    if m != 0 {
      PowAdd(x, m - 1, n);
      assert x * (Pow(x, m - 1) * Pow(x, n)) == (x * Pow(x, m - 1)) * Pow(x, n);
    }
  }

  /** The low bits of j, in reverse. */
  function BitRev(width: nat, j: nat): nat
  {
    if width == 0 then 0 else (if j % 2 == 1 then Exp2(width - 1) else 0) + BitRev(width - 1, j / 2)
  }

  /** BitRev8 of the source's table: zetas[k] is R times 1753 to the power E(k). */
  function E(k: nat): nat { BitRev(8, k) }

  /** Powers of the 512-th root of unity 1753. */
  function W(e: nat): int { Pow(1753, e) }

  lemma {:induction false} BitRevZero(width: nat)
    ensures BitRev(width, 0) == 0
  {
    if width > 0 {
      BitRevZero(width - 1);
    }
  }

  lemma {:induction false} BitRevAdd(width: nat, l: nat, b: nat)
    requires l < width && b < Exp2(l)
    ensures BitRev(width, Exp2(l) + b) == Exp2(width - 1 - l) + BitRev(width, b)
  {
    if l > 0 {
      var h := Exp2(l - 1);
      assert Exp2(l) == 2 * h;
      assert (2 * h + b) % 2 == b % 2 && (2 * h + b) / 2 == h + b / 2;
      BitRevAdd(width - 1, l - 1, b / 2);
    } else {
      BitRevZero(width - 1);
    }
  }

  lemma {:induction false} BitRevWiden(width: nat, j: nat)
    requires j < Exp2(width)
    ensures BitRev(width + 1, j) == 2 * BitRev(width, j)
  {
    if width > 0 {
      BitRevWiden(width - 1, j / 2);
    }
  }

  /** Complementing the low l bits complements their reversal. */
  lemma {:induction false} BitRevComplement(width: nat, l: nat, b: nat)
    requires l <= width && b < Exp2(l)
    ensures BitRev(width, b) + BitRev(width, Exp2(l) - 1 - b) == Exp2(width) - Exp2(width - l)
  {
    if l > 0 {
      assert Exp2(l) == 2 * Exp2(l - 1);
      assert (Exp2(l) - 1 - b) / 2 == Exp2(l - 1) - 1 - b / 2;
      BitRevComplement(width - 1, l - 1, b / 2);
    } else {
      BitRevZero(width);
    }
  }

  lemma WAdd(d: nat, e: nat)
    ensures W(d) * W(e) == W(d + e)
  {
    PowAdd(1753, d, e);
  }

  /** zetas[2^l] holds the power 2^(7 - l). */
  lemma {:induction false} ZetaPow2(l: nat)
    requires l <= 7
    ensures Exp2(l) <= 128 && Cong(Zeta(Exp2(l)), R * W(Exp2(7 - l)))
    decreases 7 - l
  {
    hide Zeta, Cong, Pow, BitRev;
    PowerRoots();
    SmallExp2(l);
    if l == 7 {
      WOne();
    } else {
      ZetaPow2(l + 1);
      WAdd(Exp2(6 - l), Exp2(6 - l));
      var h := Exp2(l);
      FactorR(Zeta(h), Zeta(2 * h), Zeta(2 * h), W(Exp2(6 - l)), W(Exp2(6 - l)));
    }
  }

  lemma WOne()
    ensures W(1) == 1753 && W(0) == 1
  {
    assert W(1) == 1753 * Pow(1753, 0);
  }

  lemma SmallExp2(l: nat)
    requires l <= 7
    ensures Exp2(l) in {1, 2, 4, 8, 16, 32, 64, 128} && (l < 7 ==> Exp2(l) != 128)
    ensures Exp2(8) == 256 && Exp2(8 - l) == 2 * Exp2(7 - l)
  {
    assert Exp2(0) == 1 && Exp2(1) == 2 && Exp2(2) == 4 && Exp2(3) == 8;
    assert Exp2(4) == 16 && Exp2(5) == 32 && Exp2(6) == 64 && Exp2(7) == 128;
  }

  lemma CancelBoth(a: int, b: int)
    requires Cong(a * R, b * R)
    ensures Cong(a, b)
  {
    CancelR(a, b * R);
    CancelR(b, b * R);
    CongSym(b, b * R * RINV);
    CongTrans(a, b * R * RINV, b);
  }

  /** The product of R * u and R * v, divided by R. */
  lemma FactorR(z: int, x: int, y: int, u: int, v: int)
    requires Cong(z * R, x * y) && Cong(x, R * u) && Cong(y, R * v)
    ensures Cong(z, R * (u * v))
  {
    CongMul(x, R * u, y, R * v);
    assert (R * u) * (R * v) == (R * (u * v)) * R;
    CongTrans(z * R, x * y, (R * (u * v)) * R);
    CancelBoth(z, R * (u * v));
  }

  /** Every table entry but the unused first is the power of 1753 that its index reversed names. */
  lemma {:induction false} ZetaIsPower(k: nat)
    requires 1 <= k < 256
    ensures Cong(Zeta(k), R * W(E(k)))
  {
    hide Zeta, Cong, Pow, BitRev;
    var l, b := Split(k, 8);
    SmallExp2(l);
    ZetaPow2(l);
    BitRevAdd(8, l, b);
    if b == 0 {
      BitRevZero(8);
    } else {
      ZetaIsPower(b);
      TableFactors(Exp2(l), b);
      WAdd(Exp2(7 - l), E(b));
      FactorR(Zeta(k), Zeta(Exp2(l)), Zeta(b), W(Exp2(7 - l)), W(E(b)));
    }
  }

  /** The leading bit of a positive number. */
  lemma {:induction false} Split(k: nat, n: nat) returns (l: nat, b: nat)
    requires 0 < k < Exp2(n)
    ensures l < n && b < Exp2(l) && k == Exp2(l) + b
  {
    if k < Exp2(n - 1) {
      l, b := Split(k, n - 1);
    } else {
      l, b := n - 1, k - Exp2(n - 1);
    }
  }

  /** 1753 has order 512: its 256-th power is -1. */
  lemma HalfTurn(e: nat)
    ensures Cong(W(256), -1) && Cong(W(e + 256), -W(e))
  {
    hide Zeta, Cong, Pow, BitRev;
    PowerRoots();
    ZetaIsPower(1);
    assert E(1) == 128 by {
      BitRevAdd(8, 0, 0);
      BitRevZero(8);
      SmallExp2(7);
    }
    WAdd(128, 128);
    WAdd(256, e);
    SquareIsMinusOne(Zeta(1), W(128), W(e));
  }

  lemma SquareIsMinusOne(z: int, w: int, v: int)
    requires Cong(z * z, -R * R) && Cong(z, R * w)
    ensures Cong(w * w, -1) && Cong((w * w) * v, -v)
  {
    CongMul(z, R * w, z, R * w);
    CongSym(z * z, (R * w) * (R * w));
    CongTrans((R * w) * (R * w), z * z, -R * R);
    assert (R * w) * (R * w) == (w * w * R) * R;
    CancelBoth(w * w * R, -1 * R);
    CancelBoth(w * w, -1);
    CongFrom(v, v, 0);
    CongMul(w * w, -1, v, v);
  }

  lemma BitRevChildren(width: nat, k: nat)
    requires width > 0
    ensures BitRev(width, 2 * k) == BitRev(width - 1, k)
    ensures BitRev(width, 2 * k + 1) == Exp2(width - 1) + BitRev(width - 1, k)
  {
    hide Exp2;
    assert (2 * k) % 2 == 0 && (2 * k) / 2 == k && (2 * k + 1) % 2 == 1 && (2 * k + 1) / 2 == k;
  }

  /** Children of node k: half its exponent, and half its exponent plus 128. */
  lemma Children(k: nat)
    requires 1 <= k < 128
    ensures 2 * E(2 * k) == E(k) && E(2 * k + 1) == E(2 * k) + 128
  {
    hide BitRev;
    SmallExp2(7);
    BitRevWiden(7, k);
    BitRevChildren(8, k);
  }

  /** The two table entries met by one block on its way out and back. */
  lemma Partners(l: nat, b: nat)
    requires l <= 7 && b < Exp2(l)
    ensures E(Exp2(l) + b) + E(2 * Exp2(l) - 1 - b) == 256
  {
    hide BitRev, Exp2;
    SmallExp2(l);
    BitRevAdd(8, l, b);
    BitRevAdd(8, l, Exp2(l) - 1 - b);
    BitRevComplement(8, l, b);
  }
}
