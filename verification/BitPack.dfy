/** The packing loops of poly.c for all formats, and that they lose nothing. */
module BitPack {
  import opened Arith

  /** lo | (hi << n) for the power of two w = 2^n, where the two share no bit. */
  function Or(lo: int, hi: int, w: int): int
    requires 0 <= lo < w && 0 <= hi
  {
    lo + hi * w
  }

  function BitOr(a: nat, b: nat): nat
  {
    if a == 0 && b == 0 then 0
    else 2 * BitOr(a / 2, b / 2) + (if a % 2 == 1 || b % 2 == 1 then 1 else 0)
  }

  lemma {:induction false} BitOrZero(b: nat)
    ensures BitOr(0, b) == b
  {
    if b != 0 {
      BitOrZero(b / 2);
    }
  }

  /** Or is the bitwise or of its two parts. */
  lemma {:induction false} OrIsBitwise(lo: nat, hi: nat, n: nat)
    requires lo < Exp2(n)
    ensures hi * Exp2(n) >= 0 && BitOr(lo, hi * Exp2(n)) == Or(lo, hi, Exp2(n))
  {
    if n == 0 {
      BitOrZero(hi);
    } else {
      var w := Exp2(n - 1);
      assert hi * (2 * w) == 2 * (hi * w);
      OrIsBitwise(lo / 2, hi, n - 1);
      if lo == 0 && hi * w == 0 {
        BitOrZero(hi * Exp2(n));
      }
    }
  }

  /** The coefficient formats of poly.c. */
  datatype Format = Eta2 | Eta4 | T1 | T0 | Z18 | Z20 | W6 | W4

  /** Coefficients in one unrolled step of the packing loop. */
  function Coeffs(f: Format): (n: nat)
    ensures n > 0
  {
    match f
    case Eta2 => 8
    case Eta4 => 2
    case T1 => 4
    case T0 => 8
    case Z18 => 4
    case Z20 => 2
    case W6 => 4
    case W4 => 2
  }

  /** Bytes written by that step. */
  function Bytes(f: Format): (n: nat)
    ensures n > 0
  {
    match f
    case Eta2 => 3
    case Eta4 => 1
    case T1 => 5
    case T0 => 13
    case Z18 => 9
    case Z20 => 5
    case W6 => 3
    case W4 => 1
  }

  /** Coefficients are stored as Top - a, except those that are never negative, which are stored as they are. */
  function Top(f: Format): int
  {
    match f
    case Eta2 => 2
    case Eta4 => 4
    case T0 => 4096
    case Z18 => 0x2_0000
    case Z20 => 0x8_0000
    case _ => 0
  }

  function Stored(f: Format, a: int): int { if f in {T1, W6, W4} then a else Top(f) - a }

  predicate Fits(f: Format, a: int)
  {
    match f
    case Eta2 => -2 <= a <= 2
    case Eta4 => -4 <= a <= 4
    case T1 => 0 <= a < 1024
    case T0 => -4096 < a <= 4096
    case Z18 => -0x2_0000 < a <= 0x2_0000
    case Z20 => -0x8_0000 < a <= 0x8_0000
    case W6 => 0 <= a < 44
    case W4 => 0 <= a < 16
  }

  predicate AllFit(f: Format, p: seq<int>) { forall i :: 0 <= i < |p| ==> Fits(f, p[i]) }

  /** x >> n for w = 2^n, the number of times w fits into x. It is counted by subtraction, not divided, because
      nested divisions slow proofs down. */
  function Shr(x: int, w: int): (r: int)
    requires 0 <= x && 0 < w
    ensures 0 <= r && r * w <= x < r * w + w
  {
    if x < w then 0
    else
      assert (1 + Shr(x - w, w)) * w == w + Shr(x - w, w) * w;
      1 + Shr(x - w, w)
  }

  /** x & (m - 1) for a power of two m, what is left of x; with m = 256 also the conversion to a byte. */
  function Low(x: int, m: int): (r: int)
    requires 0 <= x && 0 < m
    ensures 0 <= r < m
  {
    if x < m then x else Low(x - m, m)
  }

  /** Quotient and remainder, as what a right shift and a mask give. */
  lemma {:induction false} Parts(t: int, d: int) returns (q: int, r: int)
    requires 0 <= t && 0 < d
    ensures t == q * d + r && 0 <= r < d && 0 <= q && Shr(t, d) == q && Low(t, d) == r
    decreases t
  {
    if t < d {
      q, r := 0, t;
    } else {
      var q', r' := Parts(t - d, d);
      q, r := q' + 1, r';
      assert (q' + 1) * d == q' * d + d;
    }
  }

  /** The shift is division and the mask is remainder. */
  lemma ShiftsDivide(x: int, w: int)
    requires 0 <= x && 0 < w
    ensures Shr(x, w) == x / w && Low(x, w) == x % w
  {
    var q, r := Parts(x, w);
    DivModIs(x, w, q, r);
  }

  function PackEta2(t: seq<int>): (r: seq<Byte>)
    requires |t| == 8 && forall i :: 0 <= i < 8 ==> 0 <= t[i] < 8
    ensures |r| == 3
  {
    [Low(Or(Or(t[0], t[1], 8), t[2], 64), 256),
     Low(Or(Or(Or(Shr(t[2], 4), t[3], 2), t[4], 16), t[5], 128), 256),
     Low(Or(Or(Shr(t[5], 2), t[6], 4), t[7], 32), 256)]
  }

  function UnpackEta2(a: seq<Byte>): (t: seq<int>)
    requires |a| == 3
    ensures |t| == 8
  {
    [Low(a[0], 8), Low(Shr(a[0], 8), 8), Low(Or(Shr(a[0], 64), a[1], 4), 8), Low(Shr(a[1], 2), 8),
     Low(Shr(a[1], 16), 8), Low(Or(Shr(a[1], 128), a[2], 2), 8), Low(Shr(a[2], 4), 8), Low(Shr(a[2], 32), 8)]
  }

  function PackEta4(t: seq<int>): (r: seq<Byte>)
    requires |t| == 2 && forall i :: 0 <= i < 2 ==> 0 <= t[i] < 16
    ensures |r| == 1
  {
    [Low(Or(t[0], t[1], 16), 256)]
  }

  function UnpackEta4(a: seq<Byte>): (t: seq<int>)
    requires |a| == 1
    ensures |t| == 2
  {
    [Low(a[0], 16), Shr(a[0], 16)]
  }

  function PackT1(t: seq<int>): (r: seq<Byte>)
    requires |t| == 4 && forall i :: 0 <= i < 4 ==> 0 <= t[i] < 1024
    ensures |r| == 5
  {
    [Low(t[0], 256),
     Low(Or(Shr(t[0], 256), t[1], 4), 256),
     Low(Or(Shr(t[1], 64), t[2], 16), 256),
     Low(Or(Shr(t[2], 16), t[3], 64), 256),
     Low(Shr(t[3], 4), 256)]
  }

  function UnpackT1(a: seq<Byte>): (t: seq<int>)
    requires |a| == 5
    ensures |t| == 4
  {
    [Low(Or(a[0], a[1], 256), 1024),
     Low(Or(Shr(a[1], 4), a[2], 64), 1024),
     Low(Or(Shr(a[2], 16), a[3], 16), 1024),
     Low(Or(Shr(a[3], 64), a[4], 4), 1024)]
  }

  function PackT0(t: seq<int>): (r: seq<Byte>)
    requires |t| == 8 && forall i :: 0 <= i < 8 ==> 0 <= t[i] < 8192
    ensures |r| == 13
  {
    [Low(t[0], 256),
     Low(Or(Shr(t[0], 256), t[1], 32), 256),
     Low(Shr(t[1], 8), 256),
     Low(Or(Shr(t[1], 2048), t[2], 4), 256),
     Low(Or(Shr(t[2], 64), t[3], 128), 256),
     Low(Shr(t[3], 2), 256),
     Low(Or(Shr(t[3], 512), t[4], 16), 256),
     Low(Shr(t[4], 16), 256),
     Low(Or(Shr(t[4], 4096), t[5], 2), 256),
     Low(Or(Shr(t[5], 128), t[6], 64), 256),
     Low(Shr(t[6], 4), 256),
     Low(Or(Shr(t[6], 1024), t[7], 8), 256),
     Low(Shr(t[7], 32), 256)]
  }

  function UnpackT0(a: seq<Byte>): (t: seq<int>)
    requires |a| == 13
    ensures |t| == 8
  {
    [Low(Or(a[0], a[1], 256), 8192),
     Low(Or(Or(Shr(a[1], 32), a[2], 8), a[3], 2048), 8192),
     Low(Or(Shr(a[3], 4), a[4], 64), 8192),
     Low(Or(Or(Shr(a[4], 128), a[5], 2), a[6], 512), 8192),
     Low(Or(Or(Shr(a[6], 16), a[7], 16), a[8], 4096), 8192),
     Low(Or(Shr(a[8], 2), a[9], 128), 8192),
     Low(Or(Or(Shr(a[9], 64), a[10], 4), a[11], 1024), 8192),
     Low(Or(Shr(a[11], 8), a[12], 32), 8192)]
  }

  function PackZ18(t: seq<int>): (r: seq<Byte>)
    requires |t| == 4 && forall i :: 0 <= i < 4 ==> 0 <= t[i] < 0x4_0000
    ensures |r| == 9
  {
    [Low(t[0], 256),
     Low(Shr(t[0], 256), 256),
     Low(Or(Shr(t[0], 0x1_0000), t[1], 4), 256),
     Low(Shr(t[1], 64), 256),
     Low(Or(Shr(t[1], 0x4000), t[2], 16), 256),
     Low(Shr(t[2], 16), 256),
     Low(Or(Shr(t[2], 4096), t[3], 64), 256),
     Low(Shr(t[3], 4), 256),
     Low(Shr(t[3], 1024), 256)]
  }

  function UnpackZ18(a: seq<Byte>): (t: seq<int>)
    requires |a| == 9
    ensures |t| == 4
  {
    [Low(Or(Or(a[0], a[1], 256), a[2], 0x1_0000), 0x4_0000),
     Low(Or(Or(Shr(a[2], 4), a[3], 64), a[4], 0x4000), 0x4_0000),
     Low(Or(Or(Shr(a[4], 16), a[5], 16), a[6], 4096), 0x4_0000),
     Low(Or(Or(Shr(a[6], 64), a[7], 4), a[8], 1024), 0x4_0000)]
  }

  function PackZ20(t: seq<int>): (r: seq<Byte>)
    requires |t| == 2 && forall i :: 0 <= i < 2 ==> 0 <= t[i] < 0x10_0000
    ensures |r| == 5
  {
    [Low(t[0], 256),
     Low(Shr(t[0], 256), 256),
     Low(Or(Shr(t[0], 0x1_0000), t[1], 16), 256),
     Low(Shr(t[1], 16), 256),
     Low(Shr(t[1], 4096), 256)]
  }

  function UnpackZ20(a: seq<Byte>): (t: seq<int>)
    requires |a| == 5
    ensures |t| == 2
  {
    [Low(Or(Or(a[0], a[1], 256), a[2], 0x1_0000), 0x10_0000),
     Or(Or(Shr(a[2], 16), a[3], 16), a[4], 4096)]
  }

  function PackW6(t: seq<int>): (r: seq<Byte>)
    requires |t| == 4 && forall i :: 0 <= i < 4 ==> 0 <= t[i] < 64
    ensures |r| == 3
  {
    [Low(Or(t[0], t[1], 64), 256),
     Low(Or(Shr(t[1], 4), t[2], 16), 256),
     Low(Or(Shr(t[2], 16), t[3], 4), 256)]
  }

  /** The program never reads w1 back; this inverse shows that no two values of w1 share an encoding. */
  function UnpackW6(a: seq<Byte>): (t: seq<int>)
    requires |a| == 3
    ensures |t| == 4
  {
    [Low(a[0], 64),
     Low(Or(Shr(a[0], 64), a[1], 4), 64),
     Low(Or(Shr(a[1], 16), a[2], 16), 64),
     Shr(a[2], 4)]
  }

  lemma ProductMonotone(a: int, b: int, d: int)
    requires d >= 0
    ensures a <= b ==> a * d <= b * d
  {
  }

  lemma QuotientUnique(q: int, r: int, q2: int, r2: int, d: int)
    requires q * d + r == q2 * d + r2 && 0 <= r < d && 0 <= r2 < d
    ensures q == q2 && r == r2
  {
    ProductMonotone(q + 1, q2, d);
    ProductMonotone(q2 + 1, q, d);
    assert (q + 1) * d == q * d + d && (q2 + 1) * d == q2 * d + d;
  }

  lemma DivModIs(t: int, d: int, q: int, r: int)
    requires t == q * d + r && 0 <= r < d
    ensures t / d == q && t % d == r
  {
    DivModBasics(t, d);
    QuotientUnique(q, r, t / d, t % d, d);
  }

  lemma DivModBasics(t: int, d: int)
    requires d > 0
    ensures t == t / d * d + t % d && 0 <= t % d < d
  {
  }

  lemma LowIs(t: int, d: int, q: int, r: int)
    requires 0 <= t && t == q * d + r && 0 <= r < d
    ensures Low(t, d) == r
  {
    hide Low, Shr;
    var q', r' := Parts(t, d);
    QuotientUnique(q, r, q', r', d);
  }

  lemma ShrIs(t: int, d: int, q: int, r: int)
    requires 0 <= t && t == q * d + r && 0 <= r < d
    ensures Shr(t, d) == q
  {
    hide Low, Shr;
    var q', r' := Parts(t, d);
    QuotientUnique(q, r, q', r', d);
  }

  lemma TwoDigits(a: int, b: int, u: int, n: int)
    requires 0 <= a < u && 0 <= b < n
    ensures 0 <= b * u + a < u * n && 0 < u * n
  {
    ProductMonotone(b + 1, n, u);
    ProductMonotone(0, b, u);
    assert (b + 1) * u == b * u + u;
  }

  /** Shifting k * u + m up by w moves k out of the byte. */
  lemma Shifted(p: int, k: int, m: int, w: int, u: int)
    requires 0 <= p < w && w * u == 256 && 0 <= m < u
    ensures p + (k * u + m) * w == k * 256 + (p + m * w) && 0 <= p + m * w < 256
  {
    TwoDigits(p, m, w, u);
    assert (k * u) * w == k * (w * u);
    assert (k * u + m) * w == (k * u) * w + m * w;
  }

  /** A byte holding p in its low bits keeps p, and above it the low bits of y. */
  lemma ByteParts(p: int, y: int, w: int, u: int)
    requires 0 <= p < w && w * u == 256 && 0 <= y && 0 < u
    ensures Shr(Low(Or(p, y, w), 256), w) == Low(y, u) && Low(Low(Or(p, y, w), 256), w) == p
  {
    hide Shr, Low;
    var k, m := Parts(y, u);
    Shifted(p, k, m, w, u);
    OrBound(p, y, w);
    LowIs(Or(p, y, w), 256, k, p + m * w);
    ShrIs(p + m * w, w, m, p);
    LowIs(p + m * w, w, m, p);
  }

  lemma OrBound(p: int, y: int, w: int)
    requires 0 <= p < w && 0 <= y
    ensures 0 <= Or(p, y, w)
  {
    ProductMonotone(0, y, w);
  }

  lemma ShrBound(t: int, u: int, m: int)
    requires 0 <= t < u * m && 0 < u && 0 < m
    ensures 0 <= Shr(t, u) < m
  {
    hide Shr, Low;
    var q, r := Parts(t, u);
    if q >= m {
      ProductMonotone(m, q, u);
    }
  }

  /** A byte with h in its low bits and y above. */
  lemma NextByte(h: int, y: int, v: int, c: int) returns (m: int)
    requires 0 <= h < v && v * c == 256 && 0 <= y && 0 < c
    ensures 0 <= m && h + m * v >= 0 && Low(Or(h, y, v), 256) == h + m * v
  {
    hide Shr, Low;
    var k, m' := Parts(y, c);
    Shifted(h, k, m', v, c);
    OrBound(h, y, v);
    LowIs(Or(h, y, v), 256, k, h + m' * v);
    m := m';
  }

  /** Low bits l, then a byte whose lowest part is h: masked, they are h * u + l. */
  lemma Join(l: int, h: int, m: int, u: int, v: int)
    requires 0 <= l < u && 0 <= h < v && 0 <= m && 0 <= h + m * v
    ensures 0 < u * v && Low(Or(l, h + m * v, u), u * v) == h * u + l
  {
    hide Low;
    TwoDigits(l, h, u, v);
    OrBound(l, h + m * v, u);
    Spread(h, m, u, v);
    LowIs(Or(l, h + m * v, u), u * v, m, h * u + l);
  }

  lemma Spread(h: int, m: int, u: int, v: int)
    ensures (h + m * v) * u == h * u + m * (u * v)
  {
    assert (h + m * v) * u == h * u + (m * v) * u;
    assert (m * v) * u == m * (u * v);
  }

  /** A field in the low bits of two bytes. */
  lemma First2(t: int, y: int, v: int, c: int)
    requires 0 < v && v * c == 256 && 0 < c && 0 <= t && t < 256 * v && 0 <= y
    ensures 256 * v > 0 && 0 <= Shr(t, 256) < v
    ensures Low(Or(Low(t, 256), Low(Or(Shr(t, 256), y, v), 256), 256), 256 * v) == t
  {
    hide Shr, Low, Or;
    ShrBound(t, 256, v);
    var h, l := Parts(t, 256);
    var m := NextByte(h, y, v, c);
    Join(l, h, m, 256, v);
  }

  /** A field that starts at bit log w of one byte and ends in the next, below y. */
  lemma Middle2(p: int, t: int, y: int, w: int, u: int, v: int, c: int)
    requires 0 <= p < w && w * u == 256 && 0 < u && 0 < v && v * c == 256 && 0 < c
    requires 0 <= t && t < u * v && 0 <= y
    ensures u * v > 0 && 0 <= Shr(t, u) < v
    ensures Shr(Low(Or(p, t, w), 256), w) < u
    ensures Low(Or(Shr(Low(Or(p, t, w), 256), w), Low(Or(Shr(t, u), y, v), 256), u), u * v) == t
  {
    hide Shr, Low, Or;
    ShrBound(t, u, v);
    var h, l := Parts(t, u);
    ByteParts(p, t, w, u);
    var m := NextByte(h, y, v, c);
    Join(l, h, m, u, v);
  }

  /** A field that ends with the second byte. */
  lemma Last2(p: int, t: int, w: int, u: int)
    requires 0 <= p < w && w * u == 256 && 0 < u && 0 <= t && t < u * 256
    ensures u * 256 > 0 && Shr(Low(Or(p, t, w), 256), w) < u
    ensures Low(Or(Shr(Low(Or(p, t, w), 256), w), Low(Shr(t, u), 256), u), u * 256) == t
  {
    hide Shr, Low, Or;
    ShrBound(t, u, 256);
    var h, l := Parts(t, u);
    ByteParts(p, t, w, u);
    LowIs(h, 256, 0, h);
    Join(l, h, 0, u, 256);
  }

  /** The three parts of a field: l below u, a whole byte b, and the rest h. */
  lemma ThreeParts(t: int, u: int) returns (l: int, b: int, h: int)
    requires 0 <= t && 0 < u
    ensures 0 <= l < u && 0 <= b < 256 && 0 <= h && 0 <= b * u + l < u * 256
    ensures t == h * (u * 256) + (b * u + l)
    ensures Low(t, u) == l && Low(Shr(t, u), 256) == b && Shr(t, u * 256) == h
  {
    hide Shr, Low;
    var q, l' := Parts(t, u);
    var h', b' := Parts(q, 256);
    TwoDigits(l', b', u, 256);
    assert (h' * 256 + b') * u == h' * (u * 256) + b' * u by {
      assert (h' * 256 + b') * u == (h' * 256) * u + b' * u;
    }
    ShrIs(t, u * 256, h', b' * u + l');
    l, b, h := l', b', h';
  }

  lemma First3(t: int, y: int, v: int, c: int)
    requires 0 < v && v * c == 256 && 0 < c && 0 <= t && t < 0x1_0000 * v && 0 <= y
    ensures 0x1_0000 * v > 0 && 0 <= Shr(t, 0x1_0000) < v
    ensures Or(Low(t, 256), Low(Shr(t, 256), 256), 256) < 0x1_0000
    ensures Low(Or(Or(Low(t, 256), Low(Shr(t, 256), 256), 256), Low(Or(Shr(t, 0x1_0000), y, v), 256), 0x1_0000),
                0x1_0000 * v) == t
  {
    hide Shr, Low;
    ShrBound(t, 0x1_0000, v);
    var l, b, h := ThreeParts(t, 256);
    var m := NextByte(h, y, v, c);
    Join(b * 256 + l, h, m, 0x1_0000, v);
  }

  /** A field that starts in one byte, fills the next and ends in the third, below y. */
  lemma Middle3(p: int, t: int, y: int, w: int, u: int, v: int, c: int)
    requires 0 <= p < w && w * u == 256 && 0 < u && 0 < v && v * c == 256 && 0 < c
    requires 0 <= t && t < u * 256 * v && 0 <= y
    ensures u * 256 > 0 && u * 256 * v > 0 && 0 <= Shr(t, u * 256) < v
    ensures Shr(Low(Or(p, t, w), 256), w) < u
    ensures 0 <= Or(Shr(Low(Or(p, t, w), 256), w), Low(Shr(t, u), 256), u) < u * 256
    ensures Low(Or(Or(Shr(Low(Or(p, t, w), 256), w), Low(Shr(t, u), 256), u),
                   Low(Or(Shr(t, u * 256), y, v), 256), u * 256), u * 256 * v) == t
  {
    hide Shr, Low;
    ShrBound(t, u * 256, v);
    var l, b, h := ThreeParts(t, u);
    ByteParts(p, t, w, u);
    var m := NextByte(h, y, v, c);
    Join(b * u + l, h, m, u * 256, v);
  }

  lemma Last3(p: int, t: int, w: int, u: int)
    requires 0 <= p < w && w * u == 256 && 0 < u && 0 <= t && t < u * 256 * 256
    ensures u * 256 * 256 > 0 && Shr(Low(Or(p, t, w), 256), w) < u
    ensures 0 <= Or(Shr(Low(Or(p, t, w), 256), w), Low(Shr(t, u), 256), u) < u * 256
    ensures var z := Or(Or(Shr(Low(Or(p, t, w), 256), w), Low(Shr(t, u), 256), u),
                        Low(Shr(t, u * 256), 256), u * 256);
            z == t && Low(z, u * 256 * 256) == t
  {
    hide Shr, Low;
    ShrBound(t, u * 256, 256);
    var l, b, h := ThreeParts(t, u);
    ByteParts(p, t, w, u);
    LowIs(h, 256, 0, h);
    LowIs(t, u * 256 * 256, 0, t);
  }

  lemma T1RoundTrip(t: seq<int>)
    requires |t| == 4 && forall i :: 0 <= i < 4 ==> 0 <= t[i] < 1024
    ensures UnpackT1(PackT1(t)) == t
  {
    hide Or, Shr, Low;
    ShrBound(t[0], 256, 4);
    ShrBound(t[1], 64, 16);
    ShrBound(t[2], 16, 64);
    First2(t[0], t[1], 4, 64);
    Middle2(Shr(t[0], 256), t[1], t[2], 4, 64, 16, 16);
    Middle2(Shr(t[1], 64), t[2], t[3], 16, 16, 64, 4);
    Last2(Shr(t[2], 16), t[3], 64, 4);
  }

  lemma T0RoundTrip(t: seq<int>)
    requires |t| == 8 && forall i :: 0 <= i < 8 ==> 0 <= t[i] < 8192
    ensures UnpackT0(PackT0(t)) == t
  {
    hide Or, Shr, Low;
    ShrBound(t[0], 256, 32);
    ShrBound(t[1], 2048, 4);
    ShrBound(t[2], 64, 128);
    ShrBound(t[3], 512, 16);
    ShrBound(t[4], 4096, 2);
    ShrBound(t[5], 128, 64);
    ShrBound(t[6], 1024, 8);
    First2(t[0], t[1], 32, 8);
    Middle3(Shr(t[0], 256), t[1], t[2], 32, 8, 4, 64);
    Middle2(Shr(t[1], 2048), t[2], t[3], 4, 64, 128, 2);
    Middle3(Shr(t[2], 64), t[3], t[4], 128, 2, 16, 16);
    Middle3(Shr(t[3], 512), t[4], t[5], 16, 16, 2, 128);
    Middle2(Shr(t[4], 4096), t[5], t[6], 2, 128, 64, 4);
    Middle3(Shr(t[5], 128), t[6], t[7], 64, 4, 8, 32);
    Last2(Shr(t[6], 1024), t[7], 8, 32);
  }

  lemma Z18RoundTrip(t: seq<int>)
    requires |t| == 4 && forall i :: 0 <= i < 4 ==> 0 <= t[i] < 0x4_0000
    ensures UnpackZ18(PackZ18(t)) == t
  {
    hide Or, Shr, Low;
    ShrBound(t[0], 0x1_0000, 4);
    ShrBound(t[1], 0x4000, 16);
    ShrBound(t[2], 4096, 64);
    First3(t[0], t[1], 4, 64);
    Middle3(Shr(t[0], 0x1_0000), t[1], t[2], 4, 64, 16, 16);
    Middle3(Shr(t[1], 0x4000), t[2], t[3], 16, 16, 64, 4);
    Last3(Shr(t[2], 4096), t[3], 64, 4);
  }

  lemma Z20RoundTrip(t: seq<int>)
    requires |t| == 2 && forall i :: 0 <= i < 2 ==> 0 <= t[i] < 0x10_0000
    ensures UnpackZ20(PackZ20(t)) == t
  {
    hide Or, Shr, Low;
    ShrBound(t[0], 0x1_0000, 16);
    First3(t[0], t[1], 16, 16);
    Last3(Shr(t[0], 0x1_0000), t[1], 16, 16);
  }

  lemma W6RoundTrip(t: seq<int>)
    requires |t| == 4 && forall i :: 0 <= i < 4 ==> 0 <= t[i] < 64
    ensures UnpackW6(PackW6(t)) == t
  {
    hide Or, Shr, Low;
    ShrBound(t[1], 4, 16);
    ShrBound(t[2], 16, 4);
    Middle2(t[0], t[1], t[2], 64, 4, 16, 16);
    Middle2(Shr(t[1], 4), t[2], t[3], 16, 16, 4, 64);
    LowField(t[0], t[1], 64, 4);
    HighField(Shr(t[2], 16), t[3], 4, 64);
  }

  lemma LowField(p: int, y: int, w: int, u: int)
    requires 0 <= p < w && w * u == 256 && 0 <= y && 0 < u
    ensures Low(Low(Or(p, y, w), 256), w) == p
  {
    hide Low, Shr;
    ByteParts(p, y, w, u);
  }

  lemma HighField(p: int, y: int, w: int, u: int)
    requires 0 <= p < w && w * u == 256 && 0 <= y < u
    ensures Shr(Low(Or(p, y, w), 256), w) == y
  {
    hide Low, Shr;
    ByteParts(p, y, w, u);
    LowIs(y, u, 0, y);
  }

  lemma Eta4RoundTrip(t: seq<int>)
    requires |t| == 2 && forall i :: 0 <= i < 2 ==> 0 <= t[i] < 16
    ensures UnpackEta4(PackEta4(t)) == t
  {
    hide Or, Shr, Low;
    LowField(t[0], t[1], 16, 16);
    HighField(t[0], t[1], 16, 16);
  }

  lemma Eta2Byte0(t0: int, t1: int, t2: int)
    requires 0 <= t0 < 8 && 0 <= t1 < 8 && 0 <= t2 < 8
    ensures var b := Low(Or(Or(t0, t1, 8), t2, 64), 256);
            Low(b, 8) == t0 && Low(Shr(b, 8), 8) == t1 && Shr(b, 64) == Low(t2, 4)
  {
    hide Low, Shr;
    var h, l := Parts(t2, 4);
    var b := t0 + 8 * t1 + 64 * l;
    LowIs(Or(Or(t0, t1, 8), t2, 64), 256, h, b);
    LowIs(b, 8, t1 + 8 * l, t0);
    ShrIs(b, 8, t1 + 8 * l, t0);
    LowIs(t1 + 8 * l, 8, l, t1);
    ShrIs(b, 64, l, t0 + 8 * t1);
  }

  lemma Eta2Byte1(p: int, t3: int, t4: int, t5: int)
    requires 0 <= p < 2 && 0 <= t3 < 8 && 0 <= t4 < 8 && 0 <= t5 < 8
    ensures var b := Low(Or(Or(Or(p, t3, 2), t4, 16), t5, 128), 256);
            Low(b, 2) == p && Low(Shr(b, 2), 8) == t3 && Low(Shr(b, 16), 8) == t4 && Shr(b, 128) == Low(t5, 2)
  {
    hide Low, Shr;
    var h, l := Parts(t5, 2);
    var b := p + 2 * t3 + 16 * t4 + 128 * l;
    LowIs(Or(Or(Or(p, t3, 2), t4, 16), t5, 128), 256, h, b);
    LowIs(b, 2, t3 + 8 * t4 + 64 * l, p);
    ShrIs(b, 2, t3 + 8 * t4 + 64 * l, p);
    LowIs(t3 + 8 * t4 + 64 * l, 8, t4 + 8 * l, t3);
    ShrIs(b, 16, t4 + 8 * l, p + 2 * t3);
    LowIs(t4 + 8 * l, 8, l, t4);
    ShrIs(b, 128, l, p + 2 * t3 + 16 * t4);
  }

  lemma Eta2Byte2(p: int, t6: int, t7: int)
    requires 0 <= p < 4 && 0 <= t6 < 8 && 0 <= t7 < 8
    ensures var b := Low(Or(Or(p, t6, 4), t7, 32), 256);
            Low(b, 4) == p && Low(Shr(b, 4), 8) == t6 && Low(Shr(b, 32), 8) == t7
  {
    hide Low, Shr;
    var b := p + 4 * t6 + 32 * t7;
    LowIs(Or(Or(p, t6, 4), t7, 32), 256, 0, b);
    LowIs(b, 4, t6 + 8 * t7, p);
    ShrIs(b, 4, t6 + 8 * t7, p);
    LowIs(t6 + 8 * t7, 8, t7, t6);
    ShrIs(b, 32, t7, p + 4 * t6);
    LowIs(t7, 8, 0, t7);
  }

  lemma Across(t: int, b: int, w: int, v: int)
    requires (w, v) in {(4, 2), (2, 4)} && 0 <= t < 8 && 0 <= b && Low(b, v) == Shr(t, w)
    ensures 0 <= Shr(t, w) < v && 0 <= Or(Low(t, w), b, w) && Low(Or(Low(t, w), b, w), 8) == t
  {
    hide Low, Shr;
    var h, l := Parts(t, w);
    var k, h' := Parts(b, v);
    LowIs(l + b * w, 8, k, t);
  }

  lemma Eta2RoundTrip(t: seq<int>)
    requires |t| == 8 && forall i :: 0 <= i < 8 ==> 0 <= t[i] < 8
    ensures UnpackEta2(PackEta2(t)) == t
  {
    hide Or, Shr, Low;
    var a := PackEta2(t);
    ShrBound(t[2], 4, 2);
    ShrBound(t[5], 2, 4);
    Eta2Byte0(t[0], t[1], t[2]);
    Eta2Byte1(Shr(t[2], 4), t[3], t[4], t[5]);
    Eta2Byte2(Shr(t[5], 2), t[6], t[7]);
    Across(t[2], a[1], 4, 2);
    Across(t[5], a[2], 2, 4);
  }

  /** The parts of a field cut out of three bytes. */
  lemma Uncut(lo: int, b2: Byte, b3: Byte, u: int, v: int)
    requires 0 <= lo < u && 0 < v
    ensures u * 256 > 0 && u * 256 * v > 0 && 0 <= Or(lo, b2, u) < u * 256
    ensures 0 <= Or(Or(lo, b2, u), b3, u * 256)
    ensures var t := Low(Or(Or(lo, b2, u), b3, u * 256), u * 256 * v);
            Low(t, u) == lo && Low(Shr(t, u), 256) == b2 && Shr(t, u * 256) == Low(b3, v)
  {
    hide Shr, Low;
    var m, h := Parts(b3, v);
    TwoDigits(lo, b2, u, 256);
    var x := lo + b2 * u;
    TwoDigits(x, h, u * 256, v);
    OrBound(x, b3, u * 256);
    Spread(h, m, u * 256, v);
    var t := h * (u * 256) + x;
    LowIs(Or(x, b3, u * 256), u * 256 * v, m, t);
    ShrIs(t, u * 256, h, x);
    Spread(b2, h, u, 256);
    LowIs(t, u, h * 256 + b2, lo);
    ShrIs(t, u, h * 256 + b2, lo);
    LowIs(h * 256 + b2, 256, h, b2);
  }

  lemma Whole(lo: int, b2: Byte, b3: Byte, u: int)
    requires 0 <= lo < u
    ensures u * 256 * 256 > 0 && 0 <= Or(lo, b2, u) < u * 256 && 0 <= Or(Or(lo, b2, u), b3, u * 256)
    ensures Low(Or(Or(lo, b2, u), b3, u * 256), u * 256 * 256) == Or(Or(lo, b2, u), b3, u * 256)
  {
    hide Low;
    TwoDigits(lo, b2, u, 256);
    TwoDigits(lo + b2 * u, b3, u * 256, 256);
    LowIs(lo + b2 * u + b3 * (u * 256), u * 256 * 256, 0, lo + b2 * u + b3 * (u * 256));
  }

  /** A byte is rebuilt from its low bits and a field that starts above them. */
  lemma Rejoin(b: Byte, t: int, w: int, u: int)
    requires 0 < w && 0 < u && w * u == 256 && 0 <= t && Low(t, u) == Shr(b, w)
    ensures Low(Or(Low(b, w), t, w), 256) == b
  {
    hide Low, Shr;
    var q, r := Parts(b, w);
    var m := NextByte(r, t, w, u);
    ByteParts(r, t, w, u);
    ShrOfSum(r, m, w);
  }

  lemma ShrOfSum(r: int, m: int, w: int)
    requires 0 <= r < w && 0 <= m && 0 <= r + m * w
    ensures Shr(r + m * w, w) == m
  {
    hide Shr;
    ShrIs(r + m * w, w, m, r);
  }

  lemma ByteItself(b: Byte)
    ensures Low(b, 256) == b
  {
  }

  lemma Z18Canonical(a: seq<Byte>)
    requires |a| == 9
    ensures PackZ18(UnpackZ18(a)) == a
  {
    hide Or, Shr, Low;
    var t := UnpackZ18(a);
    ShrBound(a[2], 4, 64);
    ShrBound(a[4], 16, 16);
    ShrBound(a[6], 64, 4);
    Uncut(a[0], a[1], a[2], 256, 4);
    Uncut(Shr(a[2], 4), a[3], a[4], 64, 16);
    Uncut(Shr(a[4], 16), a[5], a[6], 16, 64);
    Uncut(Shr(a[6], 64), a[7], a[8], 4, 256);
    Rejoin(a[2], t[1], 4, 64);
    Rejoin(a[4], t[2], 16, 16);
    Rejoin(a[6], t[3], 64, 4);
    ByteItself(a[8]);
  }

  lemma Z20Canonical(a: seq<Byte>)
    requires |a| == 5
    ensures PackZ20(UnpackZ20(a)) == a
  {
    hide Or, Shr, Low;
    var t := UnpackZ20(a);
    ShrBound(a[2], 16, 16);
    Uncut(a[0], a[1], a[2], 256, 16);
    Uncut(Shr(a[2], 16), a[3], a[4], 16, 256);
    Whole(Shr(a[2], 16), a[3], a[4], 16);
    Rejoin(a[2], t[1], 16, 16);
    ByteItself(a[4]);
  }

  function StoredAll(f: Format, p: seq<int>): (r: seq<int>)
    ensures |r| == |p|
  {
    seq(|p|, i requires 0 <= i < |p| => Stored(f, p[i]))
  }

  lemma StoredTwice(f: Format, p: seq<int>)
    ensures StoredAll(f, StoredAll(f, p)) == p
  {
  }

  /** One unrolled step of a packing loop. */
  function PackGroup(f: Format, p: seq<int>): (r: seq<Byte>)
    requires |p| == Coeffs(f) && AllFit(f, p)
    ensures |r| == Bytes(f)
  {
    var t := StoredAll(f, p);
    match f
    case Eta2 => PackEta2(t)
    case Eta4 => PackEta4(t)
    case T1 => PackT1(t)
    case T0 => PackT0(t)
    case Z18 => PackZ18(t)
    case Z20 => PackZ20(t)
    case W6 => PackW6(t)
    case W4 => PackEta4(t)
  }

  function UnpackFields(f: Format, a: seq<Byte>): (t: seq<int>)
    requires |a| == Bytes(f)
    ensures |t| == Coeffs(f)
  {
    match f
    case Eta2 => UnpackEta2(a)
    case Eta4 => UnpackEta4(a)
    case T1 => UnpackT1(a)
    case T0 => UnpackT0(a)
    case Z18 => UnpackZ18(a)
    case Z20 => UnpackZ20(a)
    case W6 => UnpackW6(a)
    case W4 => UnpackEta4(a)
  }

  function UnpackGroup(f: Format, a: seq<Byte>): (p: seq<int>)
    requires |a| == Bytes(f)
    ensures |p| == Coeffs(f)
  {
    StoredAll(f, UnpackFields(f, a))
  }

  lemma OneLess(n: nat, c: nat)
    requires n > 0
    ensures n * c == (n - 1) * c + c && (n - 1) * c >= 0
  {
  }

  /** n groups, one after the other. */
  function PackGroups(f: Format, n: nat, p: seq<int>): (r: seq<Byte>)
    requires |p| == n * Coeffs(f) && AllFit(f, p)
    ensures |r| == n * Bytes(f)
    decreases n
  {
    if n == 0 then []
    else
      var c := Coeffs(f);
      OneLess(n, c);
      OneLess(n, Bytes(f));
      PackGroup(f, p[..c]) + PackGroups(f, n - 1, p[c..])
  }

  function UnpackGroups(f: Format, n: nat, a: seq<Byte>): (p: seq<int>)
    requires |a| == n * Bytes(f)
    ensures |p| == n * Coeffs(f)
    decreases n
  {
    if n == 0 then []
    else
      var b := Bytes(f);
      OneLess(n, b);
      OneLess(n, Coeffs(f));
      UnpackGroup(f, a[..b]) + UnpackGroups(f, n - 1, a[b..])
  }

  predicate IsZ(f: Format) { f == Z18 || f == Z20 }

  lemma GroupRoundTrip(f: Format, p: seq<int>)
    requires |p| == Coeffs(f) && AllFit(f, p)
    ensures UnpackGroup(f, PackGroup(f, p)) == p
  {
    hide PackEta2, PackEta4, PackT1, PackT0, PackZ18, PackZ20, PackW6,
         UnpackEta2, UnpackEta4, UnpackT1, UnpackT0, UnpackZ18, UnpackZ20, UnpackW6;
    var t := StoredAll(f, p);
    StoredTwice(f, p);
    match f {
      case Eta2 => Eta2RoundTrip(t);
      case Eta4 => Eta4RoundTrip(t);
      case T1 => T1RoundTrip(t);
      case T0 => T0RoundTrip(t);
      case Z18 => Z18RoundTrip(t);
      case Z20 => Z20RoundTrip(t);
      case W6 => W6RoundTrip(t);
      case W4 => Eta4RoundTrip(t);
    }
  }

  /** Every byte string is the packing of one group of in-range response coefficients. */
  lemma GroupCanonical(f: Format, a: seq<Byte>)
    requires IsZ(f) && |a| == Bytes(f)
    ensures AllFit(f, UnpackGroup(f, a)) && PackGroup(f, UnpackGroup(f, a)) == a
  {
    hide PackZ18, PackZ20, UnpackZ18, UnpackZ20;
    var p := UnpackGroup(f, a);
    var t := if f == Z18 then UnpackZ18(a) else UnpackZ20(a);
    UnpackedRange(f, a, t);
    StoredTwice(f, t);
    if f == Z18 {
      Z18Canonical(a);
    } else {
      Z20Canonical(a);
    }
  }

  lemma UnpackedRange(f: Format, a: seq<Byte>, t: seq<int>)
    requires IsZ(f) && |a| == Bytes(f) && t == if f == Z18 then UnpackZ18(a) else UnpackZ20(a)
    ensures forall i :: 0 <= i < |t| ==> 0 <= t[i] < 2 * Top(f)
  {
    if f == Z20 {
      ShrBound(a[2], 16, 16);
    }
  }

  lemma GroupsStep(f: Format, n: nat, first: seq<int>, rest: seq<int>)
    requires n > 0 && |first| == Coeffs(f) && |rest| == (n - 1) * Coeffs(f) && |first + rest| == n * Coeffs(f)
    requires AllFit(f, first) && AllFit(f, rest) && AllFit(f, first + rest)
    ensures PackGroups(f, n, first + rest) == PackGroup(f, first) + PackGroups(f, n - 1, rest)
  {
    hide PackGroup, AllFit;
    assert (first + rest)[..Coeffs(f)] == first && (first + rest)[Coeffs(f)..] == rest;
  }

  lemma UngroupStep(f: Format, n: nat, first: seq<Byte>, rest: seq<Byte>)
    requires n > 0 && |first| == Bytes(f) && |rest| == (n - 1) * Bytes(f) && |first + rest| == n * Bytes(f)
    ensures UnpackGroups(f, n, first + rest) == UnpackGroup(f, first) + UnpackGroups(f, n - 1, rest)
  {
    hide UnpackGroup;
    assert (first + rest)[..Bytes(f)] == first && (first + rest)[Bytes(f)..] == rest;
  }

  lemma {:induction false} GroupsRoundTrip(f: Format, n: nat, p: seq<int>)
    requires |p| == n * Coeffs(f) && AllFit(f, p)
    ensures UnpackGroups(f, n, PackGroups(f, n, p)) == p
  {
    hide PackGroup, UnpackGroup, PackGroups, UnpackGroups;
    if n == 0 {
      GroupsEnd(f, p);
    } else {
      OneLess(n, Coeffs(f));
      OneLess(n, Bytes(f));
      var first, rest := p[..Coeffs(f)], p[Coeffs(f)..];
      assert p == first + rest;
      GroupsStep(f, n, first, rest);
      UngroupStep(f, n, PackGroup(f, first), PackGroups(f, n - 1, rest));
      GroupRoundTrip(f, first);
      GroupsRoundTrip(f, n - 1, rest);
    }
  }

  lemma GroupsEnd(f: Format, p: seq<int>)
    requires |p| == 0 * Coeffs(f) && AllFit(f, p)
    ensures UnpackGroups(f, 0, PackGroups(f, 0, p)) == p
  {
  }

  lemma {:induction false} GroupsCanonical(f: Format, n: nat, a: seq<Byte>)
    requires IsZ(f) && |a| == n * Bytes(f)
    ensures AllFit(f, UnpackGroups(f, n, a)) && PackGroups(f, n, UnpackGroups(f, n, a)) == a
  {
    hide PackGroup, UnpackGroup;
    if n != 0 {
      var c, b := Coeffs(f), Bytes(f);
      OneLess(n, b);
      GroupCanonical(f, a[..b]);
      GroupsCanonical(f, n - 1, a[b..]);
      var p := UnpackGroups(f, n, a);
      assert p[..c] == UnpackGroup(f, a[..b]) && p[c..] == UnpackGroups(f, n - 1, a[b..]);
      assert a == a[..b] + a[b..];
    }
  }

  /** Iterations of the packing loop. */
  function Groups(f: Format): (n: nat)
    ensures n * Coeffs(f) == 256
  {
    match f
    case Eta2 => 32
    case Eta4 => 128
    case T1 => 64
    case T0 => 32
    case Z18 => 64
    case Z20 => 128
    case W6 => 64
    case W4 => 128
  }

  function PolyBytes(f: Format): nat { Groups(f) * Bytes(f) }

  function PackPoly(f: Format, p: seq<int>): (r: seq<Byte>)
    requires |p| == 256 && AllFit(f, p)
    ensures |r| == PolyBytes(f)
  {
    PackGroups(f, Groups(f), p)
  }

  function UnpackPoly(f: Format, a: seq<Byte>): (p: seq<int>)
    requires |a| == PolyBytes(f)
    ensures |p| == 256
  {
    UnpackGroups(f, Groups(f), a)
  }

  /** Packing loses nothing of a polynomial whose coefficients are in range. */
  lemma PolyRoundTrip(f: Format, p: seq<int>)
    requires |p| == 256 && AllFit(f, p)
    ensures UnpackPoly(f, PackPoly(f, p)) == p
  {
    GroupsRoundTrip(f, Groups(f), p);
  }

  /** Response polynomials fill their bytes: unpacking and packing again changes nothing. */
  lemma PolyCanonical(f: Format, a: seq<Byte>)
    requires IsZ(f) && |a| == PolyBytes(f)
    ensures AllFit(f, UnpackPoly(f, a)) && PackPoly(f, UnpackPoly(f, a)) == a
  {
    GroupsCanonical(f, Groups(f), a);
  }

  /** One more than the largest stored field. */
  function FieldLimit(f: Format): int
  {
    match f
    case Eta2 => 8
    case Eta4 => 16
    case T1 => 1024
    case T0 => 8192
    case Z18 => 0x4_0000
    case Z20 => 0x10_0000
    case W6 => 64
    case W4 => 16
  }

  lemma FieldsBound(f: Format, a: seq<Byte>)
    requires |a| == Bytes(f)
    ensures forall i :: 0 <= i < |UnpackFields(f, a)| ==> 0 <= UnpackFields(f, a)[i] < FieldLimit(f)
  {
    hide Or;
    if f == Z20 {
      UnpackedRange(f, a, UnpackFields(f, a));
    } else if f == Eta4 || f == W4 {
      ShrBound(a[0], 16, 16);
    } else if f == W6 {
      ShrBound(a[2], 4, 64);
    }
  }

  /** What unpacking arbitrary bytes can give. */
  ghost predicate InField(f: Format, p: seq<int>)
  {
    forall i :: 0 <= i < |p| ==> 0 <= Stored(f, p[i]) < FieldLimit(f)
  }

  lemma {:induction false} GroupsBound(f: Format, n: nat, a: seq<Byte>)
    requires |a| == n * Bytes(f)
    ensures InField(f, UnpackGroups(f, n, a))
    decreases n
  {
    hide UnpackFields, Stored, FieldLimit;
    if n != 0 {
      var b := Bytes(f);
      OneLess(n, b);
      FieldsBound(f, a[..b]);
      var t := UnpackFields(f, a[..b]);
      StoredTwice(f, t);
      assert forall i :: 0 <= i < |t| ==> Stored(f, StoredAll(f, t)[i]) == StoredAll(f, StoredAll(f, t))[i];
      GroupsBound(f, n - 1, a[b..]);
      InFieldConcat(f, StoredAll(f, t), UnpackGroups(f, n - 1, a[b..]));
    }
  }

  lemma InFieldConcat(f: Format, p: seq<int>, q: seq<int>)
    requires InField(f, p) && InField(f, q)
    ensures InField(f, p + q)
  {
  }

  /** Whatever the bytes, an unpacked polynomial stays in the range of its fields. */
  lemma UnpackBound(f: Format, a: seq<Byte>)
    requires |a| == PolyBytes(f)
    ensures InField(f, UnpackPoly(f, a))
  {
    GroupsBound(f, Groups(f), a);
  }
}
