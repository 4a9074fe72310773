/** What packed polynomials mean: their bytes and their fields are digits of the same number. */
module BitLaw {
  import opened Arith
  import opened BitPack

  /** The number with the digits t[i..] in base w, the least significant first. */
  function DigitsFrom(w: int, t: seq<int>, i: nat): int
    requires i <= |t|
    decreases |t| - i
  {
    if i == |t| then 0 else t[i] + w * DigitsFrom(w, t, i + 1)
  }

  function Digits(w: int, t: seq<int>): int { DigitsFrom(w, t, 0) }

  function Power(w: int, n: nat): int { if n == 0 then 1 else w * Power(w, n - 1) }

  /** The bit field of a coefficient: offset from the upper end of its range if it can be negative. */
  function Field(f: Format, a: int): int
  {
    match f
    case Eta2 => 2 - a
    case Eta4 => 4 - a
    case T1 => a
    case T0 => 4096 - a
    case Z18 => 131072 - a
    case Z20 => 524288 - a
    case W6 => a
    case W4 => a
  }

  function Fields(f: Format, p: seq<int>): (t: seq<int>)
    ensures |t| == |p|
  {
    seq(|p|, i requires 0 <= i < |p| => Field(f, p[i]))
  }

  /** 2 to the number of bits in a field. */
  function FieldBase(f: Format): int
  {
    match f
    case Eta2 => 8
    case Eta4 => 16
    case T1 => 1024
    case T0 => 8192
    case Z18 => 262144
    case Z20 => 1048576
    case W6 => 64
    case W4 => 16
  }

  // ---- One group of each format ----

  lemma Unroll(w: int, t: seq<int>)
    ensures forall i {:trigger DigitsFrom(w, t, i)} :: 0 <= i < |t| ==>
              DigitsFrom(w, t, i) == t[i] + w * DigitsFrom(w, t, i + 1)
    ensures DigitsFrom(w, t, |t|) == 0
  {
  }

  /** A byte that completes the field begun by c and begins the next one. */
  lemma Cut(c: int, a: Byte, u: int, v: int, m: int)
    requires 0 <= c < u && 0 < v && u * v == m
    ensures m > 0 && 0 <= Or(c, a, u) && Low(Or(c, a, u), m) + m * Shr(a, v) == c + u * a
    ensures 0 <= v * Shr(a, v) <= a
  {
    hide Low, Shr;
    var q, r := Parts(a, v);
    TwoDigits(c, r, u, v);
    ProductMonotone(0, a, u);
    ProductMonotone(0, q, v);
    assert (q * v + r) * u == q * (u * v) + r * u by {
      assert (q * v + r) * u == (q * v) * u + r * u;
      assert (q * v) * u == q * (u * v);
    }
    LowIs(c + a * u, m, q, c + r * u);
  }

  /** Three bytes make one field and the beginning of the next. */
  lemma Cut3(c: int, a: Byte, b: Byte, u: int, v: int, m: int)
    requires 0 <= c < u && 0 < v && u * 256 * v == m
    ensures m > 0 && 0 <= Or(c, a, u) < u * 256
    ensures 0 <= Or(Or(c, a, u), b, u * 256)
    ensures Low(Or(Or(c, a, u), b, u * 256), m) + m * Shr(b, v) == c + u * a + u * 256 * b
    ensures 0 <= v * Shr(b, v) <= b
  {
    hide Low, Shr;
    TwoDigits(c, a, u, 256);
    Cut(c + a * u, b, u * 256, v, m);
  }

  /** The same byte cut twice, at v and at v * d. */
  lemma CutAgain(a: Byte, v: int, d: int)
    requires 0 < v && 0 < d
    ensures v * d > 0 && Shr(a, v) == Low(Shr(a, v), d) + d * Shr(a, v * d)
    ensures a == Low(a, v) + v * Shr(a, v)
  {
    hide Low, Shr;
    var h, l := Parts(a, v);
    var k, t := Parts(h, d);
    TwoDigits(l, t, v, d);
    assert (k * d + t) * v == k * (v * d) + t * v by {
      assert (k * d + t) * v == (k * d) * v + t * v;
      assert (k * d) * v == k * (v * d);
    }
    ShrIs(a, v * d, k, t * v + l);
  }

  lemma Eta4Digits(a: seq<Byte>)
    requires |a| == 1
    ensures Digits(256, a) == Digits(16, UnpackEta4(a))
  {
    hide Low, Shr, DigitsFrom;
    var h, l := Parts(a[0], 16);
    Unroll(256, a);
    Unroll(16, UnpackEta4(a));
  }

  lemma Eta2Digits(a: seq<Byte>)
    requires |a| == 3
    ensures Digits(256, a) == Digits(8, UnpackEta2(a))
  {
    hide Low, Shr, Or, DigitsFrom;
    CutAgain(a[0], 8, 8);
    CutAgain(a[1], 2, 8);
    CutAgain(a[1], 16, 8);
    CutAgain(a[2], 4, 8);
    Cut(Shr(a[0], 64), a[1], 4, 2, 8);
    Cut(Shr(a[1], 128), a[2], 2, 4, 8);
    LowIs(Shr(a[2], 32), 8, 0, Shr(a[2], 32));
    Unroll(256, a);
    Unroll(8, UnpackEta2(a));
  }

  lemma T1Digits(a: seq<Byte>)
    requires |a| == 5
    ensures Digits(256, a) == Digits(1024, UnpackT1(a))
  {
    hide Low, Shr, Or, DigitsFrom;
    Cut(a[0], a[1], 256, 4, 1024);
    Cut(Shr(a[1], 4), a[2], 64, 16, 1024);
    Cut(Shr(a[2], 16), a[3], 16, 64, 1024);
    Cut(Shr(a[3], 64), a[4], 4, 256, 1024);
    Unroll(256, a);
    Unroll(1024, UnpackT1(a));
  }

  lemma W6Digits(a: seq<Byte>)
    requires |a| == 3
    ensures Digits(256, a) == Digits(64, UnpackW6(a))
  {
    hide Low, Shr, Or, DigitsFrom;
    CutAgain(a[0], 64, 1);
    CutAgain(a[2], 4, 1);
    Cut(Shr(a[0], 64), a[1], 4, 16, 64);
    Cut(Shr(a[1], 16), a[2], 16, 4, 64);
    Unroll(256, a);
    Unroll(64, UnpackW6(a));
  }

  lemma Z20Digits(a: seq<Byte>)
    requires |a| == 5
    ensures Digits(256, a) == Digits(0x10_0000, UnpackZ20(a))
  {
    hide Low, Shr, DigitsFrom;
    Cut3(a[0], a[1], a[2], 256, 16, 0x10_0000);
    Unroll(256, a);
    Unroll(0x10_0000, UnpackZ20(a));
  }

  lemma Z18Digits(a: seq<Byte>)
    requires |a| == 9
    ensures Digits(256, a) == Digits(0x4_0000, UnpackZ18(a))
  {
    hide Low, Shr, Or, DigitsFrom;
    Cut3(a[0], a[1], a[2], 256, 4, 0x4_0000);
    Cut3(Shr(a[2], 4), a[3], a[4], 64, 16, 0x4_0000);
    Cut3(Shr(a[4], 16), a[5], a[6], 16, 64, 0x4_0000);
    Cut3(Shr(a[6], 64), a[7], a[8], 4, 256, 0x4_0000);
    Unroll(256, a);
    Unroll(0x4_0000, UnpackZ18(a));
  }

  lemma T0Digits(a: seq<Byte>)
    requires |a| == 13
    ensures Digits(256, a) == Digits(8192, UnpackT0(a))
  {
    hide Low, Shr, Or, DigitsFrom;
    Cut(a[0], a[1], 256, 32, 8192);
    Cut3(Shr(a[1], 32), a[2], a[3], 8, 4, 8192);
    Cut(Shr(a[3], 4), a[4], 64, 128, 8192);
    Cut3(Shr(a[4], 128), a[5], a[6], 2, 16, 8192);
    Cut3(Shr(a[6], 16), a[7], a[8], 16, 2, 8192);
    Cut(Shr(a[8], 2), a[9], 128, 64, 8192);
    Cut3(Shr(a[9], 64), a[10], a[11], 4, 8, 8192);
    Cut(Shr(a[11], 8), a[12], 32, 256, 8192);
    Unroll(256, a);
    Unroll(8192, UnpackT0(a));
  }

  lemma GroupDigits(f: Format, a: seq<Byte>)
    requires |a| == Bytes(f)
    ensures Digits(256, a) == Digits(FieldBase(f), UnpackFields(f, a))
  {
    hide Digits, UnpackEta2, UnpackEta4, UnpackT1, UnpackT0, UnpackZ18, UnpackZ20, UnpackW6;
    match f {
      case Eta2 => Eta2Digits(a);
      case Eta4 => Eta4Digits(a);
      case T1 => T1Digits(a);
      case T0 => T0Digits(a);
      case Z18 => Z18Digits(a);
      case Z20 => Z20Digits(a);
      case W6 => W6Digits(a);
      case W4 => Eta4Digits(a);
    }
  }

  // ---- Whole polynomials ----

  lemma {:induction false} DigitsTail(w: int, s: seq<int>, t: seq<int>, j: nat)
    requires j <= |t|
    ensures DigitsFrom(w, s + t, |s| + j) == DigitsFrom(w, t, j)
    decreases |t| - j
  {
    if j < |t| {
      DigitsTail(w, s, t, j + 1);
    }
  }

  lemma {:induction false} DigitsConcat(w: int, s: seq<int>, t: seq<int>, i: nat)
    requires i <= |s|
    ensures DigitsFrom(w, s + t, i) == DigitsFrom(w, s, i) + Power(w, |s| - i) * Digits(w, t)
    decreases |s| - i
  {
    if i == |s| {
      DigitsTail(w, s, t, 0);
    } else {
      DigitsConcat(w, s, t, i + 1);
      Distribute(w, DigitsFrom(w, s, i + 1), Power(w, |s| - i - 1), Digits(w, t));
    }
  }

  lemma Distribute(w: int, a: int, b: int, c: int)
    ensures w * (a + b * c) == w * a + (w * b) * c
  {
  }

  /** The bits of a group, counted in bytes and in fields. */
  lemma GroupBits(f: Format)
    ensures Power(256, Bytes(f)) == Power(FieldBase(f), Coeffs(f))
  {
    PowerSmall(256);
    PowerSmall(FieldBase(f));
    assert Power(256, 13) == 256 * (256 * (256 * (256 * Power(256, 9))));
  }

  lemma PowerSmall(w: int)
    ensures Power(w, 1) == w && Power(w, 2) == w * w
    ensures Power(w, 3) == w * Power(w, 2) && Power(w, 4) == w * Power(w, 3)
    ensures Power(w, 5) == w * Power(w, 4) && Power(w, 6) == w * Power(w, 5)
    ensures Power(w, 7) == w * Power(w, 6) && Power(w, 8) == w * Power(w, 7) && Power(w, 9) == w * Power(w, 8)
  {
  }

  lemma FieldsAre(f: Format, t: seq<int>)
    ensures Fields(f, StoredAll(f, t)) == t
  {
  }

  lemma FieldsConcat(f: Format, p: seq<int>, q: seq<int>)
    ensures Fields(f, p + q) == Fields(f, p) + Fields(f, q)
  {
    hide Field;
  }

  lemma {:induction false} GroupsDigits(f: Format, n: nat, a: seq<Byte>)
    requires |a| == n * Bytes(f)
    ensures Digits(256, a) == Digits(FieldBase(f), Fields(f, UnpackGroups(f, n, a)))
    decreases n
  {
    hide UnpackFields, Field, FieldBase, Power, UnpackGroups, StoredAll, Stored, Coeffs, Bytes, Fields;
    if n == 0 {
      NoGroups(f, a);
    } else {
      var w, b := FieldBase(f), Bytes(f);
      OneLess(n, b);
      var first, rest := a[..b], a[b..];
      assert a == first + rest;
      UngroupStep(f, n, first, rest);
      var t, p := UnpackFields(f, first), UnpackGroups(f, n - 1, rest);
      FieldsConcat(f, UnpackGroup(f, first), p);
      FieldsAre(f, t);
      DigitsConcat(256, first, rest, 0);
      DigitsConcat(w, t, Fields(f, p), 0);
      GroupDigits(f, first);
      GroupBits(f);
      GroupsDigits(f, n - 1, rest);
    }
  }

  lemma NoGroups(f: Format, a: seq<Byte>)
    requires |a| == 0 * Bytes(f)
    ensures Digits(256, a) == Digits(FieldBase(f), Fields(f, UnpackGroups(f, 0, a)))
  {
  }

  /** A number has one way of writing it with a given number of digits. */
  lemma {:induction false} DigitsUnique(w: int, s: seq<int>, t: seq<int>, i: nat)
    requires i <= |s| == |t| && DigitsFrom(w, s, i) == DigitsFrom(w, t, i)
    requires forall j :: 0 <= j < |s| ==> 0 <= s[j] < w && 0 <= t[j] < w
    ensures s[i..] == t[i..]
    decreases |s| - i
  {
    if i < |s| {
      QuotientUnique(DigitsFrom(w, s, i + 1), s[i], DigitsFrom(w, t, i + 1), t[i], w);
      DigitsUnique(w, s, t, i + 1);
      assert s[i..] == [s[i]] + s[i + 1..] && t[i..] == [t[i]] + t[i + 1..];
    }
  }

  /** The bytes a hold the polynomial p: read as one number, least significant first, bytes and fields agree. */
  ghost predicate Holds(f: Format, a: seq<Byte>, p: seq<int>)
  {
    |p| == 256 &&
    (forall i :: 0 <= i < 256 ==> 0 <= Field(f, p[i]) < FieldBase(f)) &&
    Digits(256, a) == Digits(FieldBase(f), Fields(f, p))
  }

  lemma FieldsDetermine(f: Format, p: seq<int>, q: seq<int>)
    requires Fields(f, p) == Fields(f, q)
    ensures p == q
  {
    assert |Fields(f, p)| == |p| && |Fields(f, q)| == |q|;
    forall i | 0 <= i < |p|
      ensures p[i] == q[i]
    {
      assert Fields(f, p)[i] == Field(f, p[i]) && Fields(f, q)[i] == Field(f, q[i]);
    }
  }

  lemma UnpackedFields(f: Format, a: seq<Byte>)
    requires |a| == PolyBytes(f)
    ensures forall i :: 0 <= i < 256 ==> 0 <= Field(f, UnpackPoly(f, a)[i]) < FieldBase(f)
  {
    hide UnpackPoly;
    UnpackBound(f, a);
    var p := UnpackPoly(f, a);
    forall i | 0 <= i < 256
      ensures 0 <= Field(f, p[i]) < FieldBase(f)
    {
      assert 0 <= Stored(f, p[i]) < FieldLimit(f);
    }
  }

  /** Unpacking gives exactly the polynomial that the bytes hold. */
  lemma UnpackIs(f: Format, a: seq<Byte>, p: seq<int>)
    requires |a| == PolyBytes(f)
    ensures UnpackPoly(f, a) == p <==> Holds(f, a, p)
  {
    hide Digits, UnpackGroups, Field, FieldBase, Fields;
    var q := UnpackPoly(f, a);
    GroupsDigits(f, Groups(f), a);
    UnpackedFields(f, a);
    if Holds(f, a, p) {
      SameFields(f, p, q);
    }
  }

  lemma SameFields(f: Format, p: seq<int>, q: seq<int>)
    requires |p| == |q|
    requires Digits(FieldBase(f), Fields(f, p)) == Digits(FieldBase(f), Fields(f, q))
    requires forall i :: 0 <= i < |p| ==> 0 <= Field(f, p[i]) < FieldBase(f) && 0 <= Field(f, q[i]) < FieldBase(f)
    ensures p == q
  {
    hide Field, FieldBase;
    DigitsUnique(FieldBase(f), Fields(f, p), Fields(f, q), 0);
    assert Fields(f, p)[0..] == Fields(f, p) && Fields(f, q)[0..] == Fields(f, q);
    FieldsDetermine(f, p, q);
  }

  /** Packing writes bytes that hold the polynomial. */
  lemma PackIs(f: Format, p: seq<int>)
    requires |p| == 256 && AllFit(f, p)
    ensures Holds(f, PackPoly(f, p), p)
  {
    hide Holds, PackPoly, UnpackPoly, AllFit, PolyBytes;
    PolyRoundTrip(f, p);
    UnpackIs(f, PackPoly(f, p), p);
  }
}
