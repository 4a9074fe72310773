/** The state of fips202.c as lanes and as bytes: xoring and reading either way is the same. */
module LaneOps {
  import opened Arith

  /** A 64-bit word. */
  datatype Lane = Lane(bits: bv64)

  const ZERO := Lane(0)

  /** 25 lanes. */
  type Lanes = s: seq<Lane> | |s| == 25 witness seq(25, i => Lane(0))

  /** A byte as the lowest bits of a lane. */
  function Lift(b: Byte): Lane { Lane((b as bv8) as bv64) }

  function XorBits(x: bv64, y: bv64): bv64 { x ^ y }

  function OrBits(x: bv64, y: bv64): bv64 { x | y }

  function Xor(x: Lane, y: Lane): Lane { Lane(XorBits(x.bits, y.bits)) }

  function Or64(x: Lane, y: Lane): Lane { Lane(OrBits(x.bits, y.bits)) }

  /** x << 8 * k */
  function Shl8(x: Lane, k: nat): Lane
    requires k < 8
  {
    match k
    case 0 => x
    case 1 => Lane(x.bits << 8)
    case 2 => Lane(x.bits << 16)
    case 3 => Lane(x.bits << 24)
    case 4 => Lane(x.bits << 32)
    case 5 => Lane(x.bits << 40)
    case 6 => Lane(x.bits << 48)
    case _ => Lane(x.bits << 56)
  }

  /** The byte x >> 8 * k. */
  function Shr8(x: Lane, k: nat): Byte
    requires k < 8
  {
    match k
    case 0 => LowByte(x.bits)
    case 1 => LowByte(x.bits >> 8)
    case 2 => LowByte(x.bits >> 16)
    case 3 => LowByte(x.bits >> 24)
    case 4 => LowByte(x.bits >> 32)
    case 5 => LowByte(x.bits >> 40)
    case 6 => LowByte(x.bits >> 48)
    case _ => LowByte(x.bits >> 56)
  }

  /** The conversion to uint8_t. */
  function LowByte(x: bv64): Byte { ((x & 0xFF) as bv8) as int }

  /** Xor a byte into byte position pos of the state, little-endian. */
  function XorByte(s: Lanes, pos: nat, b: Byte): Lanes
    requires pos < 200
  {
    s[pos / 8 := Xor(s[pos / 8], Shl8(Lift(b), pos % 8))]
  }

  /** The byte at position pos of the state. */
  function ByteAt(s: Lanes, pos: nat): Byte
    requires pos < 200
  {
    Shr8(s[pos / 8], pos % 8)
  }

  /** load64 */
  function Load64(x: seq<Byte>): Lane
    requires |x| == 8
  {
    Or64(Or64(Or64(Or64(Or64(Or64(Or64(Lift(x[0]), Shl8(Lift(x[1]), 1)), Shl8(Lift(x[2]), 2)), Shl8(Lift(x[3]), 3)),
                        Shl8(Lift(x[4]), 4)), Shl8(Lift(x[5]), 5)), Shl8(Lift(x[6]), 6)), Shl8(Lift(x[7]), 7))
  }

  /** n lanes from lane i on xored with the block t, eight bytes to a lane. */
  function XorLanes(s: Lanes, i: nat, n: nat, t: seq<Byte>): Lanes
    requires |t| == 8 * n && i + n <= 25
    decreases n
  {
    if n == 0 then s else XorLanes(s[i := Xor(s[i], Load64(t[..8]))], i + 1, n - 1, t[8..])
  }

  /** All of m xored in from byte position pos on, without permuting. */
  function XorAll(s: Lanes, pos: nat, m: seq<Byte>): Lanes
    requires pos + |m| <= 200
    decreases |m|
  {
    if m == [] then s else XorAll(XorByte(s, pos, m[0]), pos + 1, m[1..])
  }

  lemma {:induction false} XorAllConcat(s: Lanes, pos: nat, a: seq<Byte>, b: seq<Byte>)
    requires pos + |a| + |b| <= 200
    ensures XorAll(s, pos, a + b) == XorAll(XorAll(s, pos, a), pos + |a|, b)
    decreases |a|
  {
    hide XorByte;
    if a == [] {
      assert a + b == b;
    } else {
      assert (a + b)[1..] == a[1..] + b;
      XorAllConcat(XorByte(s, pos, a[0]), pos + 1, a[1..], b);
    }
  }

  /** The lowest k bytes of a word, all ones. */
  function Mask(k: nat): bv64
    requires 0 < k <= 8
  {
    match k
    case 1 => 0xFF
    case 2 => 0xFFFF
    case 3 => 0xFF_FFFF
    case 4 => 0xFFFF_FFFF
    case 5 => 0xFF_FFFF_FFFF
    case 6 => 0xFFFF_FFFF_FFFF
    case 7 => 0xFF_FFFF_FFFF_FFFF
    case _ => 0xFFFF_FFFF_FFFF_FFFF
  }

  /** Only the lowest k bytes of y are in use. */
  ghost predicate Below(y: Lane, k: nat)
    requires 0 < k <= 8
  {
    y.bits & Mask(k) == y.bits
  }

  /** The words share no bit. */
  ghost predicate ApartBits(y: bv64, s: bv64) { y & s == 0 }

  ghost predicate Apart(y: Lane, s: Lane) { ApartBits(y.bits, s.bits) }

  lemma XorDisjointBits(x: bv64, y: bv64, s: bv64)
    requires ApartBits(y, s)
    ensures XorBits(x, OrBits(y, s)) == XorBits(XorBits(x, y), s)
  {
  }

  lemma XorDisjoint(x: Lane, y: Lane, s: Lane)
    requires Apart(y, s)
    ensures Xor(x, Or64(y, s)) == Xor(Xor(x, y), s)
  {
    hide ApartBits, XorBits, OrBits;
    XorDisjointBits(x.bits, y.bits, s.bits);
  }

  lemma ShiftApart1(y: Lane, a: Lane)
    requires Below(y, 1) && Below(a, 1)
    ensures Apart(y, Shl8(a, 1)) && Below(Or64(y, Shl8(a, 1)), 2)
  {
  }

  lemma ShiftApart2(y: Lane, a: Lane)
    requires Below(y, 2) && Below(a, 1)
    ensures Apart(y, Shl8(a, 2)) && Below(Or64(y, Shl8(a, 2)), 3)
  {
  }

  lemma ShiftApart3(y: Lane, a: Lane)
    requires Below(y, 3) && Below(a, 1)
    ensures Apart(y, Shl8(a, 3)) && Below(Or64(y, Shl8(a, 3)), 4)
  {
  }

  lemma ShiftApart4(y: Lane, a: Lane)
    requires Below(y, 4) && Below(a, 1)
    ensures Apart(y, Shl8(a, 4)) && Below(Or64(y, Shl8(a, 4)), 5)
  {
  }

  lemma ShiftApart5(y: Lane, a: Lane)
    requires Below(y, 5) && Below(a, 1)
    ensures Apart(y, Shl8(a, 5)) && Below(Or64(y, Shl8(a, 5)), 6)
  {
  }

  lemma ShiftApart6(y: Lane, a: Lane)
    requires Below(y, 6) && Below(a, 1)
    ensures Apart(y, Shl8(a, 6)) && Below(Or64(y, Shl8(a, 6)), 7)
  {
  }

  lemma ShiftApart7(y: Lane, a: Lane)
    requires Below(y, 7) && Below(a, 1)
    ensures Apart(y, Shl8(a, 7)) && Below(Or64(y, Shl8(a, 7)), 8)
  {
  }

  lemma ShiftApart(y: Lane, a: Lane, k: nat)
    requires 0 < k < 8 && Below(y, k) && Below(a, 1)
    ensures Apart(y, Shl8(a, k)) && Below(Or64(y, Shl8(a, k)), k + 1)
  {
    hide *;
    match k
    case 1 => ShiftApart1(y, a);
    case 2 => ShiftApart2(y, a);
    case 3 => ShiftApart3(y, a);
    case 4 => ShiftApart4(y, a);
    case 5 => ShiftApart5(y, a);
    case 6 => ShiftApart6(y, a);
    case _ => ShiftApart7(y, a);
  }

  /** Xoring in two words that share no bit, one after the other, is xoring in their bitwise or. */
  lemma XorApart(x: Lane, y: Lane, a: Lane, k: nat)
    requires 0 < k < 8 && Below(y, k) && Below(a, 1)
    ensures Xor(x, Or64(y, Shl8(a, k))) == Xor(Xor(x, y), Shl8(a, k))
    ensures Below(Or64(y, Shl8(a, k)), k + 1)
  {
    hide *;
    ShiftApart(y, a, k);
    XorDisjoint(x, y, Shl8(a, k));
  }

  lemma LiftSmall(b: Byte)
    ensures Below(Lift(b), 1)
  {
  }

  lemma XorByteLane(s: Lanes, i: nat, k: nat, b: Byte)
    requires i < 25 && k < 8
    ensures XorByte(s, 8 * i + k, b) == s[i := Xor(s[i], Shl8(Lift(b), k))]
  {
    hide Shl8, Lift;
    assert (8 * i + k) / 8 == i && (8 * i + k) % 8 == k;
  }

  lemma XorAllStep(s: Lanes, pos: nat, m: seq<Byte>)
    requires 0 < |m| && pos + |m| <= 200
    ensures XorAll(s, pos, m) == XorAll(XorByte(s, pos, m[0]), pos + 1, m[1..])
  {
  }

  /** k bytes of a lane xored in, one after the other. */
  function LaneAfter(x: Lane, m: seq<Byte>, k: nat): Lane
    requires k <= |m| <= 8
  {
    if k == 0 then x else Xor(LaneAfter(x, m, k - 1), Shl8(Lift(m[k - 1]), k - 1))
  }

  lemma {:induction false} XorAllLane(s: Lanes, i: nat, m: seq<Byte>, k: nat)
    requires i < 25 && k <= |m| <= 8
    ensures XorAll(s, 8 * i, m) == XorAll(s[i := LaneAfter(s[i], m, k)], 8 * i + k, m[k..])
  {
    hide *;
    if k == 0 {
      LaneStart(s[i], m);
      assert s[i := s[i]] == s && m[0..] == m;
    } else {
      XorAllLane(s, i, m, k - 1);
      var t := s[i := LaneAfter(s[i], m, k - 1)];
      var u := m[k - 1..];
      XorAllStep(t, 8 * i + k - 1, u);
      XorByteLane(t, i, k - 1, m[k - 1]);
      assert u[1..] == m[k..] && u[0] == m[k - 1];
      LaneNext(s[i], m, k);
      assert s[i := LaneAfter(s[i], m, k)] == t[i := Xor(t[i], Shl8(Lift(m[k - 1]), k - 1))];
    }
  }

  lemma LaneStart(x: Lane, m: seq<Byte>)
    requires |m| <= 8
    ensures LaneAfter(x, m, 0) == x
  {
  }

  lemma LaneNext(x: Lane, m: seq<Byte>, k: nat)
    requires 0 < k <= |m| <= 8
    ensures LaneAfter(x, m, k) == Xor(LaneAfter(x, m, k - 1), Shl8(Lift(m[k - 1]), k - 1))
  {
  }

  /** Eight shifted bytes xored in, one after the other. */
  function XorEight(x: Lane, a: seq<Lane>): Lane
    requires |a| == 8
  {
    Xor(Xor(Xor(Xor(Xor(Xor(Xor(Xor(x, a[0]), Shl8(a[1], 1)), Shl8(a[2], 2)), Shl8(a[3], 3)),
                    Shl8(a[4], 4)), Shl8(a[5], 5)), Shl8(a[6], 6)), Shl8(a[7], 7))
  }

  function OrEight(a: seq<Lane>): Lane
    requires |a| == 8
  {
    Or64(Or64(Or64(Or64(Or64(Or64(Or64(a[0], Shl8(a[1], 1)), Shl8(a[2], 2)), Shl8(a[3], 3)),
                        Shl8(a[4], 4)), Shl8(a[5], 5)), Shl8(a[6], 6)), Shl8(a[7], 7))
  }

  lemma EightApart(x: Lane, a: seq<Lane>)
    requires |a| == 8 && forall k :: 0 <= k < 8 ==> Below(a[k], 1)
    ensures Xor(x, OrEight(a)) == XorEight(x, a)
  {
    hide Xor, Or64, Shl8, Below;
    var b1 := Or64(a[0], Shl8(a[1], 1));
    var b2 := Or64(b1, Shl8(a[2], 2));
    var b3 := Or64(b2, Shl8(a[3], 3));
    var b4 := Or64(b3, Shl8(a[4], 4));
    var b5 := Or64(b4, Shl8(a[5], 5));
    var b6 := Or64(b5, Shl8(a[6], 6));
    XorApart(x, a[0], a[1], 1);
    XorApart(x, b1, a[2], 2);
    XorApart(x, b2, a[3], 3);
    XorApart(x, b3, a[4], 4);
    XorApart(x, b4, a[5], 5);
    XorApart(x, b5, a[6], 6);
    XorApart(x, b6, a[7], 7);
  }

  function LiftAll(m: seq<Byte>): seq<Lane>
    requires |m| == 8
  {
    [Lift(m[0]), Lift(m[1]), Lift(m[2]), Lift(m[3]), Lift(m[4]), Lift(m[5]), Lift(m[6]), Lift(m[7])]
  }

  lemma LiftAllSmall(m: seq<Byte>)
    requires |m| == 8
    ensures |LiftAll(m)| == 8 && forall k :: 0 <= k < 8 ==> Below(LiftAll(m)[k], 1)
    ensures Load64(m) == OrEight(LiftAll(m))
  {
    hide Lift, Shl8, Or64, Below;
    forall k | 0 <= k < 8
      ensures Below(LiftAll(m)[k], 1)
    {
      LiftSmall(m[k]);
      assert LiftAll(m)[k] == Lift(m[k]);
    }
  }

  /** Xoring a loaded lane is xoring its eight bytes. */
  lemma LaneIsBytes(x: Lane, m: seq<Byte>)
    requires |m| == 8
    ensures LaneAfter(x, m, 8) == Xor(x, Load64(m))
  {
    hide *;
    LiftAllSmall(m);
    EightApart(x, LiftAll(m));
    LaneAfter8(x, m);
  }

  lemma LaneAfter8(x: Lane, m: seq<Byte>)
    requires |m| == 8
    ensures LaneAfter(x, m, 8) == XorEight(x, LiftAll(m))
  {
    hide Lift, Xor;
    hide LaneAfter;
    LaneStart(x, m);
    LaneNext(x, m, 1);
    LaneNext(x, m, 2);
    LaneNext(x, m, 3);
    LaneNext(x, m, 4);
    LaneNext(x, m, 5);
    LaneNext(x, m, 6);
    LaneNext(x, m, 7);
    LaneNext(x, m, 8);
  }

  lemma {:induction false} LanesAreBytes(s: Lanes, i: nat, n: nat, t: seq<Byte>)
    requires |t| == 8 * n && i + n <= 25
    ensures XorLanes(s, i, n, t) == XorAll(s, 8 * i, t)
    decreases n
  {
    hide *;
    if n == 0 {
      LanesNone(s, i, t);
    } else {
      var m := t[..8];
      XorAllLane(s, i, m, 8);
      LaneIsBytes(s[i], m);
      assert m[8..] == [];
      XorAllNone(s[i := Xor(s[i], Load64(m))], 8 * i + 8);
      assert t == m + t[8..];
      XorAllConcat(s, 8 * i, m, t[8..]);
      LanesAreBytes(s[i := Xor(s[i], Load64(m))], i + 1, n - 1, t[8..]);
      LanesStep(s, i, n, t);
    }
  }

  lemma LanesNone(s: Lanes, i: nat, t: seq<Byte>)
    requires t == [] && i <= 25
    ensures XorLanes(s, i, 0, t) == s && XorAll(s, 8 * i, t) == s
  {
  }

  lemma XorAllNone(s: Lanes, pos: nat)
    requires pos <= 200
    ensures XorAll(s, pos, []) == s
  {
  }

  lemma LanesStep(s: Lanes, i: nat, n: nat, t: seq<Byte>)
    requires 0 < n && |t| == 8 * n && i + n <= 25
    ensures XorLanes(s, i, n, t) == XorLanes(s[i := Xor(s[i], Load64(t[..8]))], i + 1, n - 1, t[8..])
  {
  }

  lemma XorByteZero(s: Lanes, pos: nat)
    requires pos < 200
    ensures XorByte(s, pos, 0) == s
  {
    assert Lift(0) == ZERO;
    ZeroShift(s[pos / 8], pos % 8);
  }

  lemma ZeroShift(x: Lane, k: nat)
    requires k < 8
    ensures Xor(x, Shl8(ZERO, k)) == x
  {
  }

  lemma {:induction false} XorZeros(s: Lanes, pos: nat, n: nat)
    requires pos + n <= 200
    ensures XorAll(s, pos, Zeros(n)) == s
    decreases n
  {
    hide XorByte;
    if n > 0 {
      XorByteZero(s, pos);
      assert Zeros(n)[1..] == Zeros(n - 1);
      XorZeros(s, pos + 1, n - 1);
    }
  }

  lemma XorOne(s: Lanes, pos: nat, b: Byte)
    requires pos < 200
    ensures XorAll(s, pos, [b]) == XorByte(s, pos, b)
  {
    hide XorByte;
    assert [b][1..] == [];
  }

  lemma ShiftXorBits(x: bv64, a: bv64, b: bv64)
    ensures XorBits(x, XorBits(a, b) << 56) == XorBits(XorBits(x, a << 56), b << 56)
  {
  }

  lemma ShiftXor(x: Lane, a: Lane, b: Lane)
    ensures Xor(x, Shl8(Xor(a, b), 7)) == Xor(Xor(x, Shl8(a, 7)), Shl8(b, 7))
  {
    hide XorBits;
    ShiftXorBits(x.bits, a.bits, b.bits);
  }
}
