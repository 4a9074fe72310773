/** reduce.c: Montgomery reduction, Barrett-style reduction and conditional addition, on machine integers. */
module Reduce {
  import opened Arith

  const QINV: int := 58728449
  const TWO64: int := 0x1_0000_0000_0000_0000

  function ToInt32(x: int): (r: Int32)
    ensures (x - r) % R == 0
  {
    var m := x % R;
    if m < 0x8000_0000 then m else m - R
  }

  lemma ToInt32Unique(x: int, r: Int32, k: int)
    requires x == r + k * R
    ensures ToInt32(x) == r
  {
    assert (x - ToInt32(x)) % R == 0;
    var j := (x - ToInt32(x)) / R;
    assert x == ToInt32(x) + j * R;
    assert (j - k) * R == r - ToInt32(x);
  }

  /** QINV * Q is 1 + 114592 * R. */
  lemma Cofactor(a: int, t: int, k: int)
    requires a * QINV == t + k * R
    ensures a - t * Q == (k * Q - a * 114592) * R
  {
    assert a * QINV * Q == t * Q + k * Q * R;
  }

  lemma MultipleOf(x: int, k: int)
    requires x == k * R
    ensures x % R == 0
  {
  }

  /** What montgomery_reduce divides is a multiple of R. */
  lemma Divides(a: int, t: int)
    requires (a * QINV - t) % R == 0
    ensures (a - t * Q) % R == 0
  {
    var k := (a * QINV - t) / R;
    Cofactor(a, t, k);
    MultipleOf(a - t * Q, k * Q - a * 114592);
  }

  function Redc(a: int): (r: int)
    ensures r * R == a - ToInt32(a * QINV) * Q
  {
    var t := ToInt32(a * QINV);
    Divides(a, t);
    (a - t * Q) / R
  }

  lemma RedcCong(a: int)
    ensures Cong(Redc(a) * R, a)
    ensures Cong(Redc(a), a * RINV)
  {
    var t: int := ToInt32(a * QINV);
    CongFrom(Redc(a) * R, a, -t);
    CancelR(Redc(a), a);
  }

  /** On the domain of montgomery_reduce the quotient already is a 32-bit number. */
  lemma RedcFits(a: int, t: int)
    requires t == ToInt32(a * QINV)
    ensures Redc(a) == (a - t * Q) / R
    ensures -0x8000_0000 * Q <= a < 0x8000_0000 * Q ==> -Q < Redc(a) < Q && ToInt32(Redc(a)) == Redc(a)
  {
    hide ToInt32;
    if -0x8000_0000 * Q <= a < 0x8000_0000 * Q {
      assert Redc(a) * R == a - t * Q;
      ToInt32Unique(Redc(a), Redc(a), 0);
    }
  }

  function MontgomeryReduce(a: int): (r: Int32)
    requires -0x8000_0000_0000_0000 <= a < 0x8000_0000_0000_0000
    ensures -0x8000_0000 * Q <= a < 0x8000_0000 * Q ==> Cong(r * R, a) && -Q < r < Q && r == Redc(a)
  {
    var t := ToInt32((a % TWO64) * QINV % TWO64);
    TruncationIsCommonResidue(a);
    RedcCong(a);
    RedcFits(a, t);
    ToInt32((a - t * Q) / R)
  }

  lemma TruncationIsCommonResidue(a: int)
    ensures ToInt32((a % TWO64) * QINV % TWO64) == ToInt32(a * QINV)
  {
    var u := (a % TWO64) * QINV;
    var r := ToInt32(u % TWO64);
    var k0 := (u % TWO64 - r) / R;
    assert u % TWO64 == r + k0 * R;
    var k1 := u / TWO64;
    assert TWO64 == R * R;
    assert u == r + k0 * R + k1 * (R * R);
    var k2 := a / TWO64;
    assert a * QINV == u + k2 * (R * R) * QINV;
    assert a * QINV == r + (k0 + k1 * R + k2 * R * QINV) * R;
    ToInt32Unique(a * QINV, r, k0 + k1 * R + k2 * R * QINV);
  }

  /** On the documented closed range the documented |r| < Q fails at exactly one input, the upper end, where r = Q. */
  lemma MontgomeryRange(a: int)
    requires -0x8000_0000 * Q <= a <= 0x8000_0000 * Q
    ensures -Q < MontgomeryReduce(a) < Q <==> a != 0x8000_0000 * Q
    ensures a == 0x8000_0000 * Q ==> MontgomeryReduce(a) == Q
  {
    hide ToInt32;
    if a == 0x8000_0000 * Q {
      MontgomeryUpperEnd();
    }
  }

  lemma MontgomeryUpperEnd()
    ensures MontgomeryReduce(0x8000_0000 * Q) == Q
  {
    hide ToInt32;
    var a := 0x8000_0000 * Q;
    TruncationIsCommonResidue(a);
    assert QINV * Q == 1 + 114592 * R;
    assert a * QINV == -0x8000_0000 + (1 + 0x8000_0000 * 114592) * R;
    ToInt32Unique(a * QINV, -0x8000_0000, 1 + 0x8000_0000 * 114592);
    ToInt32Unique(Q, Q, 0);
  }

  function Reduce32(a: Int32): (r: Int32)
    requires a <= 0x8000_0000 - 0x40_0000 - 1
    ensures Cong(r, a) && -6283009 <= r <= 6283008
  {
    var t: Int32 := (a + 0x40_0000) / 0x80_0000;
    CongFrom(a - t * Q, a, -t);
    a - t * Q
  }

  /** The documented lower bound -6283008 is missed at exactly one input. */
  lemma Reduce32Range(a: Int32)
    requires a <= 0x8000_0000 - 0x40_0000 - 1
    ensures -6283008 <= Reduce32(a) <= 6283008 <==> a != -2143289344
  {
  }

  function Caddq(a: Int32): (r: Int32)
    ensures -Q <= a < Q ==> 0 <= r < Q && Cong(r, a)
    ensures a < 0 ==> r == a + Q
    ensures a >= 0 ==> r == a
  {
    if a < 0 then a + Q else a
  }

  function Freeze(a: Int32): (r: Int32)
    requires a <= 0x8000_0000 - 0x40_0000 - 1
    ensures r == a % Q
  {
    var t := Reduce32(a);
    var k := Multiple(t, a);
    Caddq(t)
  }
}
