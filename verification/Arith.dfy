/** Congruence modulo Q, machine integer ranges, and small numeric functions shared by all modules. */
module Arith {
  const Q: int := 8380417
  const R: int := 0x1_0000_0000
  const RINV: int := 8265825
  type Int32 = x: int | -0x8000_0000 <= x < 0x8000_0000
  type Byte = x: int | 0 <= x < 256

  ghost predicate Cong(a: int, b: int) { (a - b) % Q == 0 }

  lemma CongFrom(a: int, b: int, k: int)
    requires a == b + k * Q
    ensures Cong(a, b)
  {
    assert a - b == k * Q;
  }

  /** The multiple of Q by which congruent numbers differ. */
  ghost function Multiple(a: int, b: int): (k: int)
    requires Cong(a, b)
    ensures a == b + k * Q
  {
    (a - b) / Q
  }

  lemma CongSym(a: int, b: int)
    requires Cong(a, b)
    ensures Cong(b, a)
  {
    var k := Multiple(a, b);
    CongFrom(b, a, -k);
  }

  lemma CongTrans(a: int, b: int, c: int)
    requires Cong(a, b) && Cong(b, c)
    ensures Cong(a, c)
  {
    var k, m := Multiple(a, b), Multiple(b, c);
    CongFrom(a, c, k + m);
  }

  lemma CongAdd(a: int, b: int, c: int, d: int)
    requires Cong(a, b) && Cong(c, d)
    ensures Cong(a + c, b + d) && Cong(a - c, b - d)
  {
    var k, m := Multiple(a, b), Multiple(c, d);
    CongFrom(a + c, b + d, k + m);
    CongFrom(a - c, b - d, k - m);
  }

  lemma CongMul(a: int, b: int, c: int, d: int)
    requires Cong(a, b) && Cong(c, d)
    ensures Cong(a * c, b * d)
  {
    var k, m := Multiple(a, b), Multiple(c, d);
    assert a * c == b * d + (k * d + b * m + k * m * Q) * Q;
    CongFrom(a * c, b * d, k * d + b * m + k * m * Q);
  }

  /** R is invertible modulo Q, so a factor R cancels. */
  lemma CancelR(a: int, b: int)
    requires Cong(a * R, b)
    ensures Cong(a, b * RINV)
  {
    var k := Multiple(a * R, b);
    assert R * RINV == 1 + 4236238847 * Q;
    assert a * R * RINV == b * RINV + k * Q * RINV;
    CongFrom(a, b * RINV, k * RINV - a * 4236238847);
  }

  lemma MultipleFar(d: int, r: int)
    requires 0 < r
    ensures d >= 1 ==> d * r >= r
    ensures d <= -1 ==> d * r <= -r
  {
  }

  lemma RemainderIs(a: int, q: int, m: int, r: int)
    requires 0 <= m < r && a == q * r + m
    ensures a % r == m
  {
    var d := q - a / r;
    assert d * r == a % r - m;
    MultipleFar(d, r);
  }

  /** Counting up and down modulo r. */
  lemma RemainderSteps(n: int, r: int)
    requires 0 < r
    ensures (n + 1) % r == if n % r + 1 == r then 0 else n % r + 1
    ensures (n - 1) % r == if n % r == 0 then r - 1 else n % r - 1
  {
    var q, m := n / r, n % r;
    assert n == q * r + m;
    if m + 1 == r {
      assert n + 1 == (q + 1) * r + 0;
      RemainderIs(n + 1, q + 1, 0, r);
    } else {
      RemainderIs(n + 1, q, m + 1, r);
    }
    if m == 0 {
      assert n - 1 == (q - 1) * r + (r - 1);
      RemainderIs(n - 1, q - 1, r - 1, r);
    } else {
      RemainderIs(n - 1, q, m - 1, r);
    }
  }

  ghost predicate Bounded(s: seq<int>, b: int)
  {
    forall i :: 0 <= i < |s| ==> -b <= s[i] <= b
  }

  function Min(a: nat, b: nat): nat { if a < b then a else b }

  function Exp2(n: nat): (r: nat)
    ensures r >= 1
  {
    if n == 0 then 1 else 2 * Exp2(n - 1)
  }

  function Power256(n: nat): (r: nat)
    ensures r > 0
  {
    if n == 0 then 1 else 256 * Power256(n - 1)
  }

  function Zeros(n: nat): seq<Byte> { seq(n, i => 0) }
}
