/** rounding.c: high and low parts, and hints, for both values of GAMMA2. */
module Rounding {
  import opened Arith

  const GAMMA2_88: int := 95232
  const GAMMA2_32: int := 261888

  predicate IsGamma2(g: int) { g == GAMMA2_88 || g == GAMMA2_32 }

  /** The number of buckets of width 2 * g below the top one, which wraps to bucket 0. */
  function Buckets(g: int): int { if g == GAMMA2_88 then 44 else 16 }

  function Power2Round(a: int): (r: (int, int))
    requires 0 <= a < Q
    ensures a == r.0 * 8192 + r.1 && -4096 < r.1 <= 4096 && 0 <= r.0 <= 1023
  {
    var a1: Int32 := (a + 4096 - 1) / 8192;
    (a1, a - a1 * 8192)
  }

  /** All ones (-1) keeps x, all zeros clears it. */
  function MaskAnd(mask: int, x: int): int
    requires mask == 0 || mask == -1
  {
    if mask == -1 then x else 0
  }

  /** The multiply and shift finds the nearest multiple of 2 * GAMMA2_88. */
  lemma Nearest88(a: int, a1: int)
    requires 0 <= a < Q && a1 == ((a + 127) / 128 * 11275 + 0x80_0000) / 0x100_0000
    ensures 0 <= a1 <= 44 && -GAMMA2_88 < a - a1 * 190464 <= GAMMA2_88
  {
    var k := (a + 127) / 128;
    assert 128 * k - 127 <= a <= 128 * k && 0 <= k <= 65472;
    assert 0x100_0000 * a1 <= 11275 * k + 0x80_0000 < 0x100_0000 * a1 + 0x100_0000;
    assert 0 <= a1 <= 44;
    assert k <= 744 + 1488 * a1;
    assert k >= 1488 * a1 - 743;
  }

  lemma Nearest32(a: int, a1: int)
    requires 0 <= a < Q && a1 == ((a + 127) / 128 * 1025 + 0x20_0000) / 0x40_0000
    ensures 0 <= a1 <= 16 && -GAMMA2_32 < a - a1 * 523776 <= GAMMA2_32
  {
    var k := (a + 127) / 128;
    assert 128 * k - 127 <= a <= 128 * k && 0 <= k <= 65472;
    assert 0x40_0000 * a1 <= 1025 * k + 0x20_0000 < 0x40_0000 * a1 + 0x40_0000;
    assert 0 <= a1 <= 16;
    assert k <= 2046 + 4092 * a1;
    assert k >= 4092 * a1 - 2045;
  }

  /** What decompose promises. */
  ghost predicate IsDecomposition(g: int, a: int, a1: int, a0: int)
  {
    0 <= a1 < Buckets(g) &&
    ((a == a1 * (2 * g) + a0 && -g < a0 <= g) || (a == Q + a0 && a1 == 0 && -g <= a0 < 0))
  }

  function Decompose88(a: int): (r: (int, int))
    requires 0 <= a < Q
    ensures IsDecomposition(GAMMA2_88, a, r.0, r.1)
  {
    Nearest88(a, ((a + 127) / 128 * 11275 + 0x80_0000) / 0x100_0000);
    var a1: Int32 := (a + 127) / 128;
    var p: Int32 := a1 * 11275 + 0x80_0000;
    var a1: Int32 := p / 0x100_0000;
    assert (43 - a1) / 0x8000_0000 == if a1 > 43 then -1 else 0;
    var a1: Int32 := a1 - MaskAnd((43 - a1) / 0x8000_0000, a1);
    var a0: Int32 := a - a1 * 2 * GAMMA2_88;
    (a1, a0 - MaskAnd(((Q - 1) / 2 - a0) / 0x8000_0000, Q))
  }

  function Decompose32(a: int): (r: (int, int))
    requires 0 <= a < Q
    ensures IsDecomposition(GAMMA2_32, a, r.0, r.1)
  {
    Nearest32(a, ((a + 127) / 128 * 1025 + 0x20_0000) / 0x40_0000);
    var a1: Int32 := (a + 127) / 128;
    var p: Int32 := a1 * 1025 + 0x20_0000;
    var a1: Int32 := p / 0x40_0000;
    var a1: Int32 := a1 % 16;
    var a0: Int32 := a - a1 * 2 * GAMMA2_32;
    (a1, a0 - MaskAnd(((Q - 1) / 2 - a0) / 0x8000_0000, Q))
  }

  function Decompose(g: int, a: int): (r: (int, int))
    requires IsGamma2(g) && 0 <= a < Q
    ensures IsDecomposition(g, a, r.0, r.1)
  {
    if g == GAMMA2_88 then Decompose88(a) else Decompose32(a)
  }

  lemma DecompositionUnique(g: int, a: int, a1: int, a0: int, b1: int, b0: int)
    requires IsGamma2(g) && 0 <= a < Q
    requires IsDecomposition(g, a, a1, a0) && IsDecomposition(g, a, b1, b0)
    ensures a1 == b1 && a0 == b0
  {
  }

  function MakeHint(g: int, a0: int, a1: int): (h: int)
    ensures h == 0 || h == 1
  {
    if a0 > g || a0 < -g || (a0 == -g && a1 != 0) then 1 else 0
  }

  function UseHint(g: int, a: int, hint: int): (r: int)
    requires IsGamma2(g) && 0 <= a < Q
    ensures 0 <= r < Buckets(g)
  {
    var (a1, a0) := Decompose(g, a);
    if hint == 0 then a1
    else if g == GAMMA2_88 then
      if a0 > 0 then if a1 == 43 then 0 else a1 + 1
      else if a1 == 0 then 43 else a1 - 1
    else
      if a0 > 0 then (a1 + 1) % 16 else (a1 - 1) % 16
  }

  /** A hint moves to the next bucket around the circle: up if the low part is positive, and down otherwise. */
  lemma UseHintIs(g: int, a: int, hint: int, a1: int, a0: int)
    requires IsGamma2(g) && 0 <= a < Q && IsDecomposition(g, a, a1, a0)
    ensures UseHint(g, a, 0) == a1
    ensures hint != 0 ==>
              UseHint(g, a, hint) == (if a0 > 0 then a1 + 1 else a1 - 1) % (if g == GAMMA2_88 then 44 else 16)
  {
    hide Decompose;
    DecompositionIs(g, a, a1, a0);
    Around44(a1);
  }

  lemma Around44(x: int)
    requires 0 <= x < 44
    ensures (x + 1) % 44 == if x == 43 then 0 else x + 1
    ensures (x - 1) % 44 == if x == 0 then 43 else x - 1
  {
  }

  /** The hint recovers the high part a1 from a1 * 2g + r modulo Q, for every |r| < 2g; and it is
      set exactly where the high part of that number is not a1 itself. */
  lemma HintRecovers(g: int, a1: int, r: int, a: int)
    requires IsGamma2(g) && 0 <= a < Q && 0 <= a1 < Buckets(g)
    requires -2 * g < r < 2 * g && Cong(a, a1 * (2 * g) + r)
    ensures UseHint(g, a, MakeHint(g, r, a1)) == a1
    ensures MakeHint(g, r, a1) == 0 <==> Decompose(g, a).0 == a1
  {
    hide Decompose, Cong;
    var m, x := Buckets(g), a1 * (2 * g) + r;
    assert a == x || a == x + Q by { InRange(a, x); }
    if MakeHint(g, r, a1) == 0 {
      DecompositionIs(g, a, a1, r);
    } else if r > g {
      if a1 == m - 1 {
        DecompositionIs(g, a, 0, r - 2 * g - 1);
      } else {
        DecompositionIs(g, a, a1 + 1, r - 2 * g);
      }
    } else if a1 == 0 {
      DecompositionIs(g, a, m - 1, r + 2 * g + 1);
    } else {
      DecompositionIs(g, a, a1 - 1, r + 2 * g);
    }
  }

  lemma DecompositionIs(g: int, a: int, b1: int, b0: int)
    requires IsGamma2(g) && 0 <= a < Q && IsDecomposition(g, a, b1, b0)
    ensures Decompose(g, a) == (b1, b0)
  {
    hide Decompose;
    var d := Decompose(g, a);
    DecompositionUnique(g, a, d.0, d.1, b1, b0);
  }

  lemma InRange(a: int, x: int)
    requires 0 <= a < Q && -Q <= x < Q && Cong(a, x)
    ensures a == x || a == x + Q
  {
  }
}
