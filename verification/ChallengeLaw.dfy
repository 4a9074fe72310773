/** Where the coefficients of a challenge end up, and with which signs: Algorithm 29 of FIPS 204 without the array. */
module ChallengeLaw {
  import opened Arith
  import opened PolySpec
  import opened Options
  import opened Sampling
  import opened InBall

  /** Sign bit t: the bits of the first eight bytes of the stream, lowest first. */
  function SignBit(x: Xof, seed: seq<Byte>, t: nat): (b: nat)
    requires t < 64
    ensures b < 2
  {
    x(seed, t / 8) / Exp2(t % 8) % 2
  }

  /** Where the search for the byte of step t begins. */
  function From(pos: seq<nat>, t: nat): nat
    requires t <= |pos|
  {
    if t == 0 then 8 else pos[t - 1] + 1
  }

  /** Step t takes the byte at stream position pos[t]: the first one behind the last taken that does not exceed
      256 - tau + t. */
  ghost predicate PickAt(x: Xof, seed: seq<Byte>, tau: nat, pos: seq<nat>, t: nat)
    requires t < |pos| <= tau <= 256
  {
    From(pos, t) <= pos[t] && x(seed, pos[t]) <= 256 - tau + t &&
    forall q :: From(pos, t) <= q < pos[t] ==> x(seed, q) > 256 - tau + t
  }

  ghost predicate Picks(x: Xof, seed: seq<Byte>, tau: nat, pos: seq<nat>)
    requires tau <= 256
  {
    |pos| <= tau && forall t :: 0 <= t < |pos| ==> PickAt(x, seed, tau, pos, t)
  }

  /** The last of the first t steps that names position k. */
  function LastNaming(x: Xof, seed: seq<Byte>, pos: seq<nat>, t: nat, k: nat): (u: Option<nat>)
    requires t <= |pos|
    ensures u.Some? ==> u.value < t && x(seed, pos[u.value]) == k
    ensures u.Some? ==> forall v :: u.value < v < t ==> x(seed, pos[v]) != k
    ensures u.None? ==> forall v :: 0 <= v < t ==> x(seed, pos[v]) != k
  {
    if t == 0 then None else if x(seed, pos[t - 1]) == k then Some(t - 1) else LastNaming(x, seed, pos, t - 1, k)
  }

  /** The coefficient at k after t steps: the sign of the last step that named k; if none did and k is the place of an
      earlier step, what stood before that step at the place it named; otherwise 0. */
  function PlacedAt(x: Xof, seed: seq<Byte>, tau: nat, pos: seq<nat>, t: nat, k: nat): int
    requires t <= |pos| <= tau <= 64
    decreases t
  {
    var u := LastNaming(x, seed, pos, t, k);
    if u.Some? then if SignBit(x, seed, u.value) == 1 then -1 else 1
    else if 256 - tau <= k < 256 - tau + t then
      var v := k - (256 - tau);
      PlacedAt(x, seed, tau, pos, v, x(seed, pos[v]))
    else 0
  }

  // ---- The sign bits ----

  /** s after t shifts by one bit. */
  function Shifted(s: nat, t: nat): nat { if t == 0 then s else Shifted(s, t - 1) / 2 }

  lemma {:induction false} ShiftedTwice(s: nat, t: nat, u: nat)
    ensures Shifted(s, t + u) == Shifted(Shifted(s, t), u)
    decreases u
  {
    if u > 0 {
      ShiftedTwice(s, t, u - 1);
    }
  }

  lemma EvenMore(a: int, m: int)
    ensures (a + 2 * m) % 2 == a % 2
  {
  }

  lemma SmallPowers()
    ensures Exp2(0) == 1 && Exp2(1) == 2 && Exp2(2) == 4 && Exp2(3) == 8
    ensures Exp2(4) == 16 && Exp2(5) == 32 && Exp2(6) == 64 && Exp2(7) == 128
  {
    assert Exp2(3) == 8;
  }

  /** The bit number t of a byte with more bytes above it. */
  lemma LowBit(a: Byte, n: nat, t: nat)
    requires t < 8
    ensures Shifted(a + 256 * n, t) % 2 == a / Exp2(t) % 2
  {
    hide Shifted, Exp2;
    ShiftedByte(a, n);
    SmallPowers();
    match t
    case 0 => EvenMore(a, 128 * n);
    case 1 => EvenMore(a / 2, 64 * n);
    case 2 => EvenMore(a / 4, 32 * n);
    case 3 => EvenMore(a / 8, 16 * n);
    case 4 => EvenMore(a / 16, 8 * n);
    case 5 => EvenMore(a / 32, 4 * n);
    case 6 => EvenMore(a / 64, 2 * n);
    case _ => EvenMore(a / 128, n);
  }

  lemma ShiftedByte(a: Byte, n: nat)
    ensures var s := a + 256 * n;
            Shifted(s, 0) == a + 256 * n && Shifted(s, 1) == a / 2 + 128 * n && Shifted(s, 2) == a / 4 + 64 * n &&
            Shifted(s, 3) == a / 8 + 32 * n && Shifted(s, 4) == a / 16 + 16 * n && Shifted(s, 5) == a / 32 + 8 * n &&
            Shifted(s, 6) == a / 64 + 4 * n && Shifted(s, 7) == a / 128 + 2 * n && Shifted(s, 8) == n
  {
    var s := a + 256 * n;
    assert Shifted(s, 1) == a / 2 + 128 * n;
    assert Shifted(s, 2) == a / 4 + 64 * n;
    assert Shifted(s, 3) == a / 8 + 32 * n;
    assert Shifted(s, 4) == a / 16 + 16 * n;
    assert Shifted(s, 5) == a / 32 + 8 * n;
    assert Shifted(s, 6) == a / 64 + 4 * n;
    assert Shifted(s, 7) == a / 128 + 2 * n;
  }

  lemma {:induction false} LittleEndianBit(b: seq<Byte>, t: nat)
    requires t < 8 * |b|
    ensures Shifted(LittleEndian(b), t) % 2 == b[t / 8] / Exp2(t % 8) % 2
  {
    hide Shifted;
    var n := LittleEndian(b[1..]);
    if t < 8 {
      LowBit(b[0], n, t);
    } else {
      LittleEndianBit(b[1..], t - 8);
      ShiftedTwice(LittleEndian(b), 8, t - 8);
      ShiftedByte(b[0], n);
      assert b[1..][(t - 8) / 8] == b[t / 8];
    }
  }

  /** The sign word after t steps. */
  function Signs(x: Xof, seed: seq<Byte>, t: nat): nat { Shifted(LittleEndian(Squeeze(x, seed, 0, 8)), t) }

  lemma SignIs(x: Xof, seed: seq<Byte>, t: nat)
    requires t < 64
    ensures Signs(x, seed, t) % 2 == SignBit(x, seed, t) && Signs(x, seed, t + 1) == Signs(x, seed, t) / 2
    ensures Signs(x, seed, 0) == LittleEndian(Squeeze(x, seed, 0, 8))
  {
    LittleEndianBit(Squeeze(x, seed, 0, 8), t);
  }

  // ---- The shuffle follows the law ----

  /** The array after t steps. */
  function After(x: Xof, seed: seq<Byte>, tau: nat, pos: seq<nat>, t: nat): Poly
    requires tau <= 64 && Picks(x, seed, tau, pos) && t <= |pos|
  {
    if t == 0 then ZeroPoly()
    else
      assert PickAt(x, seed, tau, pos, t - 1);
      Step(After(x, seed, tau, pos, t - 1), 256 - tau + t - 1, x(seed, pos[t - 1]), Signs(x, seed, t - 1))
  }

  lemma LastNamingStep(x: Xof, seed: seq<Byte>, pos: seq<nat>, t: nat, k: nat)
    requires 0 < t <= |pos|
    ensures LastNaming(x, seed, pos, t, k) ==
            if x(seed, pos[t - 1]) == k then Some(t - 1) else LastNaming(x, seed, pos, t - 1, k)
  {
  }

  lemma StepAt(c: Poly, i: nat, b: nat, signs: nat, k: nat)
    requires b <= i < 256 && k < 256
    ensures Step(c, i, b, signs)[k] == if k == b then 1 - 2 * (signs % 2) else if k == i then c[b] else c[k]
  {
  }

  lemma AfterStep(x: Xof, seed: seq<Byte>, tau: nat, pos: seq<nat>, t: nat, k: nat)
    requires tau <= 64 && Picks(x, seed, tau, pos) && 0 < t <= |pos| && k < 256
    ensures x(seed, pos[t - 1]) <= 256 - tau + t - 1 < 256
    ensures var b, c := x(seed, pos[t - 1]), After(x, seed, tau, pos, t - 1);
            After(x, seed, tau, pos, t)[k] ==
            if k == b then if SignBit(x, seed, t - 1) == 1 then -1 else 1
            else if k == 256 - tau + t - 1 then c[b] else c[k]
  {
    hide Picks, SignBit, Signs, Step;
    PickBelow(x, seed, tau, pos, t - 1);
    SignIs(x, seed, t - 1);
    StepAt(After(x, seed, tau, pos, t - 1), 256 - tau + t - 1, x(seed, pos[t - 1]), Signs(x, seed, t - 1), k);
  }

  /** The law for one more step. */
  lemma PlacedStep(x: Xof, seed: seq<Byte>, tau: nat, pos: seq<nat>, t: nat, k: nat)
    requires tau <= 64 && Picks(x, seed, tau, pos) && 0 < t <= |pos|
    ensures var b := x(seed, pos[t - 1]);
            PlacedAt(x, seed, tau, pos, t, k) ==
            if k == b then if SignBit(x, seed, t - 1) == 1 then -1 else 1
            else PlacedAt(x, seed, tau, pos, t - 1, if k == 256 - tau + t - 1 then b else k)
  {
    hide Picks, LastNaming, SignBit;
    PickBelow(x, seed, tau, pos, t - 1);
    LastNamingStep(x, seed, pos, t, k);
    if k == 256 - tau + t - 1 {
      NotNamedYet(x, seed, tau, pos, t - 1);
    }
  }

  lemma {:induction false} AfterIsPlaced(x: Xof, seed: seq<Byte>, tau: nat, pos: seq<nat>, t: nat, k: nat)
    requires tau <= 64 && Picks(x, seed, tau, pos) && t <= |pos| && k < 256
    ensures After(x, seed, tau, pos, t)[k] == PlacedAt(x, seed, tau, pos, t, k)
    decreases t
  {
    hide Picks, PlacedAt, After, SignBit;
    if t == 0 {
      NothingPlaced(x, seed, tau, pos, k);
    } else {
      AfterStep(x, seed, tau, pos, t, k);
      PlacedStep(x, seed, tau, pos, t, k);
      AfterIsPlaced(x, seed, tau, pos, t - 1, if k == 256 - tau + t - 1 then x(seed, pos[t - 1]) else k);
    }
  }

  lemma NothingPlaced(x: Xof, seed: seq<Byte>, tau: nat, pos: seq<nat>, k: nat)
    requires tau <= 64 && Picks(x, seed, tau, pos) && k < 256
    ensures After(x, seed, tau, pos, 0)[k] == PlacedAt(x, seed, tau, pos, 0, k) == 0
  {
  }

  lemma PickBelow(x: Xof, seed: seq<Byte>, tau: nat, pos: seq<nat>, t: nat)
    requires tau <= 64 && Picks(x, seed, tau, pos) && t < |pos|
    ensures |pos| <= tau && x(seed, pos[t]) <= 256 - tau + t
  {
    assert PickAt(x, seed, tau, pos, t);
  }

  /** A place is not named before its own step. */
  lemma NotNamedYet(x: Xof, seed: seq<Byte>, tau: nat, pos: seq<nat>, t: nat)
    requires tau <= 64 && Picks(x, seed, tau, pos) && t < |pos|
    ensures LastNaming(x, seed, pos, t, 256 - tau + t).None?
  {
    hide LastNaming;
    var u := LastNaming(x, seed, pos, t, 256 - tau + t);
    if u.Some? {
      PickBelow(x, seed, tau, pos, u.value);
    }
  }

  /** From the search of step t on, the shuffle arrives at the array after all steps. */
  lemma {:induction false} ShuffleFollows(x: Xof, seed: seq<Byte>, tau: nat, pos: seq<nat>, t: nat, q: nat, limit: nat)
    requires tau <= 64 && Picks(x, seed, tau, pos) && |pos| == tau && t <= tau && q <= limit
    requires t < tau ==> From(pos, t) <= q <= pos[t] && pos[tau - 1] < limit
    ensures Shuffle(x, seed, 256 - tau + t, q, limit, Signs(x, seed, t), After(x, seed, tau, pos, t)) ==
            Some(After(x, seed, tau, pos, tau))
    decreases tau - t, if t < tau then pos[t] - q else 0
  {
    hide Shuffle, Signs, Step;
    var i, s, c := 256 - tau + t, Signs(x, seed, t), After(x, seed, tau, pos, t);
    if t == tau {
      ShuffleEnd(x, seed, q, limit, s, c);
    } else {
      Increasing(x, seed, tau, pos, t, tau - 1);
      ShuffleStep(x, seed, i, q, limit, s, c);
      assert PickAt(x, seed, tau, pos, t);
      if q < pos[t] {
        ShuffleFollows(x, seed, tau, pos, t, q + 1, limit);
      } else {
        SignIs(x, seed, t);
        if t + 1 < tau {
          assert PickAt(x, seed, tau, pos, t + 1);
        }
        ShuffleFollows(x, seed, tau, pos, t + 1, q + 1, limit);
      }
    }
  }

  lemma {:induction false} Increasing(x: Xof, seed: seq<Byte>, tau: nat, pos: seq<nat>, t: nat, u: nat)
    requires tau <= 64 && Picks(x, seed, tau, pos) && t <= u < |pos|
    ensures pos[t] <= pos[u]
    decreases u
  {
    if t < u {
      Increasing(x, seed, tau, pos, t, u - 1);
      assert PickAt(x, seed, tau, pos, u);
    }
  }

  lemma MorePicks(x: Xof, seed: seq<Byte>, tau: nat, some: seq<nat>, q: nat)
    requires |some| < tau <= 64 && Picks(x, seed, tau, some) && From(some, |some|) <= q
    requires forall r :: From(some, |some|) <= r < q ==> x(seed, r) > 256 - tau + |some|
    requires x(seed, q) <= 256 - tau + |some|
    ensures Picks(x, seed, tau, some + [q])
  {
    var more := some + [q];
    forall t: nat | t < |more|
      ensures PickAt(x, seed, tau, more, t)
    {
      assert From(more, t) == From(some, t);
      if t < |some| {
        assert PickAt(x, seed, tau, some, t);
      }
    }
  }

  /** A shuffle that ends has found a byte for every step. */
  lemma {:induction false} FindPicks(x: Xof, seed: seq<Byte>, tau: nat, some: seq<nat>, q: nat, limit: nat, s: nat, c: Poly)
    returns (pos: seq<nat>)
    requires tau <= 64 && Picks(x, seed, tau, some) && From(some, |some|) <= q <= limit
    requires forall r :: From(some, |some|) <= r < q ==> x(seed, r) > 256 - tau + |some|
    requires some != [] ==> some[|some| - 1] < limit
    requires Shuffle(x, seed, 256 - tau + |some|, q, limit, s, c).Some?
    ensures Picks(x, seed, tau, pos) && |pos| == tau && (tau > 0 ==> pos[tau - 1] < limit)
    decreases tau - |some|, limit - q
  {
    hide Shuffle, Step, Picks;
    var i := 256 - tau + |some|;
    PicksLength(x, seed, tau, some);
    if |some| == tau {
      pos := some;
    } else {
      ShuffleStep(x, seed, i, q, limit, s, c);
      if x(seed, q) > i {
        pos := FindPicks(x, seed, tau, some, q + 1, limit, s, c);
      } else {
        MorePicks(x, seed, tau, some, q);
        pos := FindPicks(x, seed, tau, some + [q], q + 1, limit, s / 2, Step(c, i, x(seed, q), s));
      }
    }
  }

  lemma PicksLength(x: Xof, seed: seq<Byte>, tau: nat, pos: seq<nat>)
    requires tau <= 64 && Picks(x, seed, tau, pos)
    ensures |pos| <= tau
  {
  }

  /** The challenge for a seed: which polynomial it is, and when the stream is long enough. */
  lemma ChallengeIs(x: Xof, seed: seq<Byte>, tau: nat, n: nat, c: Poly)
    requires tau <= 64
    ensures Challenge(x, seed, tau, n) == Some(c) <==>
            exists pos :: Picks(x, seed, tau, pos) && |pos| == tau && (tau > 0 ==> pos[tau - 1] < 136 * (1 + n)) &&
                          forall k :: 0 <= k < 256 ==> c[k] == PlacedAt(x, seed, tau, pos, tau, k)
  {
    hide Shuffle, Picks, PlacedAt, LittleEndian;
    forall pos | Picks(x, seed, tau, pos) && |pos| == tau && (tau > 0 ==> pos[tau - 1] < 136 * (1 + n))
      ensures Challenge(x, seed, tau, n) == Some(After(x, seed, tau, pos, tau))
      ensures (forall k :: 0 <= k < 256 ==> c[k] == PlacedAt(x, seed, tau, pos, tau, k)) <==>
              c == After(x, seed, tau, pos, tau)
    {
      StartOf(x, seed, tau, pos);
      SignIs(x, seed, 0);
      ShuffleFollows(x, seed, tau, pos, 0, 8, 136 * (1 + n));
      forall k | 0 <= k < 256
        ensures After(x, seed, tau, pos, tau)[k] == PlacedAt(x, seed, tau, pos, tau, k)
      {
        AfterIsPlaced(x, seed, tau, pos, tau, k);
      }
    }
    if Challenge(x, seed, tau, n).Some? {
      NoPicks(x, seed, tau);
      var pos := FindPicks(x, seed, tau, [], 8, 136 * (1 + n), LittleEndian(Squeeze(x, seed, 0, 8)), ZeroPoly());
    }
  }

  lemma StartOf(x: Xof, seed: seq<Byte>, tau: nat, pos: seq<nat>)
    requires tau <= 64 && Picks(x, seed, tau, pos)
    ensures |pos| > 0 ==> From(pos, 0) <= 8 <= pos[0]
    ensures After(x, seed, tau, pos, 0) == ZeroPoly()
  {
    if |pos| > 0 {
      assert PickAt(x, seed, tau, pos, 0);
    }
  }

  lemma NoPicks(x: Xof, seed: seq<Byte>, tau: nat)
    requires tau <= 64
    ensures Picks(x, seed, tau, [])
  {
  }

  // ---- How many coefficients are negative ----

  /** The number of coefficients -1. */
  function Minuses(c: seq<int>): nat { if c == [] then 0 else (if c[0] == -1 then 1 else 0) + Minuses(c[1..]) }

  /** The number of ones among the first t sign bits. */
  function SetBits(x: Xof, seed: seq<Byte>, t: nat): nat
    requires t <= 64
  {
    if t == 0 then 0 else SetBits(x, seed, t - 1) + SignBit(x, seed, t - 1)
  }

  lemma {:induction false} MinusesUpdate(c: seq<int>, i: nat, v: int)
    requires i < |c|
    ensures Minuses(c[i := v]) == Minuses(c) - (if c[i] == -1 then 1 else 0) + (if v == -1 then 1 else 0)
  {
    if i == 0 {
      assert c[i := v][1..] == c[1..];
    } else {
      assert c[i := v][1..] == c[1..][i - 1 := v];
      MinusesUpdate(c[1..], i - 1, v);
    }
  }

  lemma {:induction false} NoMinuses(c: seq<int>)
    requires ZeroFrom(c, 0)
    ensures Minuses(c) == 0
  {
    if c != [] {
      NoMinuses(c[1..]);
    }
  }

  lemma StepMinuses(c: Poly, i: nat, b: nat, signs: nat)
    requires b <= i < 256 && Ternary(c) && ZeroFrom(c, i)
    ensures Minuses(Step(c, i, b, signs)) == Minuses(c) + signs % 2
  {
    hide Minuses;
    MinusesUpdate(c, i, c[b]);
    MinusesUpdate(c[i := c[b]], b, 1 - 2 * (signs % 2));
  }

  lemma {:induction false} AfterMinuses(x: Xof, seed: seq<Byte>, tau: nat, pos: seq<nat>, t: nat)
    requires tau <= 64 && Picks(x, seed, tau, pos) && t <= |pos|
    ensures t <= tau && Minuses(After(x, seed, tau, pos, t)) == SetBits(x, seed, t)
    ensures Ternary(After(x, seed, tau, pos, t)) && ZeroFrom(After(x, seed, tau, pos, t), 256 - tau + t)
  {
    hide Picks, Minuses, SignBit, Signs, Step, Ternary, ZeroFrom;
    PicksLength(x, seed, tau, pos);
    if t == 0 {
      ZeroStart(256 - tau);
      NoMinuses(ZeroPoly());
    } else {
      var c, i, b, s := After(x, seed, tau, pos, t - 1), 256 - tau + t - 1, x(seed, pos[t - 1]), Signs(x, seed, t - 1);
      AfterMinuses(x, seed, tau, pos, t - 1);
      PickBelow(x, seed, tau, pos, t - 1);
      SignIs(x, seed, t - 1);
      StepMinuses(c, i, b, s);
      StepWeight(c, i, b, s);
    }
  }

  lemma ZeroStart(i: nat)
    ensures Ternary(ZeroPoly()) && ZeroFrom(ZeroPoly(), 0) && ZeroFrom(ZeroPoly(), i)
  {
  }

  /** As many coefficients are -1 as there are ones among the sign bits used. */
  lemma ChallengeSigns(x: Xof, seed: seq<Byte>, tau: nat, n: nat)
    requires tau <= 64 && Challenge(x, seed, tau, n).Some?
    ensures Minuses(Challenge(x, seed, tau, n).value) == SetBits(x, seed, tau)
  {
    hide Shuffle, Picks, Minuses, LittleEndian;
    NoPicks(x, seed, tau);
    var pos := FindPicks(x, seed, tau, [], 8, 136 * (1 + n), LittleEndian(Squeeze(x, seed, 0, 8)), ZeroPoly());
    StartOf(x, seed, tau, pos);
    SignIs(x, seed, 0);
    ShuffleFollows(x, seed, tau, pos, 0, 8, 136 * (1 + n));
    AfterMinuses(x, seed, tau, pos, tau);
  }
}
