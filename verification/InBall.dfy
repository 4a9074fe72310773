/** poly_challenge: sampling a polynomial with TAU coefficients 1 or -1. */
module InBall {
  import opened Arith
  import opened PolySpec
  import opened BitPack
  import opened Options
  import opened Sampling

  /** The bytes as one little-endian number. */
  function LittleEndian(b: seq<Byte>): nat
  {
    if b == [] then 0 else b[0] + 256 * LittleEndian(b[1..])
  }

  lemma {:induction false} LittleEndianAppend(b: seq<Byte>, c: Byte)
    ensures LittleEndian(b) < Power256(|b|)
    ensures LittleEndian(b + [c]) == LittleEndian(b) + c * Power256(|b|)
  {
    if b == [] {
      assert [] + [c] == [c];
      assert LittleEndian([c]) == c + 256 * LittleEndian([]);
    } else {
      assert (b + [c])[1..] == b[1..] + [c];
      LittleEndianAppend(b[1..], c);
      var p := Power256(|b| - 1);
      assert 256 * (c * p) == c * (256 * p);
    }
  }

  /** The shuffle from position i on, reading bytes from stream position pos and giving up at limit: a byte
      above i is skipped; any other names the entry that moves up to i and takes the next sign instead. */
  function Shuffle(x: Xof, seed: seq<Byte>, i: nat, pos: nat, limit: nat, signs: nat, c: Poly): (r: Option<Poly>)
    requires i <= 256 && pos <= limit
    decreases 256 - i, limit - pos
  {
    if i == 256 then Some(c)
    else if pos == limit then None
    else
      var b := x(seed, pos);
      if b > i then Shuffle(x, seed, i, pos + 1, limit, signs, c)
      else Shuffle(x, seed, i + 1, pos + 1, limit, signs / 2, Step(c, i, b, signs))
  }

  function Step(c: Poly, i: nat, b: nat, signs: nat): Poly
    requires b <= i < 256
  {
    c[i := c[b]][b := 1 - 2 * (signs % 2)]
  }

  function ZeroPoly(): Poly { seq(256, i => 0) }

  /** The challenge for a seed, from at most n blocks after the first. */
  function Challenge(x: Xof, seed: seq<Byte>, tau: nat, n: nat): (r: Option<Poly>)
    requires tau <= 256
  {
    Shuffle(x, seed, 256 - tau, 8, 136 * (1 + n), LittleEndian(Squeeze(x, seed, 0, 8)), ZeroPoly())
  }

  function NonZero(v: int): nat { if v == 0 then 0 else 1 }

  /** The number of nonzero coefficients. */
  function Weight(c: seq<int>): nat { if c == [] then 0 else NonZero(c[0]) + Weight(c[1..]) }

  ghost predicate Ternary(c: seq<int>) { forall i :: 0 <= i < |c| ==> -1 <= c[i] <= 1 }

  ghost predicate ZeroFrom(c: seq<int>, i: nat) { forall j :: i <= j < |c| ==> c[j] == 0 }

  lemma {:induction false} WeightUpdate(c: seq<int>, i: nat, v: int)
    requires i < |c|
    ensures Weight(c[i := v]) == Weight(c) - NonZero(c[i]) + NonZero(v)
  {
    if i == 0 {
      assert c[i := v][1..] == c[1..];
    } else {
      assert c[i := v][1..] == c[1..][i - 1 := v];
      WeightUpdate(c[1..], i - 1, v);
    }
  }

  lemma {:induction false} WeightZero(c: seq<int>)
    requires ZeroFrom(c, 0)
    ensures Weight(c) == 0
  {
    if c != [] {
      WeightZero(c[1..]);
    }
  }

  /** Each step adds one nonzero coefficient and keeps everything above it zero. */
  lemma StepWeight(c: Poly, i: nat, b: nat, signs: nat)
    requires b <= i < 256 && Ternary(c) && ZeroFrom(c, i)
    ensures Ternary(Step(c, i, b, signs)) && ZeroFrom(Step(c, i, b, signs), i + 1)
    ensures Weight(Step(c, i, b, signs)) == Weight(c) + 1
  {
    hide Weight;
    WeightUpdate(c, i, c[b]);
    WeightUpdate(c[i := c[b]], b, 1 - 2 * (signs % 2));
  }

  lemma {:induction false} ShuffleWeight(x: Xof, seed: seq<Byte>, i: nat, pos: nat, limit: nat, signs: nat, c: Poly)
    requires i <= 256 && pos <= limit && Ternary(c) && ZeroFrom(c, i)
    requires Shuffle(x, seed, i, pos, limit, signs, c).Some?
    ensures Ternary(Shuffle(x, seed, i, pos, limit, signs, c).value)
    ensures Weight(Shuffle(x, seed, i, pos, limit, signs, c).value) == Weight(c) + 256 - i
    decreases 256 - i, limit - pos
  {
    hide Weight, Step, Ternary, ZeroFrom;
    if i < 256 {
      var b := x(seed, pos);
      if b > i {
        ShuffleWeight(x, seed, i, pos + 1, limit, signs, c);
      } else {
        StepWeight(c, i, b, signs);
        ShuffleWeight(x, seed, i + 1, pos + 1, limit, signs / 2, Step(c, i, b, signs));
      }
    }
  }

  /** Every challenge has exactly tau nonzero coefficients, all of them 1 or -1. */
  lemma ChallengeWeight(x: Xof, seed: seq<Byte>, tau: nat, n: nat)
    requires tau <= 256 && Challenge(x, seed, tau, n).Some?
    ensures Ternary(Challenge(x, seed, tau, n).value) && Weight(Challenge(x, seed, tau, n).value) == tau
  {
    hide Weight, Shuffle;
    WeightZero(ZeroPoly());
    ShuffleWeight(x, seed, 256 - tau, 8, 136 * (1 + n), LittleEndian(Squeeze(x, seed, 0, 8)), ZeroPoly());
  }

  lemma {:induction false} ShuffleAgree(x: Xof, seed: seq<Byte>, i: nat, pos: nat, limit: nat, more: nat, signs: nat, c: Poly)
    requires i <= 256 && pos <= limit <= more && Shuffle(x, seed, i, pos, limit, signs, c).Some?
    ensures Shuffle(x, seed, i, pos, more, signs, c) == Shuffle(x, seed, i, pos, limit, signs, c)
    decreases 256 - i, limit - pos
  {
    hide Step;
    if i < 256 {
      var b := x(seed, pos);
      if b > i {
        ShuffleAgree(x, seed, i, pos + 1, limit, more, signs, c);
      } else {
        ShuffleAgree(x, seed, i + 1, pos + 1, limit, more, signs / 2, Step(c, i, b, signs));
      }
    }
  }

  /** A longer stream gives the same challenge. */
  lemma ChallengeAgree(x: Xof, seed: seq<Byte>, tau: nat, m: nat, n: nat)
    requires tau <= 256 && m <= n && Challenge(x, seed, tau, m).Some?
    ensures Challenge(x, seed, tau, n) == Challenge(x, seed, tau, m)
  {
    hide Shuffle;
    ShuffleAgree(x, seed, 256 - tau, 8, 136 * (1 + m), 136 * (1 + n), LittleEndian(Squeeze(x, seed, 0, 8)), ZeroPoly());
  }

  /** The sign bits are the first eight bytes of the buffer. */
  method Signs(buf: array<Byte>) returns (signs: nat)
    requires buf.Length >= 8
    ensures signs == LittleEndian(buf[..8])
  {
    signs := 0;
    var w := 1;
    for i := 0 to 8
      invariant signs == LittleEndian(buf[..i]) && w == Power256(i)
    {
      LittleEndianAppend(buf[..i], buf[i]);
      assert buf[..i + 1] == buf[..i] + [buf[i]];
      signs := Or(signs, buf[i], w);
      w := w * 256;
    }
  }

  /** The buffer is block number used of the stream. */
  ghost predicate Block(b: seq<Byte>, x: Xof, seed: seq<Byte>, used: nat) { b == Squeeze(x, seed, 136 * used, 136) }

  lemma BlockAt(b: seq<Byte>, x: Xof, seed: seq<Byte>, used: nat, pos: nat)
    requires Block(b, x, seed, used) && pos < 136
    ensures b[pos] == x(seed, 136 * used + pos)
  {
  }

  /** The inner loop of poly_challenge: reads bytes until one is at most i. */
  method ReadIndex(buf: array<Byte>, x: Xof, seed: seq<Byte>, i: nat, used: nat, pos: nat, n: nat, ghost signs: nat,
                   ghost c: Poly)
    returns (found: bool, b: nat, used': nat, pos': nat)
    requires buf.Length == 136 && Block(buf[..], x, seed, used) && i < 256 && pos <= 136 && used <= n
    modifies buf
    ensures used' <= n && pos' <= 136 && Block(buf[..], x, seed, used')
    ensures found ==> b <= i
    ensures Shuffle(x, seed, i, 136 * used + pos, 136 * (1 + n), signs, c) ==
            if found then Shuffle(x, seed, i + 1, 136 * used' + pos', 136 * (1 + n), signs / 2, Step(c, i, b, signs))
            else None
  {
    hide Shuffle, Step, Block, Squeeze;
    used', pos', b := used, pos, 256;
    ghost var limit := 136 * (1 + n);
    ghost var goal := Shuffle(x, seed, i, 136 * used + pos, limit, signs, c);
    while b > i
      invariant pos' <= 136 && used' <= n && Block(buf[..], x, seed, used')
      invariant b > i ==> Shuffle(x, seed, i, 136 * used' + pos', limit, signs, c) == goal
      invariant b <= i ==>
                  Shuffle(x, seed, i + 1, 136 * used' + pos', limit, signs / 2, Step(c, i, b, signs)) == goal
      decreases limit - 136 * used' - pos', b
    {
      if pos' >= 136 {
        if used' == n {
          ShuffleStep(x, seed, i, 136 * used' + pos', limit, signs, c);
          return false, 0, used', pos';
        }
        used' := used' + 1;
        SqueezeInto(buf, 0, x, seed, 136 * used', 136);
        BlockIs(buf[..], x, seed, used') by { assert buf[0..0 + 136] == buf[..]; }
        pos' := 0;
      }
      ShuffleStep(x, seed, i, 136 * used' + pos', limit, signs, c);
      BlockAt(buf[..], x, seed, used', pos');
      b := buf[pos'];
      pos' := pos' + 1;
    }
    found := true;
  }

  lemma BlockIs(b: seq<Byte>, x: Xof, seed: seq<Byte>, used: nat)
    requires b == Squeeze(x, seed, 136 * used, 136)
    ensures Block(b, x, seed, used)
  {
  }

  /** poly_challenge: n bounds the number of blocks after the first. */
  method PolyChallenge(x: Xof, seed: seq<Byte>, tau: nat, n: nat) returns (r: Option<Poly>)
    requires tau <= 256
    ensures r == Challenge(x, seed, tau, n)
  {
    hide Shuffle, Step, LittleEndian, Squeeze, Block;
    var buf := new Byte[136](i => 0);
    SqueezeInto(buf, 0, x, seed, 0, 136);
    BlockIs(buf[..], x, seed, 0) by { assert buf[0..0 + 136] == buf[..]; }
    FirstBytes(buf[..], x, seed);
    var signs := Signs(buf);
    var c := new Int32[256](i => 0);
    assert c[..] == ZeroPoly();
    var used: nat, pos: nat := 0, 8;
    var i: nat := 256 - tau;
    while i < 256
      invariant i <= 256 && pos <= 136 && used <= n && Block(buf[..], x, seed, used)
      invariant Shuffle(x, seed, i, 136 * used + pos, 136 * (1 + n), signs, c[..]) == Challenge(x, seed, tau, n)
    {
      ghost var before: seq<int> := c[..];
      var found, b, used', pos' := ReadIndex(buf, x, seed, i, used, pos, n, signs, before);
      if !found {
        return None;
      }
      used, pos := used', pos';
      c[i] := c[b];
      var bit: int := signs % 2;
      c[b] := 1 - 2 * bit;
      StepIs(before, i, b, signs, c[..]);
      signs := signs / 2;
      i := i + 1;
    }
    ShuffleEnd(x, seed, 136 * used + pos, 136 * (1 + n), signs, c[..]);
    return Some(c[..]);
  }

  lemma FirstBytes(b: seq<Byte>, x: Xof, seed: seq<Byte>)
    requires Block(b, x, seed, 0)
    ensures b[..8] == Squeeze(x, seed, 0, 8)
  {
  }

  lemma StepIs(c: Poly, i: nat, b: nat, signs: nat, d: Poly)
    requires b <= i < 256 && d == c[i := c[b]][b := 1 - 2 * (signs % 2)]
    ensures d == Step(c, i, b, signs)
  {
  }

  lemma ShuffleEnd(x: Xof, seed: seq<Byte>, pos: nat, limit: nat, signs: nat, c: Poly)
    requires pos <= limit
    ensures Shuffle(x, seed, 256, pos, limit, signs, c) == Some(c)
  {
  }

  lemma ShuffleStep(x: Xof, seed: seq<Byte>, i: nat, pos: nat, limit: nat, signs: nat, c: Poly)
    requires i < 256 && pos <= limit
    ensures pos == limit ==> Shuffle(x, seed, i, pos, limit, signs, c) == None
    ensures pos < limit && x(seed, pos) > i ==>
              Shuffle(x, seed, i, pos, limit, signs, c) == Shuffle(x, seed, i, pos + 1, limit, signs, c)
    ensures pos < limit && x(seed, pos) <= i ==>
              Shuffle(x, seed, i, pos, limit, signs, c) ==
              Shuffle(x, seed, i + 1, pos + 1, limit, signs / 2, Step(c, i, x(seed, pos), signs))
  {
  }
}
