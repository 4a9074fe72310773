/** SHAKE as FIPS 202 defines it: pad the message, absorb its blocks, squeeze blocks, with rate and padding in numbers. */
module ShakeLaw {
  import opened Arith
  import opened LaneOps
  import opened Keccak
  import opened Shakes

  /** The message with the bits 1111 and the padding 10*1 behind it, up to a multiple of the rate. */
  function Padded(r: nat, m: seq<Byte>): (t: seq<Byte>)
    requires r > 1
    ensures |t| == |m| - |m| % r + r && |t| >= r
  {
    var left := |m| % r;
    if left == r - 1 then m + [0x9F] else m + [0x1F] + Zeros(r - 2 - left) + [0x80]
  }

  /** A block of bytes xored into the state, eight bytes to a lane. */
  function WithBlock(s: Lanes, t: seq<Byte>): Lanes
    requires |t| % 8 == 0
  {
    seq(25, l requires 0 <= l < 25 => if 8 * l < |t| then Xor(s[l], Load64(t[8 * l..8 * l + 8])) else s[l])
  }

  /** All blocks absorbed, with the permutation between them. */
  function AbsorbAll(f: Permutation, r: nat, s: Lanes, t: seq<Byte>): Lanes
    requires IsRate(r) && r <= |t|
    decreases |t|
  {
    if |t| < 2 * r then WithBlock(s, t[..r]) else AbsorbAll(f, r, f(WithBlock(s, t[..r])), t[r..])
  }

  /** The state after k more permutations. */
  function Permuted(f: Permutation, s: Lanes, k: nat): Lanes
    decreases k
  {
    if k == 0 then s else Permuted(f, f(s), k - 1)
  }

  /** Byte i of the state. */
  function StateByte(s: Lanes, i: nat): Byte
    requires i < 200
  {
    Shr8(s[i / 8], i % 8)
  }

  // ---- The model's sponge is this one ----

  lemma {:induction false} XorLanesAt(s: Lanes, i: nat, n: nat, t: seq<Byte>, l: nat)
    requires |t| == 8 * n && i + n <= 25 && l < 25
    ensures XorLanes(s, i, n, t)[l] ==
            if i <= l < i + n then Xor(s[l], Load64(t[8 * (l - i)..8 * (l - i) + 8])) else s[l]
    decreases n
  {
    hide Load64, Xor;
    if n > 0 {
      XorLanesAt(s[i := Xor(s[i], Load64(t[..8]))], i + 1, n - 1, t[8..], l);
      if i < l < i + n {
        assert t[8..][8 * (l - i - 1)..8 * (l - i - 1) + 8] == t[8 * (l - i)..8 * (l - i) + 8];
      }
    }
  }

  lemma BlockIs(s: Lanes, r: nat, t: seq<Byte>)
    requires IsRate(r) && |t| == r
    ensures XorLanes(s, 0, r / 8, t) == WithBlock(s, t)
  {
    hide Load64, Xor, XorLanes;
    forall l | 0 <= l < 25
      ensures XorLanes(s, 0, r / 8, t)[l] == WithBlock(s, t)[l]
    {
      XorLanesAt(s, 0, r / 8, t, l);
    }
  }

  lemma PaddedShort(r: nat, m: seq<Byte>)
    requires |m| < r && r > 1
    ensures Padded(r, m) == LastBlock(r, m, 0x1F)
  {
    assert |m| % r == |m|;
  }

  lemma PaddedLong(r: nat, m: seq<Byte>)
    requires |m| >= r > 1
    ensures Padded(r, m)[..r] == m[..r] && Padded(r, m)[r..] == Padded(r, m[r..])
  {
    LessOne(|m|, r);
  }

  lemma LessOne(n: nat, r: nat)
    requires n >= r > 0
    ensures (n - r) % r == n % r
  {
    assert n - r == (n / r - 1) * r + n % r;
    RemainderIs(n - r, n / r - 1, n % r, r);
  }

  lemma {:induction false} AbsorbIs(f: Permutation, r: nat, s: Lanes, m: seq<Byte>)
    requires IsRate(r)
    ensures AbsorbBlocks(f, r, s, m, 0x1F) == AbsorbAll(f, r, s, Padded(r, m))
    decreases |m|
  {
    hide XorLanes, WithBlock, LastBlock, Padded;
    if |m| >= r {
      PaddedLong(r, m);
      BlockIs(s, r, m[..r]);
      AbsorbIs(f, r, f(WithBlock(s, m[..r])), m[r..]);
    } else {
      PaddedShort(r, m);
      BlockIs(s, r, LastBlock(r, m, 0x1F));
      assert Padded(r, m)[..r] == Padded(r, m);
    }
  }

  lemma {:induction false} SqueezeByte(f: Permutation, r: nat, s: Lanes, n: nat, j: nat, i: nat)
    requires IsRate(r) && j < n && i < r
    ensures 0 <= j * r + i < n * r
    ensures SqueezeBlocks(f, r, s, n)[j * r + i] == StateByte(Permuted(f, s, j + 1), i)
    decreases n
  {
    hide Shr8, StateBytes;
    InBlocks(j, n, r, i);
    BlocksFirst(f, r, s, n);
    if j == 0 {
      BytesAt(r, f(s), i);
    } else {
      SqueezeByte(f, r, f(s), n - 1, j - 1, i);
      assert j * r + i == r + ((j - 1) * r + i);
    }
  }

  lemma InBlocks(j: nat, n: nat, r: nat, i: nat)
    requires j < n && i < r
    ensures 0 <= j * r + i < n * r && (n - 1) * r == n * r - r && (j > 0 ==> j * r >= r)
  {
    MultipleFar(n - j, r);
    MultipleFar(j, r);
    Distribute(n, j, r);
    Distribute(n, 1, r);
  }

  lemma Distribute(n: int, j: int, r: int)
    ensures (n - j) * r == n * r - j * r
  {
  }

  lemma BlocksFirst(f: Permutation, r: nat, s: Lanes, n: nat)
    requires IsRate(r) && n > 0
    ensures SqueezeBlocks(f, r, s, n) == StateBytes(r, f(s)) + SqueezeBlocks(f, r, f(s), n - 1)
    ensures |StateBytes(r, f(s))| == r
  {
    hide StateBytes;
  }

  lemma BytesAt(r: nat, s: Lanes, i: nat)
    requires i < r <= 200
    ensures StateBytes(r, s)[i] == StateByte(s, i)
  {
  }

  /** The output: byte i of block j is byte i of the state after the last block and j + 1 permutations. */
  lemma ShakeIs(f: Permutation, r: nat, m: seq<Byte>, n: nat, at: nat, j: nat, i: nat)
    requires IsRate(r) && i < r && at == j * r + i && at < n
    ensures OneShot(f, r, 0x1F, m, n)[at] ==
            StateByte(Permuted(f, AbsorbAll(f, r, seq(25, l => ZERO), Padded(r, m)), j + 1), i)
  {
    hide AbsorbBlocks, AbsorbAll, SqueezeBlocks, StateByte, Permuted, Padded;
    var k := BlocksFor(r, n);
    AbsorbIs(f, r, Fresh().s, m);
    BlockBelow(j, k, r, i);
    SqueezeByte(f, r, AbsorbBlocks(f, r, Fresh().s, m, 0x1F), k, j, i);
  }

  lemma BlockBelow(j: nat, k: nat, r: nat, i: nat)
    ensures j * r + i < k * r ==> j < k
  {
    if j >= k {
      assert (j - k) * r >= 0;
      assert j * r == k * r + (j - k) * r;
    }
  }

  /** The two hash functions of the scheme: SHAKE128 has a rate of 168 bytes, SHAKE256 one of 136. */
  lemma HashIs(f: Permutation, m: seq<Byte>, j: nat, i: nat)
    ensures i < 168 ==>
              ShakeHash(f).shake128(m, 168 * j + i) ==
              StateByte(Permuted(f, AbsorbAll(f, 168, seq(25, l => ZERO), Padded(168, m)), j + 1), i)
    ensures i < 136 ==>
              ShakeHash(f).shake256(m, 136 * j + i) ==
              StateByte(Permuted(f, AbsorbAll(f, 136, seq(25, l => ZERO), Padded(136, m)), j + 1), i)
  {
    hide OneShot, AbsorbAll, StateByte, Permuted, Padded, StreamByte;
    if i < 168 {
      StreamIsOneShot(f, 168, m, 168 * j + i + 1);
      ShakeIs(f, 168, m, 168 * j + i + 1, 168 * j + i, j, i);
      assert S.Squeeze(ShakeXof(f, 168), m, 0, 168 * j + i + 1)[168 * j + i] == ShakeXof(f, 168)(m, 168 * j + i);
    }
    if i < 136 {
      StreamIsOneShot(f, 136, m, 136 * j + i + 1);
      ShakeIs(f, 136, m, 136 * j + i + 1, 136 * j + i, j, i);
      assert S.Squeeze(ShakeXof(f, 136), m, 0, 136 * j + i + 1)[136 * j + i] == ShakeXof(f, 136)(m, 136 * j + i);
    }
  }
}
