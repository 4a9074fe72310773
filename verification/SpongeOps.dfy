/** fips202.c: the incremental object and the loops of the one-shot interface. */
module SpongeOps {
  import opened Arith
  import opened LaneOps
  import opened Keccak
  import BitPack

  // ---- The incremental state as an object ----

  /** 25 lanes and the word that follows them: while absorbing, the bytes absorbed since the last permutation;
      while squeezing, the bytes of the block not yet given out. */
  class Sponge {
    const f: Permutation
    const r: nat
    var s: Lanes
    var pos: nat

    ghost function Now(): State
      reads this
    {
      State(s, pos)
    }

    /** keccak_inc_init */
    constructor (f: Permutation, r: nat)
      ensures this.f == f && this.r == r && Now() == Fresh()
    {
      this.f, this.r := f, r;
      s := seq(25, i => ZERO);
      pos := 0;
    }

    /** keccak_inc_absorb */
    method Absorb(m: seq<Byte>)
      requires IsRate(r) && pos < r
      modifies this
      ensures Now() == Feed(f, r, old(Now()), m) && pos < r
    {
      hide Feed, XorAll, XorByte;
      var m' := m;
      while |m'| + pos >= r
        invariant pos < r && Feed(f, r, Now(), m') == Feed(f, r, old(Now()), m)
        decreases |m'|
      {
        var n := r - pos;
        ghost var before := Now();
        assert m' == m'[..n] + m'[n..];
        FeedConcat(f, r, before, m'[..n], m'[n..]);
        FeedBlock(f, r, before, m'[..n]);
        XorMessage(m'[..n]);
        m' := m'[n..];
        pos := 0;
        s := f(s);
      }
      FeedBlock(f, r, Now(), m');
      XorMessage(m');
      pos := pos + |m'|;
    }

    /** The xor loop, from the position word on. */
    method XorMessage(m: seq<Byte>)
      requires pos + |m| <= 200
      modifies `s
      ensures s == XorAll(old(s), pos, m)
    {
      hide XorAll, XorByte;
      assert m[0..] == m;
      for i := 0 to |m|
        invariant XorAll(s, pos + i, m[i..]) == XorAll(old(s), pos, m)
      {
        XorAllStep(s, pos + i, m[i..]);
        assert m[i..][1..] == m[i + 1..];
        s := XorByte(s, pos + i, m[i]);
      }
      XorAllNone(s, pos + |m|);
    }

    /** keccak_inc_finalize */
    method Finalize(p: Byte)
      requires IsRate(r) && pos < r
      modifies this
      ensures Now() == Pad(r, p, old(Now())) && pos == 0
    {
      s := XorByte(s, pos, p);
      s := XorByte(s, r - 1, 128);
      pos := 0;
    }

    /** keccak_inc_squeeze */
    method Squeeze(n: nat) returns (h: seq<Byte>)
      requires IsRate(r) && pos <= r
      modifies this
      ensures h == Drain(f, r, old(Now()), n) && Now() == After(f, r, old(Now()), n) && pos <= r
    {
      hide Drain, After, ByteAt;
      ghost var start := Now();
      var i := 0;
      h := [];
      while i < n && i < pos
        invariant i <= n && i <= pos && |h| == i && Now() == start
        invariant forall j :: 0 <= j < i ==> h[j] == ByteAt(s, r - pos + j)
      {
        h := h + [ByteAt(s, r - pos + i)];
        i := i + 1;
      }
      DrainLeft(f, r, start, i);
      assert h == Drain(f, r, start, i);
      var left := n - i;
      pos := pos - i;
      while left > 0
        invariant pos <= r && 0 <= left <= n && (left > 0 ==> pos == 0)
        invariant h == Drain(f, r, start, n - left) && Now() == After(f, r, start, n - left)
      {
        ghost var before := Now();
        s := f(s);
        var block: seq<Byte> := [];
        i := 0;
        while i < left && i < r
          invariant i <= left && i <= r && |block| == i
          invariant forall j :: 0 <= j < i ==> block[j] == ByteAt(s, j)
        {
          block := block + [ByteAt(s, i)];
          i := i + 1;
        }
        DrainFresh(f, r, before.s, i);
        DrainLeft(f, r, State(s, r), i);
        assert block == Drain(f, r, before, i);
        DrainConcat(f, r, start, n - left, i);
        assert n - left + i == n - (left - i);
        h := h + block;
        left := left - i;
        pos := r - i;
      }
    }
  }

  // ---- The one-shot interface ----

  /** The padding buffer of keccak_absorb: zeros, the rest of the message, the domain byte, and the top bit. */
  method PadBuffer(r: nat, m: seq<Byte>, p: Byte) returns (t: array<Byte>)
    requires IsRate(r) && |m| < r && IsDomain(p)
    ensures fresh(t) && t.Length == 200 && t[..r] == LastBlock(r, m, p)
  {
    t := new Byte[200](i => 0);
    for i := 0 to r
      invariant forall k :: 0 <= k < i ==> t[k] == 0
    {
      t[i] := 0;
    }
    for i := 0 to |m|
      invariant forall k :: 0 <= k < i ==> t[k] == m[k]
      invariant forall k :: i <= k < r ==> t[k] == 0
    {
      t[i] := m[i];
    }
    t[|m|] := p;
    t[r - 1] := BitPack.Or(t[r - 1], 1, 128);
    assert t[..r] == LastBlock(r, m, p);
  }

  /** The lane loop that xors a block in. */
  method XorBlock(s: Lanes, n: nat, t: seq<Byte>) returns (u: Lanes)
    requires |t| == 8 * n && n <= 25
    ensures u == XorLanes(s, 0, n, t)
  {
    hide Load64, Xor, XorLanes;
    u := s;
    assert t[0..] == t;
    for i := 0 to n
      invariant XorLanes(u, i, n - i, t[8 * i..]) == XorLanes(s, 0, n, t)
    {
      LanesStep(u, i, n - i, t[8 * i..]);
      assert t[8 * i..][..8] == t[8 * i..8 * i + 8] && t[8 * i..][8..] == t[8 * (i + 1)..];
      u := u[i := Xor(u[i], Load64(t[8 * i..8 * i + 8]))];
    }
    LanesNone(u, n, t[8 * n..]);
  }

  /** keccak_absorb */
  method AbsorbOnce(f: Permutation, r: nat, m: seq<Byte>, p: Byte) returns (s: Lanes)
    requires IsRate(r) && IsDomain(p)
    ensures s == AbsorbBlocks(f, r, Fresh().s, m, p)
  {
    hide XorLanes, LastBlock;
    s := seq(25, i => ZERO);
    var m' := m;
    while |m'| >= r
      invariant AbsorbBlocks(f, r, s, m', p) == AbsorbBlocks(f, r, Fresh().s, m, p)
      decreases |m'|
    {
      s := XorBlock(s, r / 8, m'[..r]);
      s := f(s);
      m' := m'[r..];
    }
    var t := PadBuffer(r, m', p);
    s := XorBlock(s, r / 8, t[..r]);
  }

  /** keccak_squeezeblocks: the output and the state it leaves. */
  method SqueezeOnce(f: Permutation, r: nat, s: Lanes, n: nat) returns (h: seq<Byte>, s': Lanes)
    requires IsRate(r)
    ensures h == SqueezeBlocks(f, r, s, n) && State(s', 0) == After(f, r, State(s, 0), n * r)
  {
    hide StateBytes, Drain, After;
    h, s' := [], s;
    AfterNone(f, r, State(s, 0));
    for k := 0 to n
      invariant h == Drain(f, r, State(s, 0), k * r) && State(s', 0) == After(f, r, State(s, 0), k * r)
    {
      DrainBlock(f, r, s');
      DrainConcat(f, r, State(s, 0), k * r, r);
      assert (k + 1) * r == k * r + r;
      s' := f(s');
      h := h + StateBytes(r, s');
    }
    SqueezeAgrees(f, r, s, n);
  }

  /** shake128 and shake256: whole blocks first, then the start of one more block if bytes are missing. */
  method Shake(f: Permutation, r: nat, input: seq<Byte>, outlen: nat) returns (output: seq<Byte>)
    requires IsRate(r)
    ensures output == OneShot(f, r, 0x1F, input, outlen)
  {
    hide AbsorbBlocks, SqueezeBlocks, Drain, After, Feed, OneShot, StateBytes;
    DivisionParts(outlen, r);
    var nblocks := outlen / r;
    var s := AbsorbOnce(f, r, input, 0x1F);
    AbsorbAgrees(f, r, Fresh().s, input, 0x1F);
    OneShotAgrees(f, r, 0x1F, input, outlen);
    SqueezeAgrees(f, r, s, nblocks);
    ghost var start := State(s, 0);
    output, s := SqueezeOnce(f, r, s, nblocks);
    var missing := outlen - nblocks * r;
    if missing > 0 {
      var t, s'' := SqueezeOnce(f, r, s, 1);
      SqueezeAgrees(f, r, s, 1);
      DrainPrefix(f, r, State(s, 0), missing, 1 * r);
      DrainConcat(f, r, start, nblocks * r, missing);
      output := output + t[..missing];
    }
  }
}
