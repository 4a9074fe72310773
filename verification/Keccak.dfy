/** fips202.c around the permutation: the sponge byte by byte and block by block, and why the two agree. */
module Keccak {
  import opened Arith
  import opened LaneOps

  /** The permutation of the state; which one it is does not matter here. */
  type Permutation = Lanes -> Lanes

  // ---- The byte-by-byte sponge ----

  /** Lanes and the position word. */
  datatype State = State(s: Lanes, pos: nat)

  predicate IsRate(r: nat) { 0 < r <= 200 && r % 8 == 0 }

  /** One absorbed byte: xor, and permute when the rate is full. */
  function Feed1(f: Permutation, r: nat, st: State, b: Byte): (t: State)
    requires IsRate(r) && st.pos < r
    ensures t.pos < r
  {
    var s := XorByte(st.s, st.pos, b);
    if st.pos + 1 == r then State(f(s), 0) else State(s, st.pos + 1)
  }

  function Feed(f: Permutation, r: nat, st: State, m: seq<Byte>): (t: State)
    requires IsRate(r) && st.pos < r
    ensures t.pos < r
    decreases |m|
  {
    if m == [] then st else Feed(f, r, Feed1(f, r, st, m[0]), m[1..])
  }

  /** keccak_inc_init */
  function Fresh(): State { State(seq(25, i => ZERO), 0) }

  /** keccak_inc_finalize */
  function Pad(r: nat, p: Byte, st: State): State
    requires IsRate(r) && st.pos < r
  {
    State(XorByte(XorByte(st.s, st.pos, p), r - 1, 128), 0)
  }

  /** One squeezed byte: pos counts the bytes of the current block not yet given out. */
  function Refresh(f: Permutation, r: nat, st: State): (t: State)
    requires IsRate(r) && st.pos <= r
    ensures 0 < t.pos <= r
  {
    if st.pos == 0 then State(f(st.s), r) else st
  }

  function Drain(f: Permutation, r: nat, st: State, n: nat): (h: seq<Byte>)
    requires IsRate(r) && st.pos <= r
    ensures |h| == n
    decreases n
  {
    if n == 0 then []
    else
      var t := Refresh(f, r, st);
      [ByteAt(t.s, r - t.pos)] + Drain(f, r, State(t.s, t.pos - 1), n - 1)
  }

  function After(f: Permutation, r: nat, st: State, n: nat): (t: State)
    requires IsRate(r) && st.pos <= r
    ensures t.pos <= r
    decreases n
  {
    if n == 0 then st
    else
      var t := Refresh(f, r, st);
      After(f, r, State(t.s, t.pos - 1), n - 1)
  }

  /** Absorbing in two pieces is absorbing their concatenation. */
  lemma {:induction false} FeedConcat(f: Permutation, r: nat, st: State, a: seq<Byte>, b: seq<Byte>)
    requires IsRate(r) && st.pos < r
    ensures Feed(f, r, st, a + b) == Feed(f, r, Feed(f, r, st, a), b)
    decreases |a|
  {
    hide Feed1;
    if a == [] {
      assert a + b == b;
    } else {
      assert (a + b)[1..] == a[1..] + b;
      FeedConcat(f, r, Feed1(f, r, st, a[0]), a[1..], b);
    }
  }

  /** Squeezing in two pieces is squeezing their total. */
  lemma {:induction false} DrainConcat(f: Permutation, r: nat, st: State, m: nat, n: nat)
    requires IsRate(r) && st.pos <= r
    ensures Drain(f, r, st, m + n) == Drain(f, r, st, m) + Drain(f, r, After(f, r, st, m), n)
    ensures After(f, r, st, m + n) == After(f, r, After(f, r, st, m), n)
    decreases m
  {
    hide Refresh, ByteAt;
    if m > 0 {
      var t := Refresh(f, r, st);
      DrainConcat(f, r, State(t.s, t.pos - 1), m - 1, n);
    } else {
      assert [] + Drain(f, r, st, n) == Drain(f, r, st, n);
    }
  }

  /** While absorbing, the position word counts the bytes absorbed modulo the rate. */
  lemma {:induction false} FeedPos(f: Permutation, r: nat, st: State, m: seq<Byte>, n: int)
    requires IsRate(r) && st.pos == n % r
    ensures Feed(f, r, st, m).pos == (n + |m|) % r
    decreases |m|
  {
    hide XorByte;
    if m != [] {
      RemainderSteps(n, r);
      FeedPos(f, r, Feed1(f, r, st, m[0]), m[1..], n + 1);
    }
  }

  /** While squeezing, the position word counts down modulo the rate. */
  lemma {:induction false} AfterPos(f: Permutation, r: nat, st: State, d: int, n: nat)
    requires IsRate(r) && st.pos == d % r
    ensures After(f, r, st, n).pos == (d - n) % r
    decreases n
  {
    if n > 0 {
      RemainderSteps(d, r);
      var t := Refresh(f, r, st);
      AfterPos(f, r, State(t.s, t.pos - 1), d - 1, n - 1);
    }
  }

  function Concat(pieces: seq<seq<Byte>>): seq<Byte>
  {
    if pieces == [] then [] else pieces[0] + Concat(pieces[1..])
  }

  function FeedAll(f: Permutation, r: nat, st: State, pieces: seq<seq<Byte>>): (t: State)
    requires IsRate(r) && st.pos < r
    ensures t.pos < r
    decreases |pieces|
  {
    if pieces == [] then st else FeedAll(f, r, Feed(f, r, st, pieces[0]), pieces[1..])
  }

  lemma {:induction false} FeedPieces(f: Permutation, r: nat, st: State, pieces: seq<seq<Byte>>)
    requires IsRate(r) && st.pos < r
    ensures FeedAll(f, r, st, pieces) == Feed(f, r, st, Concat(pieces))
    decreases |pieces|
  {
    if pieces != [] {
      FeedPieces(f, r, Feed(f, r, st, pieces[0]), pieces[1..]);
      FeedConcat(f, r, st, pieces[0], Concat(pieces[1..]));
    }
  }

  function Total(sizes: seq<nat>): nat { if sizes == [] then 0 else sizes[0] + Total(sizes[1..]) }

  function DrainAll(f: Permutation, r: nat, st: State, sizes: seq<nat>): seq<Byte>
    requires IsRate(r) && st.pos <= r
    decreases |sizes|
  {
    if sizes == [] then []
    else Drain(f, r, st, sizes[0]) + DrainAll(f, r, After(f, r, st, sizes[0]), sizes[1..])
  }

  lemma {:induction false} DrainPieces(f: Permutation, r: nat, st: State, sizes: seq<nat>)
    requires IsRate(r) && st.pos <= r
    ensures DrainAll(f, r, st, sizes) == Drain(f, r, st, Total(sizes))
    decreases |sizes|
  {
    hide Drain, After;
    if sizes == [] {
      AfterNone(f, r, st);
    } else {
      DrainPieces(f, r, After(f, r, st, sizes[0]), sizes[1..]);
      DrainConcat(f, r, st, sizes[0], Total(sizes[1..]));
    }
  }

  /** The position word over a whole run, whatever the pieces: the number of bytes absorbed modulo the rate, and after
      the padding minus the number of bytes squeezed modulo the rate, which is how many are left in the block. */
  lemma PositionWord(f: Permutation, r: nat, p: Byte, pieces: seq<seq<Byte>>, n: nat)
    requires IsRate(r)
    ensures FeedAll(f, r, Fresh(), pieces).pos == |Concat(pieces)| % r
    ensures After(f, r, Pad(r, p, FeedAll(f, r, Fresh(), pieces)), n).pos == (0 - n as int) % r
  {
    hide XorByte, Feed, After;
    FeedPieces(f, r, Fresh(), pieces);
    FeedPos(f, r, Fresh(), Concat(pieces), 0);
    AfterPos(f, r, Pad(r, p, FeedAll(f, r, Fresh(), pieces)), 0, n);
  }

  // ---- The block-wise one-shot sponge ----

  /** The domain bytes of SHAKE and SHA-3. */
  predicate IsDomain(p: Byte) { p == 0x1F || p == 0x06 }

  /** The last block: the rest of the message, the domain byte, zeros, and 128 or-ed into the last byte. */
  function LastBlock(r: nat, m: seq<Byte>, p: Byte): (t: seq<Byte>)
    requires |m| < r && IsDomain(p)
    ensures |t| == r
  {
    var t := m + [p] + Zeros(r - 1 - |m|);
    t[r - 1 := if |m| == r - 1 then p + 128 else 128]
  }

  /** keccak_absorb from state s on: whole blocks are xored in and permuted, the last one is padded. */
  function AbsorbBlocks(f: Permutation, r: nat, s: Lanes, m: seq<Byte>, p: Byte): Lanes
    requires IsRate(r) && IsDomain(p)
    decreases |m|
  {
    if |m| >= r then AbsorbBlocks(f, r, f(XorLanes(s, 0, r / 8, m[..r])), m[r..], p)
    else XorLanes(s, 0, r / 8, LastBlock(r, m, p))
  }

  /** The first r bytes of the state. */
  function StateBytes(r: nat, s: Lanes): (h: seq<Byte>)
    requires r <= 200
    ensures |h| == r
  {
    seq(r, i requires 0 <= i < r => ByteAt(s, i))
  }

  /** keccak_squeezeblocks */
  function SqueezeBlocks(f: Permutation, r: nat, s: Lanes, n: nat): (h: seq<Byte>)
    requires IsRate(r)
    ensures |h| == n * r
    decreases n
  {
    if n == 0 then []
    else
      assert n * r == (n - 1) * r + r;
      StateBytes(r, f(s)) + SqueezeBlocks(f, r, f(s), n - 1)
  }

  /** shake128 and shake256: outlen bytes of as many blocks as it takes. */
  function OneShot(f: Permutation, r: nat, p: Byte, m: seq<Byte>, outlen: nat): (h: seq<Byte>)
    requires IsRate(r) && IsDomain(p)
    ensures |h| == outlen
  {
    SqueezeBlocks(f, r, AbsorbBlocks(f, r, Fresh().s, m, p), BlocksFor(r, outlen))[..outlen]
  }

  /** Enough blocks for n bytes. */
  function BlocksFor(r: nat, n: nat): (k: nat)
    requires 0 < r
    ensures n <= k * r
  {
    DivisionParts(n, r);
    n / r + 1
  }

  lemma DivisionParts(n: nat, r: nat)
    requires 0 < r
    ensures 0 <= n / r && n == n / r * r + n % r && n <= (n / r + 1) * r
  {
  }

  // ---- The two agree ----

  lemma TopBit(p: Byte)
    requires IsDomain(p)
    ensures Lift(p + 128) == Xor(Lift(p), Lift(128))
  {
    assert Lift(0x1F).bits == 0x1F && Lift(0x06).bits == 0x06 && Lift(128).bits == 0x80;
    assert Lift(0x9F).bits == 0x9F && Lift(0x86).bits == 0x86;
  }

  /** Bytes that do not fill the rate are all xored in; the byte that fills it triggers the permutation. */
  lemma {:induction false} FeedBlock(f: Permutation, r: nat, st: State, m: seq<Byte>)
    requires IsRate(r) && st.pos < r && st.pos + |m| <= r
    ensures st.pos + |m| < r ==> Feed(f, r, st, m) == State(XorAll(st.s, st.pos, m), st.pos + |m|)
    ensures st.pos + |m| == r ==> Feed(f, r, st, m) == State(f(XorAll(st.s, st.pos, m)), 0)
    decreases |m|
  {
    hide XorByte;
    if m != [] {
      if st.pos + 1 == r {
        assert m[1..] == [];
      } else {
        FeedBlock(f, r, Feed1(f, r, st, m[0]), m[1..]);
      }
    }
  }

  /** The last block of the one-shot form is what finalizing makes of the bytes absorbed so far. */
  lemma PadBlock(r: nat, s: Lanes, m: seq<Byte>, p: Byte)
    requires IsRate(r) && |m| < r && IsDomain(p)
    ensures XorLanes(s, 0, r / 8, LastBlock(r, m, p)) == Pad(r, p, State(XorAll(s, 0, m), |m|)).s
  {
    hide XorByte, XorAll, XorLanes;
    var t, u, n := LastBlock(r, m, p), XorAll(s, 0, m), |m|;
    LanesAreBytes(s, 0, r / 8, t);
    if n == r - 1 {
      assert t == m + [p + 128];
      XorAllConcat(s, 0, m, [p + 128]);
      XorOne(u, n, p + 128);
      XorTwice(u, n, p);
    } else {
      var z := Zeros(r - 2 - n);
      assert t == m + ([p] + (z + [128]));
      XorAllConcat(s, 0, m, [p] + (z + [128]));
      XorAllConcat(u, n, [p], z + [128]);
      XorOne(u, n, p);
      var v := XorByte(u, n, p);
      XorAllConcat(v, n + 1, z, [128]);
      XorZeros(v, n + 1, r - 2 - n);
      XorOne(v, r - 1, 128);
    }
  }

  lemma XorTwice(s: Lanes, pos: nat, p: Byte)
    requires pos < 200 && pos % 8 == 7 && IsDomain(p)
    ensures XorByte(s, pos, p + 128) == XorByte(XorByte(s, pos, p), pos, 128)
  {
    hide Lift, XorBits, Shl8;
    TopBit(p);
    ShiftXor(s[pos / 8], Lift(p), Lift(128));
  }

  /** Block-wise and byte-wise absorption leave the same state. */
  lemma {:induction false} AbsorbAgrees(f: Permutation, r: nat, s: Lanes, m: seq<Byte>, p: Byte)
    requires IsRate(r) && IsDomain(p)
    ensures AbsorbBlocks(f, r, s, m, p) == Pad(r, p, Feed(f, r, State(s, 0), m)).s
    decreases |m|
  {
    hide XorAll, XorLanes, Pad, LastBlock, Feed;
    if |m| >= r {
      var b := m[..r];
      assert m == b + m[r..];
      FeedConcat(f, r, State(s, 0), b, m[r..]);
      FeedBlock(f, r, State(s, 0), b);
      LanesAreBytes(s, 0, r / 8, b);
      AbsorbAgrees(f, r, f(XorAll(s, 0, b)), m[r..], p);
    } else {
      FeedBlock(f, r, State(s, 0), m);
      PadBlock(r, s, m, p);
    }
  }

  lemma DrainOne(f: Permutation, r: nat, st: State, n: nat)
    requires IsRate(r) && 0 < n && 0 < st.pos <= r
    ensures var t := State(st.s, st.pos - 1);
            Drain(f, r, st, n) == [ByteAt(st.s, r - st.pos)] + Drain(f, r, t, n - 1) &&
            After(f, r, st, n) == After(f, r, t, n - 1)
  {
    hide ByteAt;
  }

  /** Bytes still left in the block come straight from the state. */
  lemma {:induction false} DrainLeft(f: Permutation, r: nat, st: State, n: nat)
    requires IsRate(r) && n <= st.pos <= r
    ensures After(f, r, st, n) == State(st.s, st.pos - n)
    ensures forall i :: 0 <= i < n ==> Drain(f, r, st, n)[i] == ByteAt(st.s, r - st.pos + i)
    decreases n
  {
    hide ByteAt, Drain, After;
    if n == 0 {
      AfterNone(f, r, st);
    } else {
      var t := State(st.s, st.pos - 1);
      DrainLeft(f, r, t, n - 1);
      DrainOne(f, r, st, n);
      forall i | 0 <= i < n
        ensures Drain(f, r, st, n)[i] == ByteAt(st.s, r - st.pos + i)
      {
        if i > 0 {
          assert Drain(f, r, st, n)[i] == Drain(f, r, t, n - 1)[i - 1];
        }
      }
    }
  }

  /** With nothing left, the next n > 0 bytes start with a permutation. */
  lemma DrainFresh(f: Permutation, r: nat, s: Lanes, n: nat)
    requires IsRate(r) && 0 < n
    ensures Drain(f, r, State(s, 0), n) == Drain(f, r, State(f(s), r), n)
    ensures After(f, r, State(s, 0), n) == After(f, r, State(f(s), r), n)
  {
    hide ByteAt;
  }

  lemma DrainBlock(f: Permutation, r: nat, s: Lanes)
    requires IsRate(r)
    ensures Drain(f, r, State(s, 0), r) == StateBytes(r, f(s)) && After(f, r, State(s, 0), r) == State(f(s), 0)
  {
    hide ByteAt, Drain, After;
    DrainFresh(f, r, s, r);
    DrainLeft(f, r, State(f(s), r), r);
  }

  /** Block-wise and byte-wise squeezing give the same bytes. */
  lemma {:induction false} SqueezeAgrees(f: Permutation, r: nat, s: Lanes, n: nat)
    requires IsRate(r)
    ensures SqueezeBlocks(f, r, s, n) == Drain(f, r, State(s, 0), n * r)
    decreases n
  {
    hide StateBytes, Drain, After;
    if n == 0 {
      DrainNone(f, r, State(s, 0));
    } else {
      assert n * r == r + (n - 1) * r;
      DrainBlock(f, r, s);
      DrainConcat(f, r, State(s, 0), r, (n - 1) * r);
      SqueezeAgrees(f, r, f(s), n - 1);
    }
  }

  lemma DrainNone(f: Permutation, r: nat, st: State)
    requires IsRate(r) && st.pos <= r
    ensures Drain(f, r, st, 0) == []
  {
  }

  lemma DrainPrefix(f: Permutation, r: nat, st: State, m: nat, n: nat)
    requires IsRate(r) && st.pos <= r && m <= n
    ensures Drain(f, r, st, n)[..m] == Drain(f, r, st, m)
  {
    DrainConcat(f, r, st, m, n - m);
  }

  /** The one-shot function gives the bytes of the byte-by-byte sponge. */
  lemma OneShotAgrees(f: Permutation, r: nat, p: Byte, m: seq<Byte>, n: nat)
    requires IsRate(r) && IsDomain(p)
    ensures OneShot(f, r, p, m, n) == Drain(f, r, Pad(r, p, Feed(f, r, Fresh(), m)), n)
  {
    hide AbsorbBlocks, SqueezeBlocks, Drain, Feed;
    var k := BlocksFor(r, n);
    AbsorbAgrees(f, r, Fresh().s, m, p);
    var st := Pad(r, p, Feed(f, r, Fresh(), m));
    SqueezeAgrees(f, r, st.s, k);
    DrainPrefix(f, r, st, n, k * r);
  }

  /** However the message is cut for absorbing and the output for squeezing, the incremental interface gives
      what the one-shot function gives for the whole message and the whole length. */
  lemma IncrementalIsOneShot(f: Permutation, r: nat, p: Byte, pieces: seq<seq<Byte>>, sizes: seq<nat>)
    requires IsRate(r) && IsDomain(p)
    ensures DrainAll(f, r, Pad(r, p, FeedAll(f, r, Fresh(), pieces)), sizes) ==
            OneShot(f, r, p, Concat(pieces), Total(sizes))
  {
    hide OneShot, Drain, DrainAll, Feed, FeedAll, Pad;
    FeedPieces(f, r, Fresh(), pieces);
    var st := Pad(r, p, Feed(f, r, Fresh(), Concat(pieces)));
    PadPos(r, p, Feed(f, r, Fresh(), Concat(pieces)));
    DrainPieces(f, r, st, sizes);
    OneShotAgrees(f, r, p, Concat(pieces), Total(sizes));
  }

  lemma PadPos(r: nat, p: Byte, st: State)
    requires IsRate(r) && st.pos < r
    ensures Pad(r, p, st).pos == 0
  {
  }

  lemma AfterNone(f: Permutation, r: nat, st: State)
    requires IsRate(r) && st.pos <= r
    ensures After(f, r, st, 0) == st && Drain(f, r, st, 0) == []
  {
  }
}
