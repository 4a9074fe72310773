/** Rejection sampling of the matrix and of the short secrets, in one pass and block by block. */
module Sampling {
  import opened Arith
  import opened PolySpec
  import opened BitPack
  import opened Options

  /** An extendable-output function: byte i of the output stream on a given input. */
  type Xof = (seq<Byte>, nat) -> Byte

  datatype Hash = Hash(shake128: Xof, shake256: Xof)

  /** The n output bytes from position start. */
  function Squeeze(x: Xof, input: seq<Byte>, start: nat, n: nat): (r: seq<Byte>)
    ensures |r| == n
  {
    seq(n, i requires 0 <= i < n => x(input, start + i))
  }

  function Nonce(n: nat): seq<Byte> { [n % 256, n / 256 % 256] }

  /** One three-byte candidate of rej_uniform. */
  function Candidate(b0: Byte, b1: Byte, b2: Byte): (r: seq<int>)
    ensures |r| <= 1 && Canonical(r)
  {
    var t := Low(Or(Or(b0, b1, 256), b2, 0x1_0000), 0x80_0000);
    if t < Q then [t] else []
  }

  /** Everything a rejection pass over the whole byte string accepts. */
  function Accepted(b: seq<Byte>): (r: seq<int>)
    ensures Canonical(r)
  {
    if |b| < 3 then [] else Candidate(b[0], b[1], b[2]) + Accepted(b[3..])
  }

  lemma {:induction false} AcceptedConcat(a: seq<Byte>, b: seq<Byte>)
    requires |a| % 3 == 0
    ensures Accepted(a + b) == Accepted(a) + Accepted(b)
  {
    hide Candidate;
    if a == [] {
      assert a + b == b;
    } else {
      assert (a + b)[3..] == a[3..] + b;
      AcceptedConcat(a[3..], b);
    }
  }

  lemma AcceptedShort(a: seq<Byte>)
    requires |a| < 3
    ensures Accepted(a) == []
  {
  }

  lemma AcceptedStep(a: seq<Byte>)
    requires |a| >= 3
    ensures Accepted(a) == Candidate(a[0], a[1], a[2]) + Accepted(a[3..])
  {
  }

  /** A trailing piece shorter than a candidate contributes nothing yet. */
  lemma AcceptedCarry(a: seq<Byte>, carry: seq<Byte>, b: seq<Byte>)
    requires |a| % 3 == 0 && |carry| < 3
    ensures Accepted(a + carry) == Accepted(a)
    ensures Accepted(a + carry + b) == Accepted(a + carry) + Accepted(carry + b)
  {
    hide Accepted;
    AcceptedShort(carry);
    AcceptedConcat(a, carry);
    assert a + carry + b == a + (carry + b);
    AcceptedConcat(a, carry + b);
  }

  lemma AcceptedPrefix(a: seq<Byte>, b: seq<Byte>)
    ensures Accepted(a) <= Accepted(a + b)
  {
    hide Accepted;
    var n := |a| / 3 * 3;
    AcceptedCarry(a[..n], a[n..], b);
    assert a[..n] + a[n..] == a;
  }

  /** The first 256 coefficients accepted from the stream, if n blocks after the first five hold enough. */
  function UniformPoly(x: Xof, seed: seq<Byte>, nonce: nat, n: nat): (r: Option<Poly>)
    ensures r.Some? ==> Canonical(r.value)
  {
    var s := Accepted(Squeeze(x, seed + Nonce(nonce), 0, 840 + 168 * n));
    if |s| < 256 then None else Some(s[..256])
  }

  lemma NextAccepted(all: seq<int>, ctr: nat, t: int, more: seq<int>)
    requires ctr <= |all| && all[ctr..] == [t] + more
    ensures ctr < |all| && all[ctr] == t && all[ctr + 1..] == more && all[..ctr + 1] == all[..ctr] + [t]
  {
    assert all[ctr] == all[ctr..][0];
    assert all[ctr..][1..] == all[ctr + 1..];
  }

  /** rej_uniform: fills a from start with at most len coefficients. */
  method RejUniform(a: array<Int32>, start: nat, len: nat, buf: array<Byte>, buflen: nat) returns (ctr: nat)
    requires start + len <= a.Length && buflen <= buf.Length
    modifies a
    ensures ctr == if |Accepted(buf[..buflen])| < len then |Accepted(buf[..buflen])| else len
    ensures a[..] == old(a[..start]) + Accepted(buf[..buflen])[..ctr] + old(a[start + ctr..])
  {
    hide Canonical, Accepted, Low;
    ctr := 0;
    var pos := 0;
    ghost var all := Accepted(buf[..buflen]);
    assert buf[0..buflen] == buf[..buflen];
    while ctr < len && pos + 3 <= buflen
      invariant 0 <= ctr <= len && 0 <= pos <= buflen && ctr <= |all|
      invariant all[ctr..] == Accepted(buf[pos..buflen])
      invariant a[start..start + ctr] == all[..ctr]
      invariant a[..start] == old(a[..start])
      invariant a[start + ctr..] == old(a[start + ctr..])
      decreases buflen - pos
    {
      ghost var rest: seq<Byte> := buf[pos..buflen];
      AcceptedStep(rest);
      assert rest[3..] == buf[pos + 3..buflen];
      var t := Low(Or(Or(buf[pos], buf[pos + 1], 256), buf[pos + 2], 0x1_0000), 0x80_0000);
      pos := pos + 3;
      if t < Q {
        NextAccepted(all, ctr, t, Accepted(rest[3..]));
        a[start + ctr] := t;
        ctr := ctr + 1;
      }
    }
    if pos + 3 > buflen {
      AcceptedShort(buf[pos..buflen]);
    }
  }

  /** Squeezed bytes go to buf from position off on. */
  method SqueezeInto(buf: array<Byte>, off: nat, x: Xof, input: seq<Byte>, from: nat, n: nat)
    requires off + n <= buf.Length
    modifies buf
    ensures buf[off..off + n] == Squeeze(x, input, from, n)
    ensures buf[..off] == old(buf[..off])
    ensures buf[off + n..] == old(buf[off + n..])
  {
    hide Squeeze;
    SqueezeNone(x, input, from);
    for i := 0 to n
      invariant buf[off..off + i] == Squeeze(x, input, from, i)
      invariant buf[..off] == old(buf[..off])
      invariant buf[off + n..] == old(buf[off + n..])
    {
      SqueezeConcat(x, input, from, i, 1);
      SqueezeOne(x, input, from + i);
      buf[off + i] := x(input, from + i);
      assert buf[off..off + i + 1] == buf[off..off + i] + [buf[off + i]];
    }
  }

  lemma SqueezeNone(x: Xof, input: seq<Byte>, from: nat)
    ensures Squeeze(x, input, from, 0) == []
  {
  }

  lemma SqueezeOne(x: Xof, input: seq<Byte>, from: nat)
    ensures Squeeze(x, input, from, 1) == [x(input, from)]
  {
  }

  lemma SqueezeConcat(x: Xof, input: seq<Byte>, from: nat, m: nat, n: nat)
    ensures Squeeze(x, input, from, m + n) == Squeeze(x, input, from, m) + Squeeze(x, input, from + m, n)
  {
  }

  /** The carry of one refill: what has been accepted so far, and what the next block adds. */
  lemma Refill(x: Xof, input: seq<Byte>, total: nat, carry: seq<Byte>)
    requires |carry| == total % 3 && |carry| <= total
    requires carry == Squeeze(x, input, total - |carry|, |carry|)
    ensures Accepted(Squeeze(x, input, 0, total + 168)) ==
            Accepted(Squeeze(x, input, 0, total)) + Accepted(carry + Squeeze(x, input, total, 168))
  {
    hide Accepted, Squeeze;
    var m := total - |carry|;
    SqueezeConcat(x, input, 0, total, 168);
    SqueezeConcat(x, input, 0, m, |carry|);
    AcceptedCarry(Squeeze(x, input, 0, m), carry, Squeeze(x, input, total, 168));
  }

  /** The bytes b end where the stream has been read up to, so its unused tail is the stream's. */
  ghost predicate Carrying(b: seq<Byte>, x: Xof, input: seq<Byte>, total: nat)
  {
    |b| <= total && |b| % 3 == total % 3 &&
    b[|b| - |b| % 3..] == Squeeze(x, input, total - |b| % 3, |b| % 3)
  }

  /** The unused tail moves to the front of the buffer. */
  method CarryOver(buf: array<Byte>, buflen: nat, off: nat)
    requires 2 * off <= buflen <= buf.Length
    modifies buf
    ensures buf[..off] == old(buf[buflen - off..buflen])
  {
    for i := 0 to off
      invariant buf[..i] == old(buf[buflen - off..buflen - off + i])
      invariant buf[off..] == old(buf[off..])
    {
      assert buf[buflen - off + i] == buf[off..][buflen - off + i - off];
      buf[i] := buf[buflen - off + i];
    }
  }

  lemma CarryTail(b: seq<Byte>, x: Xof, input: seq<Byte>, total: nat)
    requires Carrying(b, x, input, total)
    ensures |b| % 3 == total % 3 && total % 3 <= |b| <= total
    ensures b[|b| - |b| % 3..] == Squeeze(x, input, total - |b| % 3, |b| % 3)
  {
    hide Squeeze;
  }

  lemma CarryNext(b: seq<Byte>, x: Xof, input: seq<Byte>, total: nat, carry: seq<Byte>)
    requires |carry| == total % 3 && |carry| <= total && carry == Squeeze(x, input, total - |carry|, |carry|)
    requires b == carry + Squeeze(x, input, total, 168)
    ensures Carrying(b, x, input, total + 168)
    ensures Accepted(Squeeze(x, input, 0, total + 168)) == Accepted(Squeeze(x, input, 0, total)) + Accepted(b)
  {
    hide Accepted, Squeeze;
    Refill(x, input, total, carry);
    CarrySuffix(x, input, total, carry);
    assert |b| % 3 == (total + 168) % 3;
  }

  /** One refill of poly_uniform: the unused tail moves to the front and one block follows it. */
  method NextBlock(buf: array<Byte>, buflen: nat, x: Xof, input: seq<Byte>, total: nat) returns (len: nat)
    requires buf.Length == 842 && 168 <= buflen <= 842
    requires Carrying(buf[..buflen], x, input, total)
    modifies buf
    ensures 168 <= len <= 170 && Carrying(buf[..len], x, input, total + 168)
    ensures Accepted(Squeeze(x, input, 0, total + 168)) ==
            Accepted(Squeeze(x, input, 0, total)) + Accepted(buf[..len])
  {
    hide Accepted, Squeeze, Carrying;
    var off := buflen % 3;
    CarryTail(buf[..buflen], x, input, total);
    ghost var carry: seq<Byte> := buf[buflen - off..buflen];
    assert carry == buf[..buflen][buflen - off..];
    CarryOver(buf, buflen, off);
    SqueezeInto(buf, off, x, input, total, 168);
    len := 168 + off;
    assert buf[..len] == buf[..off] + buf[off..off + 168];
    CarryNext(buf[..len], x, input, total, carry);
  }

  /** What the buffer holds, taken into a partly filled polynomial. */
  method TakeBuffer(a: array<Int32>, start: nat, buf: array<Byte>, buflen: nat, ghost all: seq<int>)
    returns (ctr: nat)
    requires start < 256 == a.Length && buflen <= buf.Length && Filled(a[..], start, all)
    modifies a
    ensures Filled(a[..], ctr, all + Accepted(buf[..buflen])) && ctr <= 256
  {
    hide Accepted, Canonical, Filled, Min;
    ghost var before: seq<int> := a[..];
    ghost var add := Accepted(buf[..buflen]);
    var more := RejUniform(a, start, 256 - start, buf, buflen);
    FilledMore(before, start, all, add, a[..], more) by { MinIs(|add|, 256 - start); }
    ctr := start + more;
  }

  /** One round of the loop of poly_uniform: one more block, and what it yields. */
  method TakeBlock(a: array<Int32>, start: nat, buf: array<Byte>, buflen: nat, x: Xof, input: seq<Byte>, total: nat)
    returns (ctr: nat, len: nat)
    requires start < 256 == a.Length && buf.Length == 842 && 168 <= buflen <= 842
    requires Carrying(buf[..buflen], x, input, total)
    requires Filled(a[..], start, Accepted(Squeeze(x, input, 0, total)))
    modifies a, buf
    ensures ctr <= 256 && 168 <= len <= 842 && Carrying(buf[..len], x, input, total + 168)
    ensures Filled(a[..], ctr, Accepted(Squeeze(x, input, 0, total + 168)))
  {
    hide Accepted, Squeeze, Carrying, Filled;
    ghost var all := Accepted(Squeeze(x, input, 0, total));
    len := NextBlock(buf, buflen, x, input, total);
    ctr := TakeBuffer(a, start, buf, len, all);
  }

  /** The first request of poly_uniform: five blocks, and what they yield. */
  method TakeFirst(a: array<Int32>, buf: array<Byte>, x: Xof, input: seq<Byte>) returns (ctr: nat)
    requires a.Length == 256 && buf.Length == 842
    modifies a, buf
    ensures ctr <= 256 && Carrying(buf[..840], x, input, 840)
    ensures Filled(a[..], ctr, Accepted(Squeeze(x, input, 0, 840)))
  {
    hide Accepted, Squeeze, Carrying, Filled;
    SqueezeInto(buf, 0, x, input, 0, 840);
    assert buf[..840] == buf[0..0 + 840];
    CarryingFirst(buf[..840], x, input);
    FilledNone(a[..]);
    ctr := TakeBuffer(a, 0, buf, 840, []);
    assert [] + Accepted(buf[..840]) == Accepted(buf[..840]);
  }

  /** poly_uniform: block by block, with refills; n bounds the number of refills. */
  method PolyUniform(x: Xof, seed: seq<Byte>, nonce: nat, n: nat) returns (r: Option<Poly>)
    ensures r == UniformPoly(x, seed, nonce, n)
  {
    hide Accepted, Squeeze, Canonical, Carrying, Filled, Nonce, UniformPoly;
    var input := seed + Nonce(nonce);
    var a := new Int32[256](i => 0);
    var buf := new Byte[842](i => 0);
    var ctr := TakeFirst(a, buf, x, input);
    var buflen, used, total := 840, 0, 840;
    while ctr < 256 && used < n
      invariant used <= n && total == 840 + 168 * used && 168 <= buflen <= 842 && ctr <= 256
      invariant Carrying(buf[..buflen], x, input, total)
      invariant Filled(a[..], ctr, Accepted(Squeeze(x, input, 0, total)))
      decreases n - used
    {
      ctr, buflen := TakeBlock(a, ctr, buf, buflen, x, input, total);
      used := used + 1;
      total := total + 168;
    }
    UniformOutcome(x, seed, nonce, n, used, a[..], ctr);
    r := if ctr < 256 then None else Some(a[..]);
  }

  /** A full buffer, or an exhausted bound, settles the result. */
  lemma UniformOutcome(x: Xof, seed: seq<Byte>, nonce: nat, n: nat, used: nat, a: seq<int>, ctr: nat)
    requires used <= n && (used < n ==> ctr >= 256) && ctr <= 256
    requires Filled(a, ctr, Accepted(Squeeze(x, seed + Nonce(nonce), 0, 840 + 168 * used)))
    ensures |a| == 256 && UniformPoly(x, seed, nonce, n) == if ctr < 256 then None else Some(a)
  {
    hide Accepted, Squeeze, Canonical, Nonce;
    var input, total := seed + Nonce(nonce), 840 + 168 * used;
    Monotone(x, input, total, 168 * (n - used));
    assert total + 168 * (n - used) == 840 + 168 * n;
    FilledEnough(a, ctr, Accepted(Squeeze(x, input, 0, total)), Accepted(Squeeze(x, input, 0, 840 + 168 * n)));
  }

  lemma CarryingFirst(b: seq<Byte>, x: Xof, input: seq<Byte>)
    requires b == Squeeze(x, input, 0, 840)
    ensures Carrying(b, x, input, 840)
  {
  }

  /** The first ctr entries of a are the first entries accepted, and no more were accepted unless a is full. */
  ghost predicate Filled(a: seq<int>, ctr: nat, all: seq<int>)
  {
    |a| == 256 && ctr == Min(|all|, 256) && a[..ctr] == all[..ctr]
  }

  lemma FilledNone(a: seq<int>)
    requires |a| == 256
    ensures Filled(a, 0, [])
  {
  }

  lemma MinIs(a: nat, b: nat)
    ensures Min(a, b) == if a < b then a else b
  {
  }

  /** A full buffer already holds what any longer stream would give. */
  lemma FilledEnough(a: seq<int>, ctr: nat, all: seq<int>, more: seq<int>)
    requires Filled(a, ctr, all) && all <= more
    ensures ctr < 256 ==> |all| == ctr
    ensures ctr >= 256 ==> |more| >= 256 && a == more[..256]
  {
  }

  lemma FilledMore(a: seq<int>, ctr: nat, all: seq<int>, add: seq<int>, b: seq<int>, more: nat)
    requires Filled(a, ctr, all) && ctr < 256 && more == Min(|add|, 256 - ctr)
    requires b == a[..ctr] + add[..more] + a[ctr + more..]
    ensures Filled(b, ctr + more, all + add)
  {
  }

  /** The last bytes of carry and block are the last bytes squeezed. */
  lemma CarrySuffix(x: Xof, input: seq<Byte>, total: nat, carry: seq<Byte>)
    requires |carry| <= total && carry == Squeeze(x, input, total - |carry|, |carry|)
    ensures var b, k := carry + Squeeze(x, input, total, 168), (168 + |carry|) % 3;
            b[|b| - k..] == Squeeze(x, input, total + 168 - k, k)
  {
  }

  lemma Monotone(x: Xof, input: seq<Byte>, m: nat, n: nat)
    ensures Accepted(Squeeze(x, input, 0, m)) <= Accepted(Squeeze(x, input, 0, m + n))
  {
    hide Accepted;
    SqueezeConcat(x, input, 0, m, n);
    AcceptedPrefix(Squeeze(x, input, 0, m), Squeeze(x, input, m, n));
  }

  /** What one half of a byte contributes to rej_eta: 15 mod-5 residues for eta 2, 9 values for eta 4. */
  function EtaCandidate(eta: int, t: nat): (r: seq<int>)
    requires (eta == 2 || eta == 4) && t < 16
    ensures |r| <= 1 && Bounded(r, eta)
  {
    if eta == 2 then
      if t < 15 then [2 - (t - Shr(205 * t, 1024) * 5)] else []
    else
      if t < 9 then [4 - t] else []
  }

  /** Everything a pass of rej_eta over the whole byte string accepts, low half first. */
  function EtaAccepted(eta: int, b: seq<Byte>): (r: seq<int>)
    requires eta == 2 || eta == 4
    ensures Bounded(r, eta)
  {
    if b == [] then []
    else EtaCandidate(eta, Low(b[0], 16)) + EtaCandidate(eta, Shr(b[0], 16)) + EtaAccepted(eta, b[1..])
  }

  lemma {:induction false} EtaAcceptedConcat(eta: int, a: seq<Byte>, b: seq<Byte>)
    requires eta == 2 || eta == 4
    ensures EtaAccepted(eta, a + b) == EtaAccepted(eta, a) + EtaAccepted(eta, b)
  {
    hide EtaCandidate;
    if a == [] {
      assert a + b == b;
    } else {
      assert (a + b)[1..] == a[1..] + b;
      EtaAcceptedConcat(eta, a[1..], b);
    }
  }

  lemma EtaAcceptedStep(eta: int, b: seq<Byte>)
    requires (eta == 2 || eta == 4) && b != []
    ensures EtaAccepted(eta, b) ==
            EtaCandidate(eta, Low(b[0], 16)) + (EtaCandidate(eta, Shr(b[0], 16)) + EtaAccepted(eta, b[1..]))
  {
  }

  /** The first request covers two blocks for eta 4 and one for eta 2. */
  function EtaBlocks(eta: int): nat { if eta == 2 then 1 else 2 }

  /** The first 256 coefficients accepted, if n blocks after the first request hold enough. */
  function UniformEta(x: Xof, seed: seq<Byte>, nonce: nat, eta: int, n: nat): (r: Option<Poly>)
    requires eta == 2 || eta == 4
    ensures r.Some? ==> Bounded(r.value, eta)
  {
    var s := EtaAccepted(eta, Squeeze(x, seed + Nonce(nonce), 0, 136 * (EtaBlocks(eta) + n)));
    if |s| < 256 then None else Some(s[..256])
  }

  /** Stores the coefficient that half a byte yields, if it yields one. */
  method TakeCandidate(eta: int, a: array<Int32>, start: nat, len: nat, ctr: nat, t: nat,
                       ghost all: seq<int>, ghost tail: seq<int>)
    returns (next: nat)
    requires (eta == 2 || eta == 4) && t < 16 && ctr < len && start + len <= a.Length && ctr <= |all|
    requires a[start..start + ctr] == all[..ctr] && all[ctr..] == EtaCandidate(eta, t) + tail
    modifies a
    ensures ctr <= next <= len && next <= |all| && all[next..] == tail
    ensures a[start..start + next] == all[..next]
    ensures forall i :: 0 <= i < start || start + next <= i < a.Length ==> a[i] == old(a[i])
  {
    next := ctr;
    if eta == 2 {
      if t < 15 {
        a[start + ctr] := 2 - (t - Shr(205 * t, 1024) * 5);
        next := ctr + 1;
      }
    } else if t < 9 {
      a[start + ctr] := 4 - t;
      next := ctr + 1;
    }
    if next > ctr {
      assert all[ctr] == all[ctr..][0];
      assert all[ctr..][1..] == all[ctr + 1..];
    } else {
      assert all[ctr..] == tail;
    }
  }

  /** The two halves of one byte, the second only while there is room. */
  method TakeHalves(eta: int, a: array<Int32>, start: nat, len: nat, ctr: nat, b: Byte, ghost all: seq<int>,
                    ghost more: seq<Byte>)
    returns (next: nat)
    requires (eta == 2 || eta == 4) && ctr < len && start + len <= a.Length && ctr <= |all|
    requires a[start..start + ctr] == all[..ctr] && all[ctr..] == EtaAccepted(eta, [b] + more)
    modifies a
    ensures ctr <= next <= len && next <= |all| && (next < len ==> all[next..] == EtaAccepted(eta, more))
    ensures a[start..start + next] == all[..next]
    ensures forall i :: 0 <= i < start || start + next <= i < a.Length ==> a[i] == old(a[i])
  {
    hide Bounded, EtaAccepted, EtaCandidate, Low, Shr;
    EtaAcceptedStep(eta, [b] + more);
    assert ([b] + more)[1..] == more;
    var t0, t1 := Low(b, 16), HighHalf(b);
    ghost var tail := EtaCandidate(eta, t1) + EtaAccepted(eta, more);
    next := TakeCandidate(eta, a, start, len, ctr, t0, all, tail);
    if next < len {
      next := TakeCandidate(eta, a, start, len, next, t1, all, EtaAccepted(eta, more));
    }
  }

  /** rej_eta: fills a from start with at most len coefficients. */
  method RejEta(eta: int, a: array<Int32>, start: nat, len: nat, buf: array<Byte>, buflen: nat) returns (ctr: nat)
    requires (eta == 2 || eta == 4) && start + len <= a.Length && buflen <= buf.Length
    modifies a
    ensures ctr == if |EtaAccepted(eta, buf[..buflen])| < len then |EtaAccepted(eta, buf[..buflen])| else len
    ensures a[..] == old(a[..start]) + EtaAccepted(eta, buf[..buflen])[..ctr] + old(a[start + ctr..])
  {
    hide Bounded, EtaAccepted, EtaCandidate, Low, Shr;
    ctr := 0;
    var pos := 0;
    ghost var all := EtaAccepted(eta, buf[..buflen]);
    assert buf[0..buflen] == buf[..buflen];
    while ctr < len && pos < buflen
      invariant 0 <= ctr <= len && 0 <= pos <= buflen && ctr <= |all|
      invariant ctr < len ==> all[ctr..] == EtaAccepted(eta, buf[pos..buflen])
      invariant a[start..start + ctr] == all[..ctr]
      invariant forall i :: 0 <= i < start || start + ctr <= i < a.Length ==> a[i] == old(a[i])
      decreases buflen - pos
    {
      assert buf[pos..buflen] == [buf[pos]] + buf[pos + 1..buflen];
      ctr := TakeHalves(eta, a, start, len, ctr, buf[pos], all, buf[pos + 1..buflen]);
      pos := pos + 1;
    }
    if ctr < len {
      assert buf[pos..buflen] == [];
      EtaAcceptedNone(eta);
    }
  }

  lemma EtaBlocksPositive(eta: int)
    ensures 1 <= EtaBlocks(eta) <= 2
  {
  }

  lemma EtaAcceptedNone(eta: int)
    requires eta == 2 || eta == 4
    ensures EtaAccepted(eta, []) == []
  {
  }

  function HighHalf(b: Byte): (t: nat)
    ensures t < 16 && t == Shr(b, 16)
  {
    Shr(b, 16)
  }

  /** The next bytes of the stream, taken into a partly filled polynomial. */
  method TakeEtaBlock(eta: int, a: array<Int32>, start: nat, buf: array<Byte>, n: nat, x: Xof, input: seq<Byte>,
                      total: nat)
    returns (ctr: nat)
    requires (eta == 2 || eta == 4) && start < 256 == a.Length && n <= buf.Length
    requires Filled(a[..], start, EtaAccepted(eta, Squeeze(x, input, 0, total)))
    modifies a, buf
    ensures Filled(a[..], ctr, EtaAccepted(eta, Squeeze(x, input, 0, total + n))) && ctr <= 256
  {
    hide EtaAccepted, Squeeze, Bounded, Filled, Min;
    SqueezeInto(buf, 0, x, input, total, n);
    ghost var block: seq<Byte> := buf[..n];
    assert block == buf[0..0 + n];
    ghost var before: seq<int> := a[..];
    ghost var all, add := EtaAccepted(eta, Squeeze(x, input, 0, total)), EtaAccepted(eta, block);
    var more := RejEta(eta, a, start, 256 - start, buf, n);
    FilledMore(before, start, all, add, a[..], more) by { MinIs(|add|, 256 - start); }
    EtaNext(eta, x, input, total, n);
    ctr := start + more;
  }

  /** poly_uniform_eta: block by block; n bounds the number of further blocks. */
  method PolyUniformEta(x: Xof, seed: seq<Byte>, nonce: nat, eta: int, n: nat) returns (r: Option<Poly>)
    requires eta == 2 || eta == 4
    ensures r == UniformEta(x, seed, nonce, eta, n)
  {
    hide EtaAccepted, Squeeze, Bounded, Filled, Nonce, EtaBlocks, UniformEta;
    var input := seed + Nonce(nonce);
    var a := new Int32[256](i => 0);
    EtaBlocksPositive(eta);
    var total := 136 * EtaBlocks(eta);
    var buf := new Byte[total](i => 0);
    EtaNothing(eta, x, input, a[..]);
    var ctr := TakeEtaBlock(eta, a, 0, buf, total, x, input, 0);
    var used := 0;
    while ctr < 256 && used < n
      invariant used <= n && total == 136 * (EtaBlocks(eta) + used) && ctr <= 256
      invariant Filled(a[..], ctr, EtaAccepted(eta, Squeeze(x, input, 0, total)))
      decreases n - used
    {
      ctr := TakeEtaBlock(eta, a, ctr, buf, 136, x, input, total);
      used := used + 1;
      total := total + 136;
    }
    EtaOutcome(x, seed, nonce, eta, n, used, a[..], ctr, EtaAccepted(eta, Squeeze(x, input, 0, total)));
    r := if ctr < 256 then None else Some(a[..]);
  }

  lemma EtaNothing(eta: int, x: Xof, input: seq<Byte>, a: seq<int>)
    requires (eta == 2 || eta == 4) && |a| == 256
    ensures Filled(a, 0, EtaAccepted(eta, Squeeze(x, input, 0, 0)))
  {
  }

  /** A full buffer, or an exhausted bound, settles the result. */
  lemma EtaOutcome(x: Xof, seed: seq<Byte>, nonce: nat, eta: int, n: nat, used: nat, a: seq<int>, ctr: nat, all: seq<int>)
    requires (eta == 2 || eta == 4) && used <= n && (used < n ==> ctr >= 256)
    requires all == EtaAccepted(eta, Squeeze(x, seed + Nonce(nonce), 0, 136 * (EtaBlocks(eta) + used)))
    requires Filled(a, ctr, all)
    ensures UniformEta(x, seed, nonce, eta, n) == if ctr < 256 then None else Some(a)
  {
    hide EtaAccepted, Squeeze, Bounded, Filled, Nonce, EtaBlocks;
    var input, total := seed + Nonce(nonce), 136 * (EtaBlocks(eta) + used);
    EtaMonotone(eta, x, input, total, 136 * (n - used));
    assert total + 136 * (n - used) == 136 * (EtaBlocks(eta) + n);
    FilledEnough(a, ctr, all, EtaAccepted(eta, Squeeze(x, input, 0, 136 * (EtaBlocks(eta) + n))));
  }

  lemma EtaNext(eta: int, x: Xof, input: seq<Byte>, m: nat, n: nat)
    requires eta == 2 || eta == 4
    ensures EtaAccepted(eta, Squeeze(x, input, 0, m + n)) ==
            EtaAccepted(eta, Squeeze(x, input, 0, m)) + EtaAccepted(eta, Squeeze(x, input, m, n))
  {
    hide EtaAccepted;
    SqueezeConcat(x, input, 0, m, n);
    EtaAcceptedConcat(eta, Squeeze(x, input, 0, m), Squeeze(x, input, m, n));
  }

  lemma EtaMonotone(eta: int, x: Xof, input: seq<Byte>, m: nat, n: nat)
    requires eta == 2 || eta == 4
    ensures EtaAccepted(eta, Squeeze(x, input, 0, m)) <= EtaAccepted(eta, Squeeze(x, input, 0, m + n))
  {
    hide EtaAccepted;
    EtaNext(eta, x, input, m, n);
  }

  /** Runs of different length that finish give the same polynomial. */
  lemma UniformPolyAgree(x: Xof, seed: seq<Byte>, nonce: nat, m: nat, n: nat)
    requires UniformPoly(x, seed, nonce, m).Some? && m <= n
    ensures UniformPoly(x, seed, nonce, n) == UniformPoly(x, seed, nonce, m)
  {
    hide Accepted, Squeeze, Canonical;
    var input := seed + Nonce(nonce);
    Monotone(x, input, 840 + 168 * m, 168 * (n - m));
    assert 840 + 168 * m + 168 * (n - m) == 840 + 168 * n;
    PrefixTake(Accepted(Squeeze(x, input, 0, 840 + 168 * m)), Accepted(Squeeze(x, input, 0, 840 + 168 * n)));
  }

  lemma PrefixTake(a: seq<int>, b: seq<int>)
    requires a <= b && |a| >= 256
    ensures |b| >= 256 && a[..256] == b[..256]
  {
  }

  /** A candidate is the 23-bit little-endian number in the three bytes, if it is below Q. */
  lemma CandidateIs(b0: Byte, b1: Byte, b2: Byte, v: int)
    ensures Candidate(b0, b1, b2) == [v] <==> v == b0 + 256 * b1 + 65536 * (b2 % 128) && v < Q
  {
    hide Low, Shr;
    var lo := Or(b0, b1, 256);
    LowIs(Or(lo, b2, 0x1_0000), 0x80_0000, b2 / 128, lo + 65536 * (b2 % 128));
  }

  /** Every short coefficient comes from equally many half bytes: three for eta 2, one for eta 4. */
  lemma EtaCandidateIs(eta: int, t: nat, v: int)
    requires (eta == 2 || eta == 4) && t < 16 && -eta <= v <= eta
    ensures EtaCandidate(eta, t) == [v] <==> if eta == 2 then t in {2 - v, 7 - v, 12 - v} else t == 4 - v
  {
    hide Low, Shr;
    var k := if t < 5 then 0 else if t < 10 then 1 else if t < 15 then 2 else 3;
    ShrIs(205 * t, 1024, k, 205 * t - 1024 * k);
  }
}
