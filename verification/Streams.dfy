/** Which bytes of which hash streams the sampled polynomials are made of. */
module Streams {
  import opened Arith
  import opened NttSpec
  import opened PolySpec
  import opened MatrixProduct
  import opened BitPack
  import opened Options
  import opened Params
  import opened Sampling
  import opened Scheme

  // ---- What rejection sampling accepts ----

  lemma CandidateValue(b0: Byte, b1: Byte, b2: Byte)
    ensures var (c0: int, c1: int, c2: int) := (b0, b1, b2);
            var t := c0 + 256 * c1 + 0x1_0000 * (c2 % 128);
            Candidate(b0, b1, b2) == if t < 8380417 then [t] else []
  {
    hide Low, Candidate;
    var c := Candidate(b0, b1, b2);
    CandidateIs(b0, b1, b2, b0 + 256 * b1 + 65536 * (b2 % 128));
    if |c| == 1 {
      CandidateIs(b0, b1, b2, c[0]);
      assert c == [c[0]];
    }
  }

  /** From the front: the k-th three bytes contribute their lowest 23 bits, if these are below Q. */
  lemma AcceptedIs(b: seq<Byte>, k: nat)
    requires 3 * k + 3 <= |b|
    ensures var (b0: int, b1: int, b2: int) := (b[3 * k], b[3 * k + 1], b[3 * k + 2]);
            var t := b0 + 256 * b1 + 0x1_0000 * (b2 % 128);
            Accepted(b[..3 * k + 3]) == Accepted(b[..3 * k]) + if t < 8380417 then [t] else []
  {
    hide Candidate, Accepted;
    NextThree(b[..3 * k], b[3 * k], b[3 * k + 1], b[3 * k + 2], k);
    assert b[..3 * k + 3] == b[..3 * k] + [b[3 * k], b[3 * k + 1], b[3 * k + 2]];
    CandidateValue(b[3 * k], b[3 * k + 1], b[3 * k + 2]);
  }

  lemma NextThree(b: seq<Byte>, b0: Byte, b1: Byte, b2: Byte, k: nat)
    requires |b| == 3 * k
    ensures Accepted(b + [b0, b1, b2]) == Accepted(b) + Candidate(b0, b1, b2)
  {
    hide Candidate, Accepted;
    assert |b| % 3 == 0;
    AcceptedConcat(b, [b0, b1, b2]);
    AcceptedStep([b0, b1, b2]);
    AcceptedShort([]);
    assert [b0, b1, b2][3..] == [];
    assert Candidate(b0, b1, b2) + [] == Candidate(b0, b1, b2);
  }

  lemma ThirdOf(n: nat)
    ensures n / 3 * 3 <= n < n / 3 * 3 + 3 && n / 3 * 3 % 3 == 0
  {
  }

  /** One or two bytes left over contribute nothing. */
  lemma WholeThrees(b: seq<Byte>)
    ensures Accepted([]) == [] && |b| / 3 * 3 <= |b| && Accepted(b) == Accepted(b[..|b| / 3 * 3])
  {
    hide Accepted;
    ThirdOf(|b|);
    AcceptedShort([]);
    var n: nat :| n == |b| / 3 * 3;
    AcceptedCarry(b[..n], b[n..], []);
    assert b == b[..n] + b[n..];
  }

  /** What half a byte contributes. */
  function HalfByte(eta: int, t: nat): seq<int>
  {
    if eta == 2 then if t < 15 then [2 - t % 5] else [] else if t < 9 then [4 - t] else []
  }

  lemma HalfByteIs(eta: int, t: nat)
    requires (eta == 2 || eta == 4) && t < 16
    ensures EtaCandidate(eta, t) == HalfByte(eta, t)
  {
    hide EtaCandidate;
    var v := if eta == 2 then 2 - t % 5 else 4 - t;
    var c := EtaCandidate(eta, t);
    if -eta <= v <= eta {
      EtaCandidateIs(eta, t, v);
    }
    if |c| == 1 {
      EtaCandidateIs(eta, t, c[0]);
      assert c == [c[0]];
    }
  }

  /** From the front: byte k contributes its low half, then its high half. */
  lemma EtaAcceptedIs(eta: int, b: seq<Byte>, k: nat)
    requires (eta == 2 || eta == 4) && k < |b|
    ensures EtaAccepted(eta, []) == []
    ensures EtaAccepted(eta, b[..k + 1]) ==
            EtaAccepted(eta, b[..k]) + HalfByte(eta, b[k] % 16) + HalfByte(eta, b[k] / 16)
  {
    hide EtaCandidate, HalfByte, Low, Shr;
    var one := [b[k]];
    assert b[..k + 1] == b[..k] + one;
    EtaAcceptedConcat(eta, b[..k], one);
    EtaAcceptedStep(eta, one);
    LowIs(b[k], 16, b[k] / 16, b[k] % 16);
    ShrIs(b[k], 16, b[k] / 16, b[k] % 16);
    HalfByteIs(eta, b[k] % 16);
    HalfByteIs(eta, b[k] / 16);
    assert one[1..] == [];
    var lo, hi := HalfByte(eta, b[k] % 16), HalfByte(eta, b[k] / 16);
    assert lo + (hi + []) == lo + hi;
    assert EtaAccepted(eta, b[..k]) + (lo + hi) == EtaAccepted(eta, b[..k]) + lo + hi;
  }

  /** The polynomial consists of the first 256 values accepted. */
  ghost predicate FirstOf(p: Poly, accepted: seq<int>) { |accepted| >= 256 && p == accepted[..256] }

  // ---- Which stream ----

  lemma MatrixNonce(i: nat, j: nat)
    requires i < 256 && j < 256
    ensures Nonce((256 * i + j) % 0x1_0000) == [j, i]
  {
    assert (256 * i + j) % 0x1_0000 == 256 * i + j;
  }

  lemma EtaNonce(k: nat)
    requires k < 256
    ensures Nonce(k % 0x1_0000) == [k, 0]
  {
  }

  /** The 16-bit nonce of the masks. */
  lemma MaskNonceIs(l: nat, e: nat, i: nat)
    ensures Nonce((l * (e % 0x1_0000) + i) % 0x1_0000) == [(l * e + i) % 256, (l * e + i) / 256 % 256]
  {
    var q, m := e / 0x1_0000, l * (e % 0x1_0000) + i;
    assert e == q * 0x1_0000 + e % 0x1_0000;
    assert l * e + i == (l * q) * 0x1_0000 + m by {
      assert l * (q * 0x1_0000 + e % 0x1_0000) == l * q * 0x1_0000 + l * (e % 0x1_0000);
    }
    LowBytes(l * e + i, m, l * q);
  }

  lemma LowBytes(n: nat, m: nat, k: nat)
    requires n == k * 0x1_0000 + m
    ensures Nonce(m % 0x1_0000) == [n % 256, n / 256 % 256]
  {
    var r, k' := m % 0x1_0000, k + m / 0x1_0000;
    assert n == k' * 0x1_0000 + r;
    assert n / 256 == k' * 256 + r / 256;
  }

  /** The rows a of polynomials belong to the seed: the values of a[i][j] at the roots, in the order of the transform,
      are the first 256 numbers accepted from the stream of the seed followed by the bytes j and i. */
  ghost predicate MatrixOf(p: Params, h: Hash, rho: seq<Byte>, n: nat, a: seq<Vec>)
  {
    |a| == p.K() && (forall i :: 0 <= i < p.K() ==> |a[i]| == p.L()) &&
    forall i, j :: 0 <= i < p.K() && 0 <= j < p.L() ==>
      var s := Accepted(Squeeze(h.shake128, rho + [j, i], 0, 840 + 168 * n));
      |s| >= 256 && CongSeq(s[..256], Forward(a[i][j]))
  }

  /** The rows of the sampled matrix are the transforms of the polynomials a. */
  ghost predicate StandsFor(mat: seq<Vec>, a: seq<Vec>)
  {
    |mat| == |a| && forall i :: 0 <= i < |mat| ==> RowStandsFor(mat[i], a[i])
  }

  lemma RowLengths(p: Params, mat: seq<Vec>, a: seq<Vec>)
    requires IsMatrix(p, mat) && StandsFor(mat, a)
    ensures |a| == p.K() && forall i :: 0 <= i < |a| ==> |a[i]| == p.L()
  {
    forall i | 0 <= i < |mat|
      ensures |a[i]| == p.L()
    {
      assert RowStandsFor(mat[i], a[i]);
    }
  }

  lemma EntryIs(p: Params, h: Hash, rho: seq<Byte>, i: nat, j: nat, n: nat)
    requires i < p.K() && j < p.L()
    ensures var s := Accepted(Squeeze(h.shake128, rho + [j, i], 0, 840 + 168 * n));
            MatrixEntry(h, rho, i, j, n) == if |s| >= 256 then Some(s[..256]) else None
  {
    hide Accepted;
    MatrixNonce(i, j);
  }

  /** The sampled matrix is exactly the one that belongs to the seed, and it is complete exactly when there is one. */
  lemma MatrixOfIs(p: Params, h: Hash, rho: seq<Byte>, n: nat, a: seq<Vec>)
    ensures MatrixOf(p, h, rho, n, a) <==> MatrixDone(p, h, rho, n) && StandsFor(Matrix(p, h, rho, n), a)
  {
    hide Accepted, Squeeze, CongSeq, Forward, MatrixEntry;
    forall i: nat, j: nat | i < p.K() && j < p.L()
      ensures var s := Accepted(Squeeze(h.shake128, rho + [j, i], 0, 840 + 168 * n));
              MatrixEntry(h, rho, i, j, n) == if |s| >= 256 then Some(s[..256]) else None
    {
      EntryIs(p, h, rho, i, j, n);
    }
    if MatrixOf(p, h, rho, n, a) {
      var mat := Matrix(p, h, rho, n);
      forall i | 0 <= i < p.K()
        ensures RowStandsFor(mat[i], a[i])
      {
        assert mat[i] == MatrixRow(p, h, rho, i, n);
      }
    }
    if MatrixDone(p, h, rho, n) && StandsFor(Matrix(p, h, rho, n), a) {
      var mat := Matrix(p, h, rho, n);
      forall i, j | 0 <= i < p.K() && 0 <= j < p.L()
        ensures |a[i]| == p.L() && CongSeq(MatrixEntry(h, rho, i, j, n).value, Forward(a[i][j]))
      {
        assert mat[i] == MatrixRow(p, h, rho, i, n);
        assert RowStandsFor(mat[i], a[i]);
      }
    }
  }

  lemma {:induction false} MatrixHasPolynomials(mat: seq<Vec>) returns (a: seq<Vec>)
    ensures StandsFor(mat, a)
  {
    hide RowStandsFor;
    if mat == [] {
      a := [];
    } else {
      var first := RowHasPolynomials(mat[0]);
      var rest := MatrixHasPolynomials(mat[1..]);
      a := [first] + rest;
      forall i | 0 <= i < |mat|
        ensures RowStandsFor(mat[i], a[i])
      {
        assert i > 0 ==> mat[i] == mat[1..][i - 1] && a[i] == rest[i - 1];
      }
    }
  }
}
