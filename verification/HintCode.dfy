/** The encoding of hint vectors in signatures, and that it is canonical. */
module HintCode {
  import opened Arith
  import opened Options
  import opened PolySpec

  /** A hint polynomial: coefficients 0 and 1 only. */
  ghost predicate IsHint(p: seq<int>) { forall i :: 0 <= i < |p| ==> p[i] == 0 || p[i] == 1 }

  ghost predicate AllHints(v: Vec) { forall i :: 0 <= i < |v| ==> IsHint(v[i]) }

  /** The positions from j on that hold a one, in ascending order. */
  function OnesFrom(p: Poly, j: nat): (r: seq<Byte>)
    requires j <= 256
    ensures forall i :: 0 <= i < |r| ==> j <= r[i] && p[r[i]] != 0
    ensures Ascending(r)
    decreases 256 - j
  {
    if j == 256 then [] else if p[j] != 0 then [j] + OnesFrom(p, j + 1) else OnesFrom(p, j + 1)
  }

  predicate Ascending(s: seq<Byte>) { forall i :: 0 < i < |s| ==> s[i - 1] < s[i] }

  function Ones(p: Poly): seq<Byte> { OnesFrom(p, 0) }

  function Marks(s: seq<Byte>): Poly { seq(256, j => if j in s then 1 else 0) }

  function CountOnes(h: Vec): nat { if h == [] then 0 else |Ones(h[0])| + CountOnes(h[1..]) }

  /** All positions, row after row. */
  function Positions(h: Vec): (r: seq<Byte>)
    ensures |r| == CountOnes(h)
  {
    if h == [] then [] else Ones(h[0]) + Positions(h[1..])
  }

  /** The running totals after each row, starting from k. */
  function Totals(h: Vec, k: nat): (r: seq<int>)
    ensures |r| == |h|
  {
    if h == [] then [] else [k + |Ones(h[0])|] + Totals(h[1..], k + |Ones(h[0])|)
  }

  /** The hint part of a signature: omega position bytes, then one running total for each row. */
  function EncodeHints(h: Vec, omega: nat): (r: seq<int>)
    requires CountOnes(h) <= omega
    ensures |r| == omega + |h|
  {
    Positions(h) + Zeros(omega - CountOnes(h)) + Totals(h, 0)
  }

  /** Rows from the totals left to read, k position bytes having been consumed. */
  function DecodeRows(idx: seq<Byte>, totals: seq<Byte>, k: nat): (r: Option<Vec>)
    requires k <= |idx|
    ensures r.Some? ==> |r.value| == |totals|
    decreases |totals|
  {
    if totals == [] then
      if forall j :: k <= j < |idx| ==> idx[j] == 0 then Some([]) else None
    else if totals[0] < k || totals[0] > |idx| || !Ascending(idx[k..totals[0]]) then None
    else
      var rest := DecodeRows(idx, totals[1..], totals[0]);
      if rest.None? then None else Some([Marks(idx[k..totals[0]])] + rest.value)
  }

  function DecodeHints(b: seq<Byte>, omega: nat): (r: Option<Vec>)
    requires omega <= |b|
    ensures r.Some? ==> |r.value| == |b| - omega
  {
    DecodeRows(b[..omega], b[omega..], 0)
  }

  lemma {:induction false} OnesFromMembers(p: Poly, j: nat, x: Byte)
    requires j <= 256
    ensures x in OnesFrom(p, j) <==> j <= x && p[x] != 0
    decreases 256 - j
  {
    if j < 256 {
      OnesFromMembers(p, j + 1, x);
    }
  }

  lemma MarksOfOnes(p: Poly)
    requires IsHint(p)
    ensures Marks(Ones(p)) == p
  {
    forall j | 0 <= j < 256
      ensures Marks(Ones(p))[j] == p[j]
    {
      OnesFromMembers(p, 0, j);
    }
  }

  lemma {:induction false} AscendingOrder(s: seq<Byte>, i: nat, j: nat)
    requires Ascending(s) && i < j < |s|
    ensures s[i] < s[j]
  {
    if i + 1 < j {
      AscendingOrder(s, i, j - 1);
    }
  }

  lemma MarksAt(s: seq<Byte>, j: Byte)
    ensures Marks(s)[j] != 0 <==> j in s
  {
  }

  /** In an ascending list whose first c entries are below j and whose others are not, j can only be entry c. */
  lemma NextOf(s: seq<Byte>, j: Byte, c: nat)
    requires Ascending(s) && c <= |s|
    requires forall i :: 0 <= i < c ==> s[i] < j
    requires forall i :: c <= i < |s| ==> j <= s[i]
    ensures j in s <==> c < |s| && s[c] == j
    ensures forall i :: c < i < |s| ==> j + 1 <= s[i]
    ensures j !in s ==> forall i :: c <= i < |s| ==> j + 1 <= s[i]
  {
    forall i | c < i < |s|
      ensures j + 1 <= s[i]
    {
      AscendingOrder(s, c, i);
    }
  }

  lemma OnesFromStep(p: Poly, j: nat)
    requires j < 256
    ensures OnesFrom(p, j) == (if p[j] != 0 then [j] else []) + OnesFrom(p, j + 1)
  {
  }

  /** Reading back the marks of an ascending list from j on gives its part from j on. */
  lemma {:induction false} OnesFromMarks(s: seq<Byte>, j: nat, c: nat)
    requires Ascending(s) && j <= 256 && c <= |s|
    requires forall i :: 0 <= i < c ==> s[i] < j
    requires forall i :: c <= i < |s| ==> j <= s[i]
    ensures OnesFrom(Marks(s), j) == s[c..]
    decreases 256 - j
  {
    hide Ascending, Marks, OnesFrom;
    if j == 256 {
      OnesEnd(Marks(s));
      assert s[c..] == [];
    } else {
      OnesFromStep(Marks(s), j);
      MarksAt(s, j);
      NextOf(s, j, c);
      if j in s {
        OnesFromMarks(s, j + 1, c + 1);
        assert s[c..] == [s[c]] + s[c + 1..];
      } else {
        OnesFromMarks(s, j + 1, c);
      }
    }
  }

  lemma OnesEnd(p: Poly)
    ensures OnesFrom(p, 256) == []
  {
  }

  lemma OnesOfMarks(s: seq<Byte>)
    requires Ascending(s)
    ensures Ones(Marks(s)) == s
  {
    OnesFromMarks(s, 0, 0);
  }

  lemma RowsStep(idx: seq<Byte>, totals: seq<Byte>, k: nat)
    requires k <= |idx| && totals != [] && k <= totals[0] <= |idx| && Ascending(idx[k..totals[0]])
    requires DecodeRows(idx, totals[1..], totals[0]).Some?
    ensures DecodeRows(idx, totals, k) ==
            Some([Marks(idx[k..totals[0]])] + DecodeRows(idx, totals[1..], totals[0]).value)
  {
    hide Marks, Ascending;
  }

  lemma RowsEnd(idx: seq<Byte>, k: nat)
    requires k <= |idx| && forall j :: k <= j < |idx| ==> idx[j] == 0
    ensures DecodeRows(idx, [], k) == Some([])
  {
  }

  lemma PositionsStep(h: Vec, k: nat)
    requires h != []
    ensures Positions(h) == Ones(h[0]) + Positions(h[1..]) && CountOnes(h) == |Ones(h[0])| + CountOnes(h[1..])
    ensures Totals(h, k) == [k + |Ones(h[0])|] + Totals(h[1..], k + |Ones(h[0])|)
  {
    hide Ones;
  }

  lemma {:induction false} RowsRoundTrip(h: Vec, idx: seq<Byte>, k: nat)
    requires AllHints(h) && k + CountOnes(h) <= |idx| < 256
    requires idx[k..k + CountOnes(h)] == Positions(h)
    requires forall j :: k + CountOnes(h) <= j < |idx| ==> idx[j] == 0
    ensures forall i :: 0 <= i < |h| ==> 0 <= Totals(h, k)[i] < 256
    ensures DecodeRows(idx, Totals(h, k), k) == Some(h)
  {
    hide Ones, Marks, DecodeRows, Ascending, IsHint;
    if h == [] {
      RowsEnd(idx, k);
    } else {
      var n := |Ones(h[0])|;
      PositionsStep(h, k);
      MarksOfOnes(h[0]);
      OnesAscending(h[0]);
      var s := idx[k..k + CountOnes(h)];
      assert idx[k..k + n] == s[..n] == Ones(h[0]);
      assert idx[k + n..k + n + CountOnes(h[1..])] == s[n..] == Positions(h[1..]);
      RowsRoundTrip(h[1..], idx, k + n);
      RowsStep(idx, Totals(h, k), k);
      assert h == [h[0]] + h[1..];
    }
  }

  lemma OnesAscending(p: Poly)
    ensures Ascending(Ones(p))
  {
  }

  /** Encoding and decoding returns every hint vector with at most omega ones. */
  lemma HintsRoundTrip(h: Vec, omega: nat)
    requires AllHints(h) && CountOnes(h) <= omega < 256
    ensures forall i :: 0 <= i < |EncodeHints(h, omega)| ==> 0 <= EncodeHints(h, omega)[i] < 256
    ensures DecodeHints(EncodeHints(h, omega), omega) == Some(h)
  {
    hide Positions, Totals, CountOnes, DecodeRows, AllHints;
    var idx := Positions(h) + Zeros(omega - CountOnes(h));
    assert idx[0..CountOnes(h)] == Positions(h);
    RowsRoundTrip(h, idx, 0);
    var e := EncodeHints(h, omega);
    assert e[..omega] == idx && e[omega..] == Totals(h, 0);
  }

  lemma {:induction false} RowsCanonical(idx: seq<Byte>, totals: seq<Byte>, k: nat)
    requires k <= |idx|
    requires DecodeRows(idx, totals, k).Some?
    ensures var h := DecodeRows(idx, totals, k).value;
            AllHints(h) && k + CountOnes(h) <= |idx| &&
            idx[k..] == Positions(h) + Zeros(|idx| - k - CountOnes(h)) && totals == Totals(h, k)
    decreases |totals|
  {
    hide Ones, Marks;
    var h := DecodeRows(idx, totals, k).value;
    if totals == [] {
      assert idx[k..] == Zeros(|idx| - k);
    } else {
      var c := totals[0];
      RowsCanonical(idx, totals[1..], c);
      OnesOfMarks(idx[k..c]);
      MarksIsHint(idx[k..c]);
      assert h[1..] == DecodeRows(idx, totals[1..], c).value;
      assert idx[k..] == idx[k..c] + idx[c..];
      assert totals == [c] + totals[1..];
    }
  }

  lemma MarksIsHint(s: seq<Byte>)
    ensures IsHint(Marks(s))
  {
  }

  /** Whatever decodes is exactly the encoding of what it decodes to. */
  lemma HintsCanonical(b: seq<Byte>, omega: nat)
    requires omega <= |b|
    requires DecodeHints(b, omega).Some?
    ensures var h := DecodeHints(b, omega).value;
            AllHints(h) && CountOnes(h) <= omega && EncodeHints(h, omega) == b
  {
    RowsCanonical(b[..omega], b[omega..], 0);
    assert b[..omega][0..] == b[..omega];
    assert b == b[..omega] + b[omega..];
  }

  // ---- The encoding, byte by byte ----

  /** Bytes from..to of idx are the positions of the ones of p, ascending. */
  ghost predicate RowAt(idx: seq<Byte>, from: int, to: int, p: Poly)
  {
    0 <= from <= to <= |idx| &&
    (forall j :: from < j < to ==> idx[j - 1] < idx[j]) &&
    forall j :: 0 <= j < 256 ==> p[j] == if j in idx[from..to] then 1 else 0
  }

  /** Where row i starts: at the total of the rows before it. */
  function RowStart(totals: seq<Byte>, k: nat, i: nat): nat
    requires i <= |totals|
  {
    if i == 0 then k else totals[i - 1]
  }

  ghost predicate RowsAt(idx: seq<Byte>, totals: seq<Byte>, k: nat, h: Vec)
  {
    |h| == |totals| &&
    (forall i :: 0 <= i < |h| ==> RowAt(idx, RowStart(totals, k, i), totals[i], h[i])) &&
    forall j :: RowStart(totals, k, |h|) <= j < |idx| ==> idx[j] == 0
  }

  lemma RowIs(idx: seq<Byte>, from: nat, to: nat, p: Poly)
    requires from <= to <= |idx|
    ensures RowAt(idx, from, to, p) <==> Ascending(idx[from..to]) && p == Marks(idx[from..to])
  {
    var s := idx[from..to];
    assert forall i :: 0 <= i < |s| ==> s[i] == idx[from + i];
    if Ascending(s) {
      assert forall j :: from <= j < to ==> idx[j] == s[j - from];
    }
  }

  lemma RowStartTail(totals: seq<Byte>, k: nat, i: nat)
    requires 0 < i <= |totals|
    ensures RowStart(totals, k, i) == RowStart(totals[1..], totals[0], i - 1)
  {
  }

  lemma RowsAtStep(idx: seq<Byte>, totals: seq<Byte>, k: nat, h: Vec)
    requires totals != [] && |h| == |totals|
    ensures RowsAt(idx, totals, k, h) <==>
            RowAt(idx, k, totals[0], h[0]) && RowsAt(idx, totals[1..], totals[0], h[1..])
  {
    hide RowAt;
    RowStartTail(totals, k, |h|);
    var c, t, g := totals[0], totals[1..], h[1..];
    if RowsAt(idx, totals, k, h) {
      forall i | 0 <= i < |g|
        ensures RowAt(idx, RowStart(t, c, i), t[i], g[i])
      {
        RowStartTail(totals, k, i + 1);
        assert RowAt(idx, RowStart(totals, k, i + 1), totals[i + 1], h[i + 1]);
      }
      assert RowAt(idx, RowStart(totals, k, 0), totals[0], h[0]);
    }
    if RowAt(idx, k, c, h[0]) && RowsAt(idx, t, c, g) {
      forall i | 0 <= i < |h|
        ensures RowAt(idx, RowStart(totals, k, i), totals[i], h[i])
      {
        if i > 0 {
          RowStartTail(totals, k, i);
          assert RowAt(idx, RowStart(t, c, i - 1), t[i - 1], g[i - 1]);
        }
      }
    }
  }

  lemma {:induction false} RowsAre(idx: seq<Byte>, totals: seq<Byte>, k: nat, h: Vec)
    requires k <= |idx| && |h| == |totals|
    ensures DecodeRows(idx, totals, k) == Some(h) <==> RowsAt(idx, totals, k, h)
    decreases |totals|
  {
    hide RowAt, Marks, Ascending;
    if totals == [] {
    } else {
      hide RowsAt;
      var c := totals[0];
      RowsAtStep(idx, totals, k, h);
      if k <= c <= |idx| {
        RowIs(idx, k, c, h[0]);
        RowsAre(idx, totals[1..], c, h[1..]);
        assert h == [h[0]] + h[1..];
      } else {
        NoRow(idx, k, c, h[0]);
      }
    }
  }

  lemma NoRow(idx: seq<Byte>, from: int, to: int, p: Poly)
    requires !(0 <= from <= to <= |idx|)
    ensures !RowAt(idx, from, to, p)
  {
  }

  /** Bytes decode to h if and only if the totals ascend within omega, between two totals stand the positions of
      the ones of a row in strictly ascending order, and zeros follow the last. */
  lemma DecodesIs(b: seq<Byte>, omega: nat, h: Vec)
    requires omega <= |b| && |h| == |b| - omega
    ensures DecodeHints(b, omega) == Some(h) <==> RowsAt(b[..omega], b[omega..], 0, h)
  {
    RowsAre(b[..omega], b[omega..], 0, h);
  }

  /** So does what is encoded. */
  lemma EncodesIs(h: Vec, omega: nat)
    requires AllHints(h) && CountOnes(h) <= omega < 256
    ensures forall i :: 0 <= i < |EncodeHints(h, omega)| ==> 0 <= EncodeHints(h, omega)[i] < 256
    ensures RowsAt(EncodeHints(h, omega)[..omega], EncodeHints(h, omega)[omega..], 0, h)
  {
    hide EncodeHints, DecodeHints, RowsAt, AllHints, CountOnes;
    HintsRoundTrip(h, omega);
    DecodesIs(EncodeHints(h, omega), omega, h);
  }
}
