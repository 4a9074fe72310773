/** The packing loops over byte buffers. */
module PackOps {
  import opened Arith
  import opened PolySpec
  import opened BitPack
  import opened HintCode
  import opened Options
  import opened Encodings

  /** a with the bytes from off on replaced by s. */
  ghost function Written(a: seq<Byte>, off: nat, s: seq<Byte>): (r: seq<Byte>)
    requires off + |s| <= |a|
    ensures |r| == |a| && r[off..off + |s|] == s
  {
    a[..off] + s + a[off + |s|..]
  }

  lemma WrittenTwice(a: seq<Byte>, off: nat, s: seq<Byte>, t: seq<Byte>)
    requires off + |s| + |t| <= |a|
    ensures Written(Written(a, off, s), off + |s|, t) == Written(a, off, s + t)
  {
  }

  lemma WrittenWhole(a: seq<Byte>, s: seq<Byte>)
    requires |s| == |a|
    ensures Written(a, 0, s) == s
  {
  }

  lemma WrittenNothing(a: seq<Byte>, off: nat)
    requires off <= |a|
    ensures Written(a, off, []) == a
  {
  }

  /** A copying loop. */
  method WriteBytes(r: array<Byte>, off: nat, s: seq<Byte>)
    requires off + |s| <= r.Length
    modifies r
    ensures r[..] == Written(old(r[..]), off, s)
  {
    for i := 0 to |s|
      invariant r[..off + i] == old(r[..off]) + s[..i]
      invariant r[off + |s|..] == old(r[off + |s|..])
    {
      r[off + i] := s[i];
    }
    assert r[..] == r[..off + |s|] + r[off + |s|..];
  }

  /** rest holds the coefficients of n more groups. */
  ghost predicate Left(f: Format, n: nat, rest: seq<int>) { |rest| == n * Coeffs(f) && AllFit(f, rest) }

  ghost function PackRest(f: Format, n: nat, rest: seq<int>): seq<Byte>
    requires Left(f, n, rest)
  {
    PackGroups(f, n, rest)
  }

  lemma PackStep(f: Format, n: nat, rest: seq<int>)
    requires 0 < n && Left(f, n, rest)
    ensures Coeffs(f) <= |rest| && AllFit(f, rest[..Coeffs(f)]) && Left(f, n - 1, rest[Coeffs(f)..])
    ensures PackRest(f, n, rest) == PackGroup(f, rest[..Coeffs(f)]) + PackRest(f, n - 1, rest[Coeffs(f)..])
  {
    hide PackGroup, Bytes, Coeffs, Fits;
    OneLess(n, Coeffs(f));
    OneLess(n, Bytes(f));
  }

  lemma PackEnds(f: Format, p: Poly)
    requires AllFit(f, p)
    ensures Left(f, Groups(f), p) && PackRest(f, Groups(f), p) == PackPoly(f, p)
    ensures forall q :: Left(f, 0, q) ==> PackRest(f, 0, q) == []
  {
  }

  /** The packing loops of poly.c: one unrolled group after the other, from byte off on. */
  method PackPolyAt(f: Format, r: array<Byte>, off: nat, p: Poly)
    requires AllFit(f, p) && off + PolyBytes(f) <= r.Length
    modifies r
    ensures r[..] == Written(old(r[..]), off, PackPoly(f, p))
  {
    hide Written, PackGroup, AllFit, Left, PackRest, PackPoly, Groups;
    ghost var start: seq<Byte> := r[..];
    ghost var goal := PackPoly(f, p);
    assert |goal| == PolyBytes(f);
    ghost var done: seq<Byte> := [];
    WrittenNothing(start, off);
    PackEnds(f, p);
    var n := Groups(f);
    var rest: seq<int> := p;
    var pos := off;
    hide Bytes, Coeffs, PolyBytes;
    while n > 0
      invariant Left(f, n, rest) && goal == done + PackRest(f, n, rest)
      invariant pos == off + |done| && off + |goal| <= r.Length == |start|
      invariant r[..] == Written(start, off, done)
    {
      PackStep(f, n, rest);
      var g := PackGroup(f, rest[..Coeffs(f)]);
      WriteBytes(r, pos, g);
      WrittenTwice(start, off, done, g);
      done := done + g;
      rest := rest[Coeffs(f)..];
      pos := pos + Bytes(f);
      n := n - 1;
    }
    assert goal == done;
  }

  /** rest holds the bytes of n more groups. */
  ghost predicate BytesLeft(f: Format, n: nat, rest: seq<Byte>) { |rest| == n * Bytes(f) }

  ghost function UnpackRest(f: Format, n: nat, rest: seq<Byte>): seq<int>
    requires BytesLeft(f, n, rest)
  {
    UnpackGroups(f, n, rest)
  }

  lemma UnpackStep(f: Format, n: nat, rest: seq<Byte>)
    requires 0 < n && BytesLeft(f, n, rest)
    ensures Bytes(f) <= |rest| && BytesLeft(f, n - 1, rest[Bytes(f)..])
    ensures UnpackRest(f, n, rest) == UnpackGroup(f, rest[..Bytes(f)]) + UnpackRest(f, n - 1, rest[Bytes(f)..])
  {
    hide UnpackGroup, Bytes, Coeffs;
    OneLess(n, Coeffs(f));
    OneLess(n, Bytes(f));
  }

  lemma UnpackEnds(f: Format, a: seq<Byte>)
    requires |a| == PolyBytes(f)
    ensures BytesLeft(f, Groups(f), a) && UnpackRest(f, Groups(f), a) == UnpackPoly(f, a)
    ensures forall q :: BytesLeft(f, 0, q) ==> UnpackRest(f, 0, q) == []
  {
  }

  /** The unpacking loops of poly.c, from byte off on. */
  method UnpackPolyAt(f: Format, r: seq<Byte>, off: nat) returns (p: Poly)
    requires off + PolyBytes(f) <= |r|
    ensures p == UnpackPoly(f, r[off..off + PolyBytes(f)])
  {
    hide UnpackGroup, BytesLeft, UnpackRest, UnpackPoly, Groups, Bytes;
    ghost var goal := UnpackPoly(f, r[off..off + PolyBytes(f)]);
    var rest := r[off..off + PolyBytes(f)];
    UnpackEnds(f, rest);
    var done: seq<int> := [];
    var n := Groups(f);
    while n > 0
      invariant BytesLeft(f, n, rest) && goal == done + UnpackRest(f, n, rest)
    {
      UnpackStep(f, n, rest);
      done := done + UnpackGroup(f, rest[..Bytes(f)]);
      rest := rest[Bytes(f)..];
      n := n - 1;
    }
    assert goal == done;
    p := done;
  }

  /** The packing of the polynomials from number i on. */
  ghost function PackFrom(f: Format, v: Vec, i: nat): seq<Byte>
    requires VecFits(f, v) && i <= |v|
  {
    PackVec(f, v[i..])
  }

  /** One polynomial after the other, from byte off on. */
  method PackVecAt(f: Format, r: array<Byte>, off: nat, v: Vec)
    requires VecFits(f, v) && off + |PackVec(f, v)| <= r.Length
    modifies r
    ensures r[..] == Written(old(r[..]), off, PackVec(f, v))
  {
    hide *;
    ghost var start: seq<Byte> := r[..];
    ghost var goal := PackVec(f, v);
    FromEnds(f, v);
    ghost var done: seq<Byte> := [];
    WrittenNothing(start, off);
    var pos := off;
    for i := 0 to |v|
      invariant goal == done + PackFrom(f, v, i)
      invariant pos == off + |done| && r[..] == Written(start, off, done)
    {
      FromStep(f, v, i);
      ghost var g := PackPoly(f, v[i]);
      PackPolyAt(f, r, pos, v[i]);
      WrittenTwice(start, off, done, g);
      done := done + g;
      pos := pos + PolyBytes(f);
    }
    assert goal == done;
  }

  lemma FromEnds(f: Format, v: Vec)
    requires VecFits(f, v)
    ensures PackFrom(f, v, 0) == PackVec(f, v) && PackFrom(f, v, |v|) == []
  {
    assert v[0..] == v && v[|v|..] == [];
  }

  lemma FromStep(f: Format, v: Vec, i: nat)
    requires VecFits(f, v) && i < |v|
    ensures AllFit(f, v[i]) && |PackPoly(f, v[i])| == PolyBytes(f)
    ensures PackFrom(f, v, i) == PackPoly(f, v[i]) + PackFrom(f, v, i + 1)
  {
    hide PackPoly, AllFit, PolyBytes;
    assert v[i..][0] == v[i] && v[i..][1..] == v[i + 1..];
  }

  /** rest holds the bytes of n more polynomials. */
  ghost predicate VecLeft(f: Format, n: nat, rest: seq<Byte>) { |rest| == n * PolyBytes(f) }

  ghost function UnpackTail(f: Format, n: nat, rest: seq<Byte>): Vec
    requires VecLeft(f, n, rest)
  {
    UnpackVec(f, n, rest)
  }

  lemma TailStep(f: Format, n: nat, rest: seq<Byte>)
    requires 0 < n && VecLeft(f, n, rest)
    ensures PolyBytes(f) <= |rest| && VecLeft(f, n - 1, rest[PolyBytes(f)..])
    ensures UnpackTail(f, n, rest) == [UnpackPoly(f, rest[..PolyBytes(f)])] + UnpackTail(f, n - 1, rest[PolyBytes(f)..])
  {
    hide UnpackPoly, PolyBytes;
    OneLess(n, PolyBytes(f));
  }

  lemma TailEnds(f: Format, n: nat, a: seq<Byte>)
    requires |a| == n * PolyBytes(f)
    ensures VecLeft(f, n, a) && UnpackTail(f, n, a) == UnpackVec(f, n, a)
    ensures forall q :: VecLeft(f, 0, q) ==> UnpackTail(f, 0, q) == []
  {
    hide UnpackPoly;
  }

  /** One polynomial after the other, from byte off on. */
  method UnpackVecAt(f: Format, n: nat, r: seq<Byte>, off: nat) returns (v: Vec)
    requires off + n * PolyBytes(f) <= |r|
    ensures v == UnpackVec(f, n, r[off..off + n * PolyBytes(f)])
  {
    hide UnpackPoly, PolyBytes, VecLeft, UnpackTail, UnpackVec;
    var rest := r[off..off + n * PolyBytes(f)];
    ghost var goal := UnpackVec(f, n, rest);
    TailEnds(f, n, rest);
    v := [];
    var left := n;
    while left > 0
      invariant VecLeft(f, left, rest) && goal == v + UnpackTail(f, left, rest)
    {
      TailStep(f, left, rest);
      var p := UnpackPolyAt(f, rest, 0);
      assert rest[0..0 + PolyBytes(f)] == rest[..PolyBytes(f)];
      v := v + [p];
      rest := rest[PolyBytes(f)..];
      left := left - 1;
    }
    assert v == goal;
  }

  // ---- Hints ----

  /** The inner loop of the hint encoding: the positions of the ones of one row, from byte k on. */
  method EncodeRow(e: array<Byte>, p: Poly, k: nat) returns (next: nat)
    requires k + |Ones(p)| <= e.Length
    modifies e
    ensures next == k + |Ones(p)| && e[k..next] == Ones(p)
    ensures forall t :: 0 <= t < k || next <= t < e.Length ==> e[t] == old(e[t])
  {
    hide OnesFrom;
    next := k;
    ghost var done: seq<Byte> := [];
    for j := 0 to 256
      invariant Ones(p) == done + OnesFrom(p, j) && next == k + |done|
      invariant e[k..next] == done
      invariant forall t :: 0 <= t < k || next <= t < e.Length ==> e[t] == old(e[t])
    {
      OnesFromStep(p, j);
      if p[j] != 0 {
        assert done + ([j] + OnesFrom(p, j + 1)) == (done + [j]) + OnesFrom(p, j + 1);
        e[next] := j;
        next := next + 1;
        done := done + [j];
        assert e[k..next] == e[k..next - 1] + [j];
      } else {
        assert [] + OnesFrom(p, j + 1) == OnesFrom(p, j + 1);
      }
    }
    OnesEnd(p);
    assert done == Ones(p);
  }

  /** The state of the hint encoding after some rows: positions, zeros, totals, zeros. */
  ghost predicate Encoded(e: seq<Byte>, omega: nat, rows: nat, idx: seq<Byte>, tot: seq<int>)
  {
    |idx| <= omega && |tot| <= rows && |e| == omega + rows &&
    e == idx + Zeros(omega - |idx|) + tot + Zeros(rows - |tot|)
  }

  lemma EncodedRow(e: seq<Byte>, omega: nat, rows: nat, idx: seq<Byte>, tot: seq<int>, row: seq<Byte>, d: seq<Byte>)
    requires Encoded(e, omega, rows, idx, tot) && |idx| + |row| <= omega && |tot| < rows && |d| == |e|
    requires d[|idx|..|idx| + |row|] == row
    requires forall t :: 0 <= t < |idx| || |idx| + |row| <= t < |e| ==> d[t] == e[t]
    ensures Encoded(d, omega, rows, idx + row, tot)
  {
    var k := |idx| + |row|;
    assert d[..|idx|] == e[..|idx|] == idx;
    assert d[k..] == e[k..];
    assert e[k..] == Zeros(omega - k) + tot + Zeros(rows - |tot|);
    assert d == d[..|idx|] + d[|idx|..k] + d[k..];
  }

  lemma EncodedTotal(e: seq<Byte>, omega: nat, rows: nat, idx: seq<Byte>, tot: seq<int>, k: Byte)
    requires Encoded(e, omega, rows, idx, tot) && |tot| < rows
    ensures Encoded(e[omega + |tot| := k], omega, rows, idx, tot + [k])
  {
  }

  /** The hint part of pack_sig: zero everything, then append positions and set the running totals. */
  method EncodeHintsInto(e: array<Byte>, h: Vec, omega: nat)
    requires CountOnes(h) <= omega < 256 && e.Length == omega + |h|
    modifies e
    ensures e[..] == EncodeHints(h, omega)
  {
    hide Ones, Encoded, Progress;
    for i := 0 to e.Length
      invariant forall t :: 0 <= t < i ==> e[t] == 0
    {
      e[i] := 0;
    }
    var k := 0;
    ghost var idx: seq<Byte>, tot: seq<int> := [], [];
    EncodedStart(e[..], omega, |h|);
    assert h[0..] == h;
    ProgressStart(h);
    for i := 0 to |h|
      invariant |tot| == i && Progress(h, h[i..], k, idx, tot)
      invariant Encoded(e[..], omega, |h|, idx, tot)
    {
      assert h[i..][1..] == h[i + 1..] && h[i..][0] == h[i];
      ProgressRow(h, h[i..], k, idx, tot);
      ghost var before: seq<Byte> := e[..];
      k := EncodeRow(e, h[i], k);
      EncodedRow(before, omega, |h|, idx, tot, Ones(h[i]), e[..]);
      idx := idx + Ones(h[i]);
      before := e[..];
      EncodedTotal(before, omega, |h|, idx, tot, k);
      e[omega + i] := k;
      assert e[..] == before[omega + i := k];
      tot := tot + [k];
    }
    ProgressEnd(h, h[|h|..], k, idx, tot);
    EncodedEnd(e[..], omega, h, idx, tot);
  }

  /** What the rows before rest have contributed to the encoding of h. */
  ghost predicate Progress(h: Vec, rest: Vec, k: nat, idx: seq<Byte>, tot: seq<int>)
  {
    k == |idx| && k + CountOnes(rest) == CountOnes(h) &&
    idx + Positions(rest) == Positions(h) && tot + Totals(rest, k) == Totals(h, 0)
  }

  lemma ProgressStart(h: Vec)
    ensures Progress(h, h, 0, [], [])
  {
    assert [] + Positions(h) == Positions(h) && [] + Totals(h, 0) == Totals(h, 0);
  }

  lemma ProgressRow(h: Vec, rest: Vec, k: nat, idx: seq<Byte>, tot: seq<int>)
    requires Progress(h, rest, k, idx, tot) && rest != []
    ensures k == |idx| && k + |Ones(rest[0])| <= CountOnes(h)
    ensures Progress(h, rest[1..], k + |Ones(rest[0])|, idx + Ones(rest[0]), tot + [k + |Ones(rest[0])|])
  {
    hide Ones;
  }

  lemma ProgressEnd(h: Vec, rest: Vec, k: nat, idx: seq<Byte>, tot: seq<int>)
    requires Progress(h, rest, k, idx, tot) && rest == []
    ensures idx == Positions(h) && tot == Totals(h, 0)
  {
  }

  lemma EncodedStart(e: seq<Byte>, omega: nat, rows: nat)
    requires |e| == omega + rows && forall t :: 0 <= t < |e| ==> e[t] == 0
    ensures Encoded(e, omega, rows, [], [])
  {
  }

  lemma EncodedEnd(e: seq<Byte>, omega: nat, h: Vec, idx: seq<Byte>, tot: seq<int>)
    requires CountOnes(h) <= omega && Encoded(e, omega, |h|, idx, tot) && idx == Positions(h) && tot == Totals(h, 0)
    ensures e == EncodeHints(h, omega)
  {
  }

  /** One row of unpack_sig's hint decoding: None where a position does not exceed the one before it. */
  method DecodeRow(idx: seq<Byte>, k: nat, end: nat) returns (row: Option<Poly>)
    requires k <= end <= |idx|
    ensures row == if Ascending(idx[k..end]) then Some(Marks(idx[k..end])) else None
  {
    var h := new Int32[256](i => 0);
    assert h[..] == Marks(idx[k..k]);
    var j := k;
    while j < end
      invariant k <= j <= end && Ascending(idx[k..j])
      invariant h[..] == Marks(idx[k..j])
    {
      assert idx[k..j + 1] == idx[k..j] + [idx[j]];
      if j > k && idx[j] <= idx[j - 1] {
        assert idx[k..end][j - k] == idx[j] && idx[k..end][j - k - 1] == idx[j - 1];
        return None;
      }
      MarksMore(idx[k..j], idx[j]);
      h[idx[j]] := 1;
      j := j + 1;
    }
    return Some(h[..]);
  }

  lemma MarksMore(s: seq<Byte>, b: Byte)
    ensures Marks(s + [b]) == Marks(s)[b := 1]
  {
  }

  /** The rows read so far before those still to come. */
  function Join(h: Vec, rest: Option<Vec>): Option<Vec> { if rest.None? then None else Some(h + rest.value) }

  lemma JoinRow(h: Vec, row: Poly, rest: Option<Vec>)
    ensures Join(h, if rest.None? then None else Some([row] + rest.value)) == Join(h + [row], rest)
  {
    if rest.Some? {
      assert h + ([row] + rest.value) == h + [row] + rest.value;
    }
  }

  lemma JoinNone(rest: Option<Vec>)
    ensures Join([], rest) == rest
  {
    if rest.Some? {
      assert [] + rest.value == rest.value;
    }
  }

  /** The hint part of unpack_sig. */
  method DecodeHintsFrom(b: seq<Byte>, omega: nat) returns (r: Option<Vec>)
    requires omega <= |b|
    ensures r == DecodeHints(b, omega)
  {
    hide Ascending, Marks;
    assert b[omega..][0..] == b[omega..];
    var idx, totals := b[..omega], b[omega..];
    var h: Vec := [];
    var k := 0;
    JoinNone(DecodeRows(idx, totals, 0));
    for i := 0 to |totals|
      invariant 0 <= k <= omega
      invariant DecodeHints(b, omega) == Join(h, DecodeRows(idx, totals[i..], k))
    {
      assert totals[i..][1..] == totals[i + 1..] && totals[i..][0] == totals[i];
      if totals[i] < k || totals[i] > omega {
        return None;
      }
      var row := DecodeRow(idx, k, totals[i]);
      if row.None? {
        return None;
      }
      JoinRow(h, row.value, DecodeRows(idx, totals[i + 1..], totals[i]));
      h := h + [row.value];
      k := totals[i];
    }
    for j := k to omega
      invariant forall t :: k <= t < j ==> idx[t] == 0
    {
      if idx[j] != 0 {
        return None;
      }
    }
    assert totals[|totals|..] == [] && h + [] == h;
    return Some(h);
  }
}
