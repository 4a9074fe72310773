/** What the skipper accepts, as a grammar: definite and indefinite lengths, heads of any size, breaks as values. */
module CborGrammar {
  import opened Arith
  import opened Cbor

  // ---- Heads of any size ----

  /** An initial byte in its two parts, and the bytes of the argument that follow it. */
  datatype Lead = Lead(major: nat, info: nat, arg: seq<Byte>)

  predicate IsLead(l: Lead)
  {
    l.major < 8 &&
    (if l.info < 24 || l.info == 31 then |l.arg| == 0
     else if l.info == 24 then |l.arg| == 1
     else if l.info == 25 then |l.arg| == 2
     else if l.info == 26 then |l.arg| == 4
     else l.info == 27 && |l.arg| == 8)
  }

  function LeadBytes(l: Lead): (s: seq<Byte>)
    requires IsLead(l)
    ensures |s| == 1 + |l.arg|
  {
    [l.major * 32 + l.info] + l.arg
  }

  /** The argument; the additional information 31 stands for the largest 64-bit number. */
  function LeadValue(l: Lead): nat
    requires IsLead(l)
  {
    if l.info < 24 then l.info else if l.info == 31 then ALL_ONES else BigEndian(l.arg)
  }

  /** Arguments are numbers with the most significant byte first. */
  lemma ArgumentIs(l: Lead)
    requires IsLead(l)
    ensures l.info == 24 ==> LeadValue(l) == l.arg[0]
    ensures l.info == 25 ==> LeadValue(l) == Halves(l.arg[0], l.arg[1], 0x100)
    ensures l.info == 26 ==> LeadValue(l) == Four(l.arg, 0)
    ensures l.info == 27 ==> LeadValue(l) == Halves(Four(l.arg, 0), Four(l.arg, 4), 0x1_0000_0000)
  {
    assert l.arg[..|l.arg|] == l.arg;
    if l.info == 24 {
      BigEndianLast(l.arg, 1);
    } else if l.info == 25 {
      BigEndianLast(l.arg, 2);
      BigEndianLast(l.arg, 1);
    } else if l.info == 26 {
      BigEndianFour(l.arg, 4);
    } else if l.info == 27 {
      BigEndianFour(l.arg, 8);
      BigEndianFour(l.arg, 4);
    }
  }

  function Halves(high: int, low: int, base: int): int { high * base + low }

  function Four(s: seq<Byte>, i: nat): int
    requires i + 4 <= |s|
  {
    Halves(Halves(s[i], s[i + 1], 0x100), Halves(s[i + 2], s[i + 3], 0x100), 0x1_0000)
  }

  lemma BigEndianFour(s: seq<Byte>, n: nat)
    requires 4 <= n <= |s|
    ensures BigEndian(s[..n]) == Halves(BigEndian(s[..n - 4]), Four(s, n - 4), 0x1_0000_0000)
    ensures BigEndian(s[..0]) == 0
  {
    BigEndianLast(s, n);
    BigEndianLast(s, n - 1);
    BigEndianLast(s, n - 2);
    BigEndianLast(s, n - 3);
  }

  lemma BigEndianLast(s: seq<Byte>, n: nat)
    requires 0 < n <= |s|
    ensures BigEndian(s[..n]) == BigEndian(s[..n - 1]) * 256 + s[n - 1]
    ensures BigEndian(s[..0]) == 0
  {
    assert s[..n][..n - 1] == s[..n - 1];
  }

  /** Every head is read as what it is, whatever its size. */
  lemma LeadRead(b: seq<Byte>, off: nat, l: Lead)
    requires IsLead(l) && At(b, off, LeadBytes(l))
    ensures b[off] == l.major * 32 + l.info
    ensures ReadHead(b, off) == HeadResult(true, off + 1 + |l.arg|, l.major, LeadValue(l))
  {
    hide BigEndian;
    var s := LeadBytes(l);
    assert b[off] == b[off..off + |s|][0] == s[0];
    assert b[off + 1..off + 1 + |l.arg|] == b[off..off + |s|][1..] == l.arg;
  }

  /** Reading fails only where no head stands; the offset then is behind the initial byte, if there is one. */
  lemma LeadFound(b: seq<Byte>, off: nat) returns (l: Lead)
    ensures if ReadHead(b, off).ok then IsLead(l) && At(b, off, LeadBytes(l))
            else ReadHead(b, off).off == (if off < |b| then off + 1 else off) &&
                 forall k :: IsLead(k) ==> !At(b, off, LeadBytes(k))
  {
    hide BigEndian;
    if ReadHead(b, off).ok {
      var info := b[off] % 32;
      var k := if 24 <= info <= 27 then Following(info) else 0;
      l := Lead(b[off] / 32, info, b[off + 1..off + 1 + k]);
      assert b[off..off + 1 + k] == [b[off]] + b[off + 1..off + 1 + k];
    } else {
      l := Lead(0, 0, []);
      forall k | IsLead(k)
        ensures !At(b, off, LeadBytes(k))
      {
        if At(b, off, LeadBytes(k)) {
          LeadRead(b, off, k);
        }
      }
    }
  }

  // ---- Data ----

  /** A parse tree: Open is a string, array or map of indefinite length, up to its break byte. */
  datatype Data =
    | Break
    | Simple(lead: Lead)
    | Chunk(lead: Lead, bytes: seq<Byte>)
    | Sized(lead: Lead, parts: seq<Data>)
    | Open(lead: Lead, parts: seq<Data>)

  ghost predicate WellFormed(d: Data)
  {
    match d
    case Break => true
    case Simple(l) => IsLead(l) && l.major in {0, 1, 7} && !(l.major == 7 && l.info == 31)
    case Chunk(l, s) => IsLead(l) && l.major in {2, 3} && |s| == LeadValue(l) < ALL_ONES
    case Sized(l, parts) =>
      IsLead(l) && l.major in {4, 5} && LeadValue(l) < ALL_ONES &&
      |parts| == (if l.major == 4 then LeadValue(l) else 2 * LeadValue(l)) && AllWellFormed(parts)
    case Open(l, parts) =>
      IsLead(l) && l.major in {2, 3, 4, 5} && LeadValue(l) == ALL_ONES && AllWellFormed(parts) &&
      if l.major == 5 then Pairs(parts) else forall k :: 0 <= k < |parts| ==> parts[k] != Break
  }

  ghost predicate AllWellFormed(s: seq<Data>) { forall k :: 0 <= k < |s| ==> WellFormed(s[k]) }

  /** Whole pairs, and no key is a break. */
  ghost predicate Pairs(s: seq<Data>) { |s| % 2 == 0 && forall k :: 0 <= k < |s| && k % 2 == 0 ==> s[k] != Break }

  ghost function DataBytes(d: Data): (s: seq<Byte>)
    requires WellFormed(d)
    ensures |s| > 0
    decreases d
  {
    match d
    case Break => [0xFF]
    case Simple(l) => LeadBytes(l)
    case Chunk(l, s) => LeadBytes(l) + s
    case Sized(l, parts) => LeadBytes(l) + AllBytes(parts)
    case Open(l, parts) => LeadBytes(l) + (AllBytes(parts) + [0xFF])
  }

  ghost function AllBytes(s: seq<Data>): seq<Byte>
    requires AllWellFormed(s)
    decreases s
  {
    if s == [] then [] else DataBytes(s[0]) + AllBytes(s[1..])
  }

  /** The limits of the skipper. */
  ghost predicate Within(d: Data, depth: nat)
  {
    depth <= 16 &&
    match d
    case Sized(l, parts) => IsLead(l) && LeadValue(l) <= 256 && forall k :: 0 <= k < |parts| ==> Within(parts[k], depth + 1)
    case Open(_, parts) => forall k :: 0 <= k < |parts| ==> Within(parts[k], depth + 1)
    case _ => true
  }


  ghost predicate AllWithin(s: seq<Data>, depth: nat) { forall k :: 0 <= k < |s| ==> Within(s[k], depth) }

  lemma {:induction false} AllBytesConcat(s: seq<Data>, t: seq<Data>)
    requires AllWellFormed(s) && AllWellFormed(t)
    ensures AllWellFormed(s + t) && AllBytes(s + t) == AllBytes(s) + AllBytes(t)
  {
    hide WellFormed, DataBytes;
    if s == [] {
      assert s + t == t;
    } else {
      assert (s + t)[1..] == s[1..] + t;
      AllBytesConcat(s[1..], t);
    }
  }

  /** Only a break begins with the break byte. */
  lemma FirstByte(b: seq<Byte>, off: nat, d: Data)
    requires WellFormed(d) && At(b, off, DataBytes(d))
    ensures off < |b| && (b[off] == 0xFF <==> d == Break)
  {
    hide LeadValue, AllBytes, AllWellFormed;
    assert b[off] == b[off..off + |DataBytes(d)|][0] == DataBytes(d)[0];
  }

  // ---- The skipper accepts exactly this grammar ----

  lemma SkipBreak(b: seq<Byte>, off: nat, depth: nat)
    requires off < |b| && b[off] == 0xFF && depth <= 16
    ensures Skip(b, off, depth) == Outcome(true, off + 1, 1)
  {
  }

  /** What Skip does where a head stands, head by head. */
  lemma SkipLead(b: seq<Byte>, off: nat, l: Lead, depth: nat)
    requires IsLead(l) && At(b, off, LeadBytes(l)) && depth <= 16 && !(l.major == 7 && l.info == 31)
    ensures var at, v, r := off + 1 + |l.arg|, LeadValue(l), Skip(b, off, depth);
            if l.major in {0, 1, 7} then r.ok && r.off == at
            else if l.major in {2, 3} && v != ALL_ONES then (r.ok <==> v <= |b| - at) && (r.ok ==> r.off == at + v)
            else if l.major in {4, 5} && v != ALL_ONES then
              if v > 256 then !r.ok
              else
                var w := SkipMany(b, at, depth + 1, if l.major == 4 then v else v * 2);
                r.ok == w.ok && r.off == w.off
            else if l.major != 6 then
              var w := SkipToBreak(b, at, depth + 1, if l.major == 5 then 2 else 1);
              r.ok == w.ok && r.off == w.off
            else !r.ok
  {
    hide ReadHead, SkipMany, SkipToBreak, LeadValue;
    LeadRead(b, off, l);
  }

  lemma {:induction false} SkipData(b: seq<Byte>, off: nat, d: Data, depth: nat)
    requires WellFormed(d) && At(b, off, DataBytes(d))
    ensures Skip(b, off, depth).ok <==> Within(d, depth)
    ensures Skip(b, off, depth).ok ==> Skip(b, off, depth).off == off + |DataBytes(d)|
    decreases d
  {
    hide Skip, SkipMany, SkipToBreak, At, LeadBytes, LeadValue, IsLead, AllBytes, AllWellFormed;
    if depth > 16 {
      SkipTooDeep(b, off, depth);
    } else {
      match d
      case Break =>
        FirstByte(b, off, d);
        SkipBreak(b, off, depth);
      case Simple(l) => SkipLead(b, off, l, depth);
      case Chunk(l, s) =>
        AtParts(b, off, LeadBytes(l), s);
        SkipLead(b, off, l, depth);
        AtInside(b, off + |LeadBytes(l)|, s);
      case Sized(l, parts) =>
        AtParts(b, off, LeadBytes(l), AllBytes(parts));
        SkipLead(b, off, l, depth);
        SkipAll(b, off + |LeadBytes(l)|, parts, depth + 1);
      case Open(l, parts) =>
        AtParts(b, off, LeadBytes(l), AllBytes(parts) + [0xFF]);
        SkipLead(b, off, l, depth);
        SkipOpen(b, off + |LeadBytes(l)|, parts, depth + 1, if l.major == 5 then 2 else 1);
    }
  }

  lemma AtInside(b: seq<Byte>, off: nat, s: seq<Byte>)
    requires At(b, off, s)
    ensures off + |s| <= |b|
  {
  }

  lemma {:induction false} SkipAll(b: seq<Byte>, off: nat, s: seq<Data>, depth: nat)
    requires AllWellFormed(s) && At(b, off, AllBytes(s))
    ensures SkipMany(b, off, depth, |s|).ok <==> AllWithin(s, depth)
    ensures SkipMany(b, off, depth, |s|).ok ==> SkipMany(b, off, depth, |s|).off == off + |AllBytes(s)|
    decreases s, 0
  {
    hide Skip, WellFormed, DataBytes, Within, At;
    if s != [] {
      var e, rest := DataBytes(s[0]), AllBytes(s[1..]);
      AtParts(b, off, e, rest);
      SkipData(b, off, s[0], depth);
      if Within(s[0], depth) {
        SkipAll(b, off + |e|, s[1..], depth);
        assert s == [s[0]] + s[1..];
      }
    }
  }

  lemma {:induction false} SkipOpen(b: seq<Byte>, off: nat, s: seq<Data>, depth: nat, k: nat)
    requires k in {1, 2} && AllWellFormed(s) && At(b, off, AllBytes(s) + [0xFF])
    requires if k == 2 then Pairs(s) else forall i :: 0 <= i < |s| ==> s[i] != Break
    ensures SkipToBreak(b, off, depth, k).ok <==> AllWithin(s, depth)
    ensures SkipToBreak(b, off, depth, k).ok ==> SkipToBreak(b, off, depth, k).off == off + |AllBytes(s)| + 1
    decreases s, 1
  {
    hide SkipMany, WellFormed, DataBytes, AllBytes, Within, At;
    AtParts(b, off, AllBytes(s), [0xFF]);
    AtFirst(b, off + |AllBytes(s)|, 0xFF);
    if s == [] {
      AllBytesNone(s);
    } else {
      var group, rest := s[..k], s[k..];
      assert s == group + rest;
      assert rest == [] ==> group == s;
      AllBytesConcat(group, rest);
      AtParts(b, off, AllBytes(group), AllBytes(rest));
      AtParts(b, off + |AllBytes(group)|, AllBytes(rest), [0xFF]);
      FirstOfAll(b, off, group);
      SkipAll(b, off, group, depth);
      if AllWithin(group, depth) {
        SkipOpen(b, off + |AllBytes(group)|, rest, depth, k);
      }
    }
  }

  lemma AtFirst(b: seq<Byte>, off: nat, x: Byte)
    requires At(b, off, [x])
    ensures off < |b| && b[off] == x
  {
    assert b[off..off + 1][0] == x;
  }

  lemma AllBytesNone(s: seq<Data>)
    requires s == []
    ensures AllBytes(s) == []
  {
  }

  lemma FirstOfAll(b: seq<Byte>, off: nat, s: seq<Data>)
    requires s != [] && AllWellFormed(s) && At(b, off, AllBytes(s)) && s[0] != Break
    ensures off < |b| && b[off] != 0xFF
  {
    hide WellFormed, DataBytes, At;
    AtParts(b, off, DataBytes(s[0]), AllBytes(s[1..]));
    FirstByte(b, off, s[0]);
  }

  lemma SkipStart(b: seq<Byte>, off: nat, depth: nat)
    requires Skip(b, off, depth).ok
    ensures depth <= 16 && off < |b| && (b[off] != 0xFF ==> ReadHead(b, off).ok)
  {
    hide ReadHead, SkipMany, SkipToBreak;
  }

  lemma AtWhere(b: seq<Byte>, off: nat, n: nat)
    requires off + n <= |b|
    ensures At(b, off, b[off..off + n])
  {
  }

  /** Whatever the skipper accepts has a parse tree within the limits, and ends where the skipper stops. */
  lemma {:induction false} SkipParses(b: seq<Byte>, off: nat, depth: nat) returns (d: Data)
    requires Skip(b, off, depth).ok
    ensures WellFormed(d) && Within(d, depth) && At(b, off, DataBytes(d))
    ensures Skip(b, off, depth).off == off + |DataBytes(d)|
    decreases |b| - off, 0, 0
  {
    hide Skip, SkipMany, SkipToBreak, At, LeadBytes, LeadValue, IsLead, ReadHead, AllBytes, AllWellFormed;
    SkipStart(b, off, depth);
    if b[off] == 0xFF {
      d := Break;
      SkipBreak(b, off, depth);
      AtOne(b, off);
    } else {
      var l := LeadFound(b, off);
      LeadFirst(b, off, l);
      SkipLead(b, off, l, depth);
      var at, v := off + |LeadBytes(l)|, LeadValue(l);
      if l.major in {0, 1, 7} {
        d := Simple(l);
      } else if l.major in {2, 3} && v != ALL_ONES {
        d := Chunk(l, b[at..at + v]);
        AtWhere(b, at, v);
        AtParts(b, off, LeadBytes(l), b[at..at + v]);
      } else if v != ALL_ONES {
        var parts := ManyParses(b, at, depth + 1, if l.major == 4 then v else v * 2);
        d := Sized(l, parts);
        AtParts(b, off, LeadBytes(l), AllBytes(parts));
      } else {
        var parts := OpenParses(b, at, depth + 1, if l.major == 5 then 2 else 1);
        d := Open(l, parts);
        AtParts(b, off, LeadBytes(l), AllBytes(parts) + [0xFF]);
      }
    }
  }

  lemma AtOne(b: seq<Byte>, off: nat)
    requires off < |b|
    ensures At(b, off, [b[off]])
  {
  }

  lemma LeadFirst(b: seq<Byte>, off: nat, l: Lead)
    requires IsLead(l) && At(b, off, LeadBytes(l))
    ensures off < |b| && b[off] == l.major * 32 + l.info && |LeadBytes(l)| == 1 + |l.arg|
    ensures LeadValue(l) <= ALL_ONES && (l.info == 31 ==> LeadValue(l) == ALL_ONES)
  {
    hide ReadHead, LeadValue;
    LeadRead(b, off, l);
    if l.info == 31 {
      LeadLarge(l);
    }
  }

  lemma LeadLarge(l: Lead)
    requires IsLead(l) && l.info == 31
    ensures LeadValue(l) == ALL_ONES
  {
  }

  lemma {:induction false} ManyParses(b: seq<Byte>, off: nat, depth: nat, n: nat) returns (s: seq<Data>)
    requires off <= |b| && SkipMany(b, off, depth, n).ok
    ensures |s| == n && AllWellFormed(s) && AllWithin(s, depth) && At(b, off, AllBytes(s))
    ensures SkipMany(b, off, depth, n).off == off + |AllBytes(s)|
    decreases |b| - off, 1, n
  {
    hide Skip, WellFormed, DataBytes, Within, At;
    if n == 0 {
      s := [];
      AtWhere(b, off, 0);
      assert b[off..off] == [];
    } else {
      var d := SkipParses(b, off, depth);
      var rest := ManyParses(b, Skip(b, off, depth).off, depth, n - 1);
      s := [d] + rest;
      assert s[1..] == rest;
      AtParts(b, off, DataBytes(d), AllBytes(rest));
    }
  }

  lemma {:induction false} OpenParses(b: seq<Byte>, off: nat, depth: nat, k: nat) returns (s: seq<Data>)
    requires k in {1, 2} && SkipToBreak(b, off, depth, k).ok
    ensures AllWellFormed(s) && AllWithin(s, depth) && At(b, off, AllBytes(s) + [0xFF])
    ensures if k == 2 then Pairs(s) else forall i :: 0 <= i < |s| ==> s[i] != Break
    ensures SkipToBreak(b, off, depth, k).off == off + |AllBytes(s)| + 1
    decreases |b| - off, 2, 0
  {
    hide Skip, SkipMany, WellFormed, DataBytes, AllBytes, Within, At;
    if b[off] == 0xFF {
      s := [];
      AllBytesNone(s);
      AtOne(b, off);
      assert AllBytes(s) + [0xFF] == [0xFF];
    } else {
      var group := ManyParses(b, off, depth, k);
      NotBreak(b, off, group);
      var rest := OpenParses(b, SkipMany(b, off, depth, k).off, depth, k);
      s := group + rest;
      AllBytesConcat(group, rest);
      AtParts(b, off, AllBytes(group), AllBytes(rest) + [0xFF]);
      assert AllBytes(group) + (AllBytes(rest) + [0xFF]) == AllBytes(s) + [0xFF];
    }
  }

  lemma NotBreak(b: seq<Byte>, off: nat, s: seq<Data>)
    requires s != [] && AllWellFormed(s) && At(b, off, AllBytes(s)) && b[off] != 0xFF
    ensures s[0] != Break
  {
    hide WellFormed, DataBytes, At;
    AtParts(b, off, DataBytes(s[0]), AllBytes(s[1..]));
    FirstByte(b, off, s[0]);
  }

  /** The value d stands in b at position off. */
  ghost predicate IsData(b: seq<Byte>, off: nat, d: Data) { WellFormed(d) && At(b, off, DataBytes(d)) }

  /** On arbitrary bytes: the skipper succeeds if and only if a value within the limits stands at the position, and
      then stops right behind it. */
  lemma SkipAccepts(b: seq<Byte>, off: nat, depth: nat)
    ensures Skip(b, off, depth).ok <==> exists d :: IsData(b, off, d) && Within(d, depth)
    ensures forall d :: IsData(b, off, d) && Skip(b, off, depth).ok ==> Skip(b, off, depth).off == off + |DataBytes(d)|
  {
    hide Skip, At, WellFormed, DataBytes, Within;
    if Skip(b, off, depth).ok {
      var d := SkipParses(b, off, depth);
      assert IsData(b, off, d);
    }
    forall d | IsData(b, off, d)
      ensures Skip(b, off, depth).ok <==> Within(d, depth)
      ensures Skip(b, off, depth).ok ==> Skip(b, off, depth).off == off + |DataBytes(d)|
    {
      SkipData(b, off, d, depth);
    }
  }
}
