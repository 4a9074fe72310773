/** The CBOR encoder, parser and skipper. */
module Cbor {
  import opened Arith

  const MAX_DEPTH: nat := 16
  const MAX_ELEMENTS: nat := 256
  const ALL_ONES: nat := 0xFFFF_FFFF_FFFF_FFFF

  // ---- Heads ----

  /** The bytes as one big-endian number. */
  function BigEndian(s: seq<Byte>): nat
  {
    if s == [] then 0 else BigEndian(s[..|s| - 1]) * 256 + s[|s| - 1]
  }

  /** The lowest k bytes of v, most significant first. */
  function Bytes(v: nat, k: nat): (s: seq<Byte>)
    ensures |s| == k
  {
    if k == 0 then [] else Bytes(v / 256, k - 1) + [v % 256]
  }

  lemma {:induction false} BigEndianOfBytes(v: nat, k: nat)
    requires v < Power256(k)
    ensures BigEndian(Bytes(v, k)) == v
  {
    if k > 0 {
      BigEndianOfBytes(v / 256, k - 1);
      assert Bytes(v, k)[..k - 1] == Bytes(v / 256, k - 1);
    }
  }

  lemma {:induction false} BigEndianBound(s: seq<Byte>)
    ensures BigEndian(s) < Power256(|s|)
  {
    if s != [] {
      BigEndianBound(s[..|s| - 1]);
    }
  }

  /** How many bytes follow the initial byte for a given additional information of 24 to 27. */
  function Following(info: nat): (k: nat)
    requires 24 <= info <= 27
    ensures k in {1, 2, 4, 8}
  {
    if info == 24 then 1 else if info == 25 then 2 else if info == 26 then 4 else 8
  }

  /** The shortest head for a value. */
  function Head(major: nat, v: nat): (s: seq<Byte>)
    requires major < 8 && v <= ALL_ONES
    ensures 1 <= |s| <= 9
  {
    if v < 24 then [major * 32 + v]
    else if v <= 0xFF then [major * 32 + 24] + Bytes(v, 1)
    else if v <= 0xFFFF then [major * 32 + 25] + Bytes(v, 2)
    else if v <= 0xFFFF_FFFF then [major * 32 + 26] + Bytes(v, 4)
    else [major * 32 + 27] + Bytes(v, 8)
  }

  /** What readTypeAndValue finds at off: whether it succeeds, where it leaves the offset, and what it read. */
  datatype HeadResult = HeadResult(ok: bool, off: nat, major: nat, value: nat)

  function ReadHead(b: seq<Byte>, off: nat): (r: HeadResult)
    ensures off <= r.off && (off <= |b| ==> r.off <= |b|) && r.major < 8 && r.value <= ALL_ONES
    ensures r.ok ==> off < r.off
  {
    if off >= |b| then HeadResult(false, off, 0, 0)
    else
      var major, info := b[off] / 32, b[off] % 32;
      if info < 24 then HeadResult(true, off + 1, major, info)
      else if info <= 27 then
        var k := Following(info);
        if off + k >= |b| then HeadResult(false, off + 1, major, 0)
        else
          ValueBound(b[off + 1..off + 1 + k]);
          HeadResult(true, off + 1 + k, major, BigEndian(b[off + 1..off + 1 + k]))
      else if info == 31 then HeadResult(true, off + 1, major, ALL_ONES)
      else HeadResult(false, off + 1, major, 0)
  }

  lemma ValueBound(s: seq<Byte>)
    requires |s| in {1, 2, 4, 8}
    ensures BigEndian(s) <= ALL_ONES
    ensures BigEndian(s) < Power256(|s|)
  {
    BigEndianBound(s);
    assert Power256(1) == 256 && Power256(2) == 0x1_0000 && Power256(4) == 0x1_0000_0000;
    assert Power256(8) == ALL_ONES + 1;
  }

  lemma Powers()
    ensures Power256(1) == 256 && Power256(2) == 0x1_0000 && Power256(4) == 0x1_0000_0000
    ensures Power256(8) == ALL_ONES + 1
  {
  }

  /** s stands in b at position off. */
  ghost predicate At(b: seq<Byte>, off: nat, s: seq<Byte>) { off + |s| <= |b| && b[off..off + |s|] == s }

  lemma AtParts(b: seq<Byte>, off: nat, s: seq<Byte>, t: seq<Byte>)
    ensures At(b, off, s + t) <==> At(b, off, s) && At(b, off + |s|, t)
  {
    if At(b, off, s + t) {
      assert b[off..off + |s|] == (s + t)[..|s|] && b[off + |s|..off + |s| + |t|] == (s + t)[|s|..];
    }
    if At(b, off, s) && At(b, off + |s|, t) {
      assert b[off..off + |s| + |t|] == b[off..off + |s|] + b[off + |s|..off + |s| + |t|];
    }
  }

  /** Reading a head that was written gives back its major type and value, and the position behind it. */
  lemma HeadRoundTrip(b: seq<Byte>, off: nat, major: nat, v: nat)
    requires major < 8 && v <= ALL_ONES && At(b, off, Head(major, v))
    ensures ReadHead(b, off) == HeadResult(true, off + |Head(major, v)|, major, v)
    ensures major < 7 || v < 31 ==> b[off] != 0xFF
  {
    hide BigEndian, Bytes, Power256;
    Powers();
    var s := Head(major, v);
    assert b[off] == b[off..off + |s|][0] == s[0];
    if v >= 24 {
      var k := |s| - 1;
      BigEndianOfBytes(v, k);
      assert b[off + 1..off + 1 + k] == b[off..off + |s|][1..] == Bytes(v, k);
    }
  }

  /** No shorter encoding of a value is read: the head is the shortest one. */
  lemma HeadShortest(b: seq<Byte>, off: nat)
    requires off < |b| && ReadHead(b, off).ok && b[off] % 32 != 31
    ensures var r := ReadHead(b, off); |Head(r.major, r.value)| <= r.off - off
  {
    hide BigEndian, Bytes, Power256;
    Powers();
    var info := b[off] % 32;
    if info >= 24 {
      ValueBound(b[off + 1..off + 1 + Following(info)]);
    }
  }

  // ---- Skipping ----

  /** What skipping does: success, the offset it leaves, and the calls it took. */
  datatype Outcome = Outcome(ok: bool, off: nat, calls: nat)

  /** The offset stays inside the buffer, a success moves on, and each call but a last failing one moves on too. */
  ghost predicate Linear(b: seq<Byte>, off: nat, r: Outcome)
  {
    off <= r.off && (off <= |b| ==> r.off <= |b|) && r.calls <= r.off - off + (if r.ok then 0 else 1)
  }

  function AddCalls(r: Outcome, n: nat): Outcome { r.(calls := r.calls + n) }

  /** skipValue */
  function Skip(b: seq<Byte>, off: nat, depth: nat): (r: Outcome)
    ensures Linear(b, off, r) && (r.ok ==> off < r.off)
    decreases |b| - off, 0, 0
  {
    if depth > MAX_DEPTH || off >= |b| then Outcome(false, off, 1)
    else if b[off] == 0xFF then Outcome(true, off + 1, 1)
    else
      var h := ReadHead(b, off);
      if !h.ok then Outcome(false, h.off, 1)
      else if h.major in {0, 1, 7} then Outcome(true, h.off, 1)
      else if h.major in {2, 3} then
        if h.value == ALL_ONES then AddCalls(SkipToBreak(b, h.off, depth + 1, 1), 1)
        else if h.value > |b| - h.off then Outcome(false, h.off, 1)
        else Outcome(true, h.off + h.value, 1)
      else if h.major in {4, 5} then
        if h.value == ALL_ONES then AddCalls(SkipToBreak(b, h.off, depth + 1, if h.major == 4 then 1 else 2), 1)
        else if h.value > MAX_ELEMENTS then Outcome(false, h.off, 1)
        else AddCalls(SkipMany(b, h.off, depth + 1, if h.major == 4 then h.value else h.value * 2), 1)
      else Outcome(false, h.off, 1)
  }

  /** n values in a row. */
  function SkipMany(b: seq<Byte>, off: nat, depth: nat, n: nat): (r: Outcome)
    ensures Linear(b, off, r) && (r.ok && n > 0 ==> off < r.off)
    decreases |b| - off, 1, n
  {
    if n == 0 then Outcome(true, off, 0)
    else
      var r := Skip(b, off, depth);
      if !r.ok then r else AddCalls(SkipMany(b, r.off, depth, n - 1), r.calls)
  }

  /** Groups of k values up to a break byte, which is taken too. */
  function SkipToBreak(b: seq<Byte>, off: nat, depth: nat, k: nat): (r: Outcome)
    requires k > 0
    ensures Linear(b, off, r)
    decreases |b| - off, 2, 0
  {
    if off >= |b| then Outcome(false, off, 0)
    else if b[off] == 0xFF then Outcome(true, off + 1, 0)
    else
      var r := SkipMany(b, off, depth, k);
      if !r.ok then r else AddCalls(SkipToBreak(b, r.off, depth, k), r.calls)
  }

  // ---- Items ----

  datatype Item =
    | UInt(value: nat)
    | NegInt(below: nat)
    | ByteString(bytes: seq<Byte>)
    | Text(chars: seq<Byte>)
    | Array(items: seq<Item>)
    | Map(entries: seq<Item>)
    | Bool(b: bool)
    | Null

  /** What the writers accept: a negative integer is -1 - below; a map's entries are keys and values in turn. */
  ghost predicate Writable(i: Item)
  {
    match i
    case UInt(v) => v <= ALL_ONES
    case NegInt(n) => n < 0x8000_0000_0000_0000
    case ByteString(s) => |s| <= 0xFFFF
    case Text(s) => |s| <= 0xFF
    case Array(items) => |items| <= 0xFF && forall k :: 0 <= k < |items| ==> Writable(items[k])
    case Map(entries) =>
      |entries| % 2 == 0 && |entries| / 2 <= 0xFFFF && forall k :: 0 <= k < |entries| ==> Writable(entries[k])
    case _ => true
  }

  /** The bytes that the writers produce for an item. */
  ghost function Encode(i: Item): (s: seq<Byte>)
    requires Writable(i)
    ensures |s| > 0
    decreases i, 1, 0
  {
    match i
    case UInt(v) => Head(0, v)
    case NegInt(n) => Head(1, n)
    case ByteString(s) => Head(2, |s|) + s
    case Text(s) => Head(3, |s|) + s
    case Array(items) => Head(4, |items|) + EncodeAll(i, items)
    case Map(entries) => Head(5, |entries| / 2) + EncodeAll(i, entries)
    case Bool(v) => Head(7, if v then 21 else 20)
    case Null => Head(7, 22)
  }

  ghost function EncodeAll(parent: Item, items: seq<Item>): seq<Byte>
    requires forall k :: 0 <= k < |items| ==> items[k] < parent && Writable(items[k])
    decreases parent, 0, |items|
  {
    if items == [] then [] else Encode(items[0]) + EncodeAll(parent, items[1..])
  }

  /** The limits of the skipper: nesting up to depth 16, and at most 256 elements or pairs. */
  ghost predicate Skippable(i: Item, depth: nat)
  {
    depth <= MAX_DEPTH &&
    match i
    case Array(items) => |items| <= MAX_ELEMENTS && forall k :: 0 <= k < |items| ==> Skippable(items[k], depth + 1)
    case Map(entries) =>
      |entries| / 2 <= MAX_ELEMENTS && forall k :: 0 <= k < |entries| ==> Skippable(entries[k], depth + 1)
    case _ => true
  }

  lemma SkipAtom(b: seq<Byte>, off: nat, major: nat, v: nat, depth: nat)
    requires depth <= MAX_DEPTH && (major < 2 || (major == 7 && v < 24)) && v <= ALL_ONES && At(b, off, Head(major, v))
    ensures Skip(b, off, depth) == Outcome(true, off + |Head(major, v)|, 1)
  {
    hide Head, ReadHead;
    HeadRoundTrip(b, off, major, v);
  }

  lemma SkipString(b: seq<Byte>, off: nat, major: nat, d: seq<Byte>, depth: nat)
    requires depth <= MAX_DEPTH && major in {2, 3} && |d| <= 0xFFFF && At(b, off, Head(major, |d|) + d)
    ensures Skip(b, off, depth) == Outcome(true, off + |Head(major, |d|)| + |d|, 1)
  {
    hide Head, ReadHead;
    AtParts(b, off, Head(major, |d|), d);
    HeadRoundTrip(b, off, major, |d|);
  }

  lemma SkipCounted(b: seq<Byte>, off: nat, major: nat, n: nat, rest: seq<Byte>, depth: nat)
    requires depth <= MAX_DEPTH && major in {4, 5} && n <= 0xFFFF && At(b, off, Head(major, n) + rest)
    ensures At(b, off + |Head(major, n)|, rest)
    ensures n > MAX_ELEMENTS ==> !Skip(b, off, depth).ok
    ensures n <= MAX_ELEMENTS ==>
              Skip(b, off, depth) ==
              AddCalls(SkipMany(b, off + |Head(major, n)|, depth + 1, if major == 4 then n else n * 2), 1)
  {
    hide Head, ReadHead, SkipMany;
    AtParts(b, off, Head(major, n), rest);
    HeadRoundTrip(b, off, major, n);
  }

  /** The skipper accepts a written item if and only if it is within the limits, and then stops exactly at its end. */
  lemma {:induction false} SkipItem(b: seq<Byte>, off: nat, i: Item, depth: nat)
    requires Writable(i) && At(b, off, Encode(i))
    ensures Skip(b, off, depth).ok <==> Skippable(i, depth)
    ensures Skip(b, off, depth).ok ==> Skip(b, off, depth).off == off + |Encode(i)|
    decreases i, 1, 0
  {
    hide Head, Skip, SkipMany, At;
    if depth > MAX_DEPTH {
      SkipTooDeep(b, off, depth);
    } else {
      match i
      case UInt(v) => SkipAtom(b, off, 0, v, depth);
      case NegInt(n) => SkipAtom(b, off, 1, n, depth);
      case ByteString(s) => SkipString(b, off, 2, s, depth);
      case Text(s) => SkipString(b, off, 3, s, depth);
      case Array(items) =>
        SkipCounted(b, off, 4, |items|, EncodeAll(i, items), depth);
        SkipItems(b, off + |Head(4, |items|)|, i, items, depth + 1);
      case Map(entries) =>
        SkipCounted(b, off, 5, |entries| / 2, EncodeAll(i, entries), depth);
        if |entries| / 2 <= MAX_ELEMENTS {
          SkipItems(b, off + |Head(5, |entries| / 2)|, i, entries, depth + 1);
        }
      case Bool(v) => SkipAtom(b, off, 7, if v then 21 else 20, depth);
      case Null => SkipAtom(b, off, 7, 22, depth);
    }
  }

  lemma SkipTooDeep(b: seq<Byte>, off: nat, depth: nat)
    requires depth > MAX_DEPTH
    ensures !Skip(b, off, depth).ok
  {
  }

  lemma {:induction false} SkipItems(b: seq<Byte>, off: nat, parent: Item, items: seq<Item>, depth: nat)
    requires forall k :: 0 <= k < |items| ==> items[k] < parent && Writable(items[k])
    requires At(b, off, EncodeAll(parent, items))
    ensures var r := SkipMany(b, off, depth, |items|);
            (r.ok <==> forall k :: 0 <= k < |items| ==> Skippable(items[k], depth)) &&
            (r.ok ==> r.off == off + |EncodeAll(parent, items)|)
    decreases parent, 0, |items|
  {
    hide Skip, Encode, Skippable, Writable, At;
    if items != [] {
      var e, rest := Encode(items[0]), EncodeAll(parent, items[1..]);
      AtParts(b, off, e, rest);
      SkipItem(b, off, items[0], depth);
      if Skippable(items[0], depth) {
        SkipItems(b, off + |e|, parent, items[1..], depth);
        AllTail(items, depth);
      }
    }
  }

  lemma AllTail(items: seq<Item>, depth: nat)
    requires items != [] && Skippable(items[0], depth)
    ensures (forall k :: 0 <= k < |items| ==> Skippable(items[k], depth)) <==>
            (forall k :: 0 <= k < |items[1..]| ==> Skippable(items[1..][k], depth))
  {
    hide Skippable;
    if forall k :: 0 <= k < |items[1..]| ==> Skippable(items[1..][k], depth) {
      forall k | 0 <= k < |items|
        ensures Skippable(items[k], depth)
      {
        if k > 0 {
          assert items[1..][k - 1] == items[k];
        }
      }
    }
  }

  // ---- Different items have different encodings ----

  function MajorOf(i: Item): (m: nat)
    ensures m < 8
  {
    match i
    case UInt(_) => 0
    case NegInt(_) => 1
    case ByteString(_) => 2
    case Text(_) => 3
    case Array(_) => 4
    case Map(_) => 5
    case _ => 7
  }

  function ArgumentOf(i: Item): nat
  {
    match i
    case UInt(v) => v
    case NegInt(n) => n
    case ByteString(s) => |s|
    case Text(s) => |s|
    case Array(items) => |items|
    case Map(entries) => |entries| / 2
    case Bool(v) => if v then 21 else 20
    case Null => 22
  }

  /** What follows the head. */
  ghost function Content(i: Item): seq<Byte>
    requires Writable(i)
  {
    match i
    case ByteString(s) => s
    case Text(s) => s
    case Array(items) => EncodeAll(i, items)
    case Map(entries) => EncodeAll(i, entries)
    case _ => []
  }

  /** Where an item stands, its head is read, and its content comes next. */
  lemma ItemParts(b: seq<Byte>, off: nat, i: Item)
    requires Writable(i) && At(b, off, Encode(i))
    ensures var r := ReadHead(b, off);
            r.ok && r.major == MajorOf(i) && r.value == ArgumentOf(i) && At(b, r.off, Content(i)) &&
            r.off + |Content(i)| == off + |Encode(i)|
  {
    hide Head, ReadHead, At, EncodeAll;
    var head := Head(MajorOf(i), ArgumentOf(i));
    assert Encode(i) == head + Content(i);
    AtParts(b, off, head, Content(i));
    HeadRoundTrip(b, off, MajorOf(i), ArgumentOf(i));
  }

  lemma SameAt(b: seq<Byte>, off: nat, s: seq<Byte>, t: seq<Byte>)
    requires At(b, off, s) && At(b, off, t) && |s| == |t|
    ensures s == t
  {
  }

  /** At most one item stands at a position of a buffer. */
  lemma {:induction false} ItemUnique(b: seq<Byte>, off: nat, i: Item, j: Item)
    requires Writable(i) && Writable(j) && At(b, off, Encode(i)) && At(b, off, Encode(j))
    ensures i == j
    decreases i, 1, 0
  {
    hide Encode, EncodeAll, ReadHead, At;
    ItemParts(b, off, i);
    ItemParts(b, off, j);
    var next := ReadHead(b, off).off;
    match i
    case ByteString(s) => SameAt(b, next, s, j.bytes);
    case Text(s) => SameAt(b, next, s, j.chars);
    case Array(items) => ItemsUnique(b, next, i, items, j, j.items);
    case Map(entries) => ItemsUnique(b, next, i, entries, j, j.entries);
    case _ =>
  }

  lemma {:induction false} ItemsUnique(b: seq<Byte>, off: nat, i: Item, s: seq<Item>, j: Item, t: seq<Item>)
    requires forall k :: 0 <= k < |s| ==> s[k] < i && Writable(s[k])
    requires forall k :: 0 <= k < |t| ==> t[k] < j && Writable(t[k])
    requires |s| == |t| && At(b, off, EncodeAll(i, s)) && At(b, off, EncodeAll(j, t))
    ensures s == t
    decreases i, 0, |s|
  {
    hide Encode, Writable, At;
    if s != [] {
      AtParts(b, off, Encode(s[0]), EncodeAll(i, s[1..]));
      AtParts(b, off, Encode(t[0]), EncodeAll(j, t[1..]));
      ItemUnique(b, off, s[0], t[0]);
      ItemsUnique(b, off + |Encode(s[0])|, i, s[1..], j, t[1..]);
      assert s == [s[0]] + s[1..] && t == [t[0]] + t[1..];
    }
  }

  /** The encoding is one to one and prefix-free: bytes that begin with the encoding of an item begin with no other. */
  lemma EncodePrefixFree(i: Item, x: seq<Byte>, j: Item, y: seq<Byte>)
    requires Writable(i) && Writable(j) && Encode(i) + x == Encode(j) + y
    ensures i == j && x == y
  {
    hide Encode, Writable;
    var b := Encode(i) + x;
    assert b[..|Encode(i)|] == Encode(i) && (Encode(j) + y)[..|Encode(j)|] == Encode(j);
    ItemUnique(b, 0, i, j);
    assert b[|Encode(i)|..] == x && (Encode(j) + y)[|Encode(j)|..] == y;
  }

  // ---- The encoder ----

  class Encoder {
    const buffer: array<Byte>
    var offset: nat

    ghost predicate Valid()
      reads this
    {
      offset <= buffer.Length
    }

    /** What has been written so far. */
    ghost function Written(): seq<Byte>
      requires Valid()
      reads this, buffer
    {
      buffer[..offset]
    }

    constructor (target: array<Byte>)
      ensures buffer == target && Valid() && offset == 0
    {
      buffer := target;
      offset := 0;
    }

    /** Appends bytes that fit. */
    method Put(s: seq<Byte>)
      requires Valid() && offset + |s| <= buffer.Length
      modifies this, buffer
      ensures Valid() && Written() == old(Written()) + s && buffer[offset..] == old(buffer[..])[offset..]
    {
      ghost var before := Written();
      for i := 0 to |s|
        invariant Valid() && offset == |before| + i && Written() == before + s[..i]
        invariant buffer[offset..] == old(buffer[..])[offset..]
      {
        buffer[offset] := s[i];
        offset := offset + 1;
      }
    }

    /** The head-writing branches shared in form by the integer and header writers, for values up to limit. */
    method WriteHead(major: nat, v: nat, limit: nat) returns (ok: bool)
      requires Valid() && major < 8 && v <= ALL_ONES && limit in {0xFF, 0xFFFF, ALL_ONES}
      modifies this, buffer
      ensures Valid() && (ok <==> v <= limit && offset == old(offset) + |Head(major, v)| <= buffer.Length)
      ensures ok ==> Written() == old(Written()) + Head(major, v)
      ensures !ok ==> offset == old(offset) && buffer[..] == old(buffer[..])
      ensures buffer[offset..] == old(buffer[..])[offset..]
      ensures !ok ==> v > limit || offset + |Head(major, v)| > buffer.Length
    {
      if offset >= buffer.Length {
        return false;
      }
      if v < 24 {
        Put([major * 32 + v]);
      } else if v <= 0xFF {
        if offset + 1 >= buffer.Length {
          return false;
        }
        Put([major * 32 + 24, v % 256]);
        assert [major * 32 + 24, v % 256] == Head(major, v) by { assert Bytes(v / 256, 0) == []; }
      } else if v > limit {
        return false;
      } else if v <= 0xFFFF {
        if offset + 2 >= buffer.Length {
          return false;
        }
        Put([major * 32 + 25] + Bytes(v, 2));
      } else if v <= 0xFFFF_FFFF {
        if offset + 4 >= buffer.Length {
          return false;
        }
        Put([major * 32 + 26] + Bytes(v, 4));
      } else {
        if offset + 8 >= buffer.Length {
          return false;
        }
        Put([major * 32 + 27] + Bytes(v, 8));
      }
      ok := true;
    }

    /** writeUnsignedInt */
    method WriteUnsignedInt(val: nat) returns (ok: bool)
      requires Valid() && val <= ALL_ONES
      modifies this, buffer
      ensures Valid() && (ok <==> old(offset) + |Encode(UInt(val))| <= buffer.Length)
      ensures ok ==> Written() == old(Written()) + Encode(UInt(val))
      ensures !ok ==> offset == old(offset) && buffer[..] == old(buffer[..])
      ensures buffer[offset..] == old(buffer[..])[offset..]
    {
      hide Head;
      ok := WriteHead(0, val, ALL_ONES);
    }

    /** writeNegativeInt, for a 64-bit signed argument; zero and above are refused. */
    method WriteNegativeInt(val: int) returns (ok: bool)
      requires Valid() && -0x8000_0000_0000_0000 <= val < 0x8000_0000_0000_0000
      modifies this, buffer
      ensures Valid() && (ok <==> val < 0 && old(offset) + |Encode(NegInt(-1 - val))| <= buffer.Length)
      ensures ok ==> Written() == old(Written()) + Encode(NegInt(-1 - val))
      ensures !ok ==> offset == old(offset) && buffer[..] == old(buffer[..])
      ensures buffer[offset..] == old(buffer[..])[offset..]
    {
      hide Head;
      if val >= 0 {
        return false;
      }
      ok := WriteHead(1, -1 - val, ALL_ONES);
    }

    /** writeMapHeader */
    method WriteMapHeader(elements: nat) returns (ok: bool)
      requires Valid() && elements <= ALL_ONES
      modifies this, buffer
      ensures Valid() && (ok <==> elements <= 0xFFFF && old(offset) + |Head(5, elements)| <= buffer.Length)
      ensures ok ==> Written() == old(Written()) + Head(5, elements)
      ensures !ok ==> offset == old(offset) && buffer[..] == old(buffer[..])
      ensures buffer[offset..] == old(buffer[..])[offset..]
    {
      hide Head;
      ok := WriteHead(5, elements, 0xFFFF);
    }

    /** writeArrayHeader */
    method WriteArrayHeader(elements: nat) returns (ok: bool)
      requires Valid() && elements <= ALL_ONES
      modifies this, buffer
      ensures Valid() && (ok <==> elements <= 0xFF && old(offset) + |Head(4, elements)| <= buffer.Length)
      ensures ok ==> Written() == old(Written()) + Head(4, elements)
      ensures !ok ==> offset == old(offset) && buffer[..] == old(buffer[..])
      ensures buffer[offset..] == old(buffer[..])[offset..]
    {
      hide Head;
      ok := WriteHead(4, elements, 0xFF);
    }

    /** writeByteString wants one byte more room than any head of the length needs. */
    method WriteByteString(data: seq<Byte>) returns (ok: bool)
      requires Valid()
      modifies this, buffer
      ensures Valid() && (ok <==> |data| <= 0xFFFF && old(offset) + |data| + 3 < buffer.Length)
      ensures ok ==> Written() == old(Written()) + Encode(ByteString(data))
      ensures !ok ==> offset == old(offset) && buffer[..] == old(buffer[..])
      ensures buffer[offset..] == old(buffer[..])[offset..]
    {
      if offset + |data| + 3 >= buffer.Length || |data| > 0xFFFF {
        return false;
      }
      HeadSize(2, |data|);
      hide Head;
      ok := WriteHead(2, |data|, 0xFFFF);
      Put(data);
      assert Written() == old(Written()) + (Head(2, |data|) + data);
    }

    /** writeTextString, for the characters before the terminating zero. */
    method WriteTextString(text: seq<Byte>) returns (ok: bool)
      requires Valid()
      modifies this, buffer
      ensures Valid() && (ok <==> |text| <= 0xFF && old(offset) + 1 + |text| + 2 < buffer.Length)
      ensures ok ==> Written() == old(Written()) + Encode(Text(text))
      ensures !ok ==> offset == old(offset) && buffer[..] == old(buffer[..])
      ensures buffer[offset..] == old(buffer[..])[offset..]
    {
      if offset + 1 + |text| + 2 >= buffer.Length || |text| > 0xFF {
        return false;
      }
      HeadSize(3, |text|);
      hide Head;
      ok := WriteHead(3, |text|, 0xFF);
      Put(text);
      assert Written() == old(Written()) + (Head(3, |text|) + text);
    }

    /** writeBoolean */
    method WriteBoolean(value: bool) returns (ok: bool)
      requires Valid()
      modifies this, buffer
      ensures Valid() && (ok <==> old(offset) < buffer.Length)
      ensures ok ==> Written() == old(Written()) + Encode(Bool(value))
      ensures !ok ==> offset == old(offset) && buffer[..] == old(buffer[..])
      ensures buffer[offset..] == old(buffer[..])[offset..]
    {
      if offset >= buffer.Length {
        return false;
      }
      Put([7 * 32 + (if value then 21 else 20)]);
      ok := true;
    }

    /** writeNull */
    method WriteNull() returns (ok: bool)
      requires Valid()
      modifies this, buffer
      ensures Valid() && (ok <==> old(offset) < buffer.Length)
      ensures ok ==> Written() == old(Written()) + Encode(Null)
      ensures !ok ==> offset == old(offset) && buffer[..] == old(buffer[..])
      ensures buffer[offset..] == old(buffer[..])[offset..]
    {
      if offset >= buffer.Length {
        return false;
      }
      Put([7 * 32 + 22]);
      ok := true;
    }

    /** The calls that write a whole item, as the command handlers make them: the header of an array or a map, then its
        parts, whether or not an earlier call failed. Three bytes more than the encoding are always enough room. */
    method WriteItem(i: Item) returns (ok: bool)
      requires Valid() && Writable(i)
      modifies this, buffer
      ensures Valid() && old(offset) <= offset && buffer[offset..] == old(buffer[..])[offset..]
      ensures ok ==> Written() == old(Written()) + Encode(i)
      ensures old(offset) + |Encode(i)| + 3 <= buffer.Length ==> ok
      decreases i, 2, 0
    {
      hide Head, EncodeAll;
      match i
      case UInt(v) => ok := WriteUnsignedInt(v);
      case NegInt(n) => ok := WriteNegativeInt(-1 - n);
      case ByteString(s) => ok := WriteByteString(s);
      case Text(s) => ok := WriteTextString(s);
      case Array(_) => ok := WriteArray(i);
      case Map(_) => ok := WriteMap(i);
      case Bool(v) => ok := WriteBoolean(v);
      case Null => ok := WriteNull();
    }

    method WriteArray(i: Item) returns (ok: bool)
      requires Valid() && i.Array? && Writable(i)
      modifies this, buffer
      ensures Valid() && old(offset) <= offset && buffer[offset..] == old(buffer[..])[offset..]
      ensures ok ==> Written() == old(Written()) + Encode(i)
      ensures old(offset) + |Encode(i)| + 3 <= buffer.Length ==> ok
      decreases i, 1, 0
    {
      hide Head, EncodeAll;
      ok := WriteArrayHeader(|i.items|);
      var rest := WriteItems(i, i.items);
      ok := ok && rest;
    }

    method WriteMap(i: Item) returns (ok: bool)
      requires Valid() && i.Map? && Writable(i)
      modifies this, buffer
      ensures Valid() && old(offset) <= offset && buffer[offset..] == old(buffer[..])[offset..]
      ensures ok ==> Written() == old(Written()) + Encode(i)
      ensures old(offset) + |Encode(i)| + 3 <= buffer.Length ==> ok
      decreases i, 1, 0
    {
      hide Head, EncodeAll;
      ok := WriteMapHeader(|i.entries| / 2);
      var rest := WriteItems(i, i.entries);
      ok := ok && rest;
    }

    method WriteItems(ghost parent: Item, items: seq<Item>) returns (ok: bool)
      requires Valid() && forall k :: 0 <= k < |items| ==> items[k] < parent && Writable(items[k])
      modifies this, buffer
      ensures Valid() && old(offset) <= offset && buffer[offset..] == old(buffer[..])[offset..]
      ensures ok ==> Written() == old(Written()) + EncodeAll(parent, items)
      ensures old(offset) + |EncodeAll(parent, items)| + 3 <= buffer.Length ==> ok
      decreases parent, 0, |items|
    {
      hide Encode, Writable;
      if items == [] {
        return true;
      }
      ok := WriteItem(items[0]);
      var rest := WriteItems(parent, items[1..]);
      ok := ok && rest;
    }
  }

  lemma HeadSize(major: nat, v: nat)
    requires major < 8 && v <= 0xFFFF
    ensures |Head(major, v)| <= 3
  {
  }

  // ---- The parser ----

  class Parser {
    const buffer: seq<Byte>
    var offset: nat

    ghost predicate Valid()
      reads this
    {
      offset <= |buffer|
    }

    constructor (source: seq<Byte>)
      ensures buffer == source && offset == 0 && Valid()
    {
      buffer := source;
      offset := 0;
    }

    /** readTypeAndValue: a failure after the initial byte still leaves the offset behind that byte. */
    method ReadTypeAndValue() returns (ok: bool, major: nat, value: nat)
      requires Valid()
      modifies this
      ensures Valid()
      ensures var r := ReadHead(buffer, old(offset));
              ok == r.ok && offset == r.off && (ok ==> major == r.major && value == r.value)
    {
      ok, major, value := false, 0, 0;
      if offset >= |buffer| {
        return;
      }
      var start := offset;
      var initial := buffer[offset];
      offset := offset + 1;
      major := initial / 32;
      var info := initial % 32;
      if info < 24 {
        return true, major, info;
      } else if info <= 27 {
        var k := Following(info);
        if offset + k - 1 >= |buffer| {
          return;
        }
        assert buffer[start + 1..start + 1] == [];
        for i := 0 to k
          invariant offset == start + 1 + i <= |buffer|
          invariant value == BigEndian(buffer[start + 1..offset])
        {
          BigEndianNext(buffer, start + 1, offset);
          value := value * 256 + buffer[offset];
          offset := offset + 1;
        }
        ok := true;
      } else if info == 31 {
        return true, major, ALL_ONES;
      }
    }

    /** The common part of the two string readers: on any failure the offset is back where it was. */
    method ReadString(wanted: nat, most: nat) returns (ok: bool, s: seq<Byte>)
      requires Valid()
      modifies this
      ensures Valid()
      ensures var r := ReadHead(buffer, old(offset));
              (ok <==> r.ok && r.major == wanted && r.value <= most && r.value <= |buffer| - r.off) &&
              (ok ==> s == buffer[r.off..r.off + r.value] && offset == r.off + r.value)
      ensures !ok ==> offset == old(offset)
    {
      var saved := offset;
      s := [];
      var read, major, len := ReadTypeAndValue();
      if !read || major != wanted || len > most || len > |buffer| - offset {
        offset := saved;
        return false, [];
      }
      s := buffer[offset..offset + len];
      offset := offset + len;
      ok := true;
    }

    /** readByteString into a buffer of maxLen bytes. */
    method ReadByteString(maxLen: nat) returns (ok: bool, s: seq<Byte>)
      requires Valid()
      modifies this
      ensures Valid() && (!ok ==> offset == old(offset))
      ensures var r := ReadHead(buffer, old(offset));
              (ok <==> r.ok && r.major == 2 && r.value <= maxLen && r.value <= |buffer| - r.off) &&
              (ok ==> s == buffer[r.off..r.off + r.value] && offset == r.off + r.value)
      ensures forall d :: Writable(ByteString(d)) && At(buffer, old(offset), Encode(ByteString(d))) ==>
                if |d| <= maxLen then ok && s == d && offset == old(offset) + |Encode(ByteString(d))| else !ok
    {
      hide Head, ReadHead;
      ghost var start := offset;
      ok, s := ReadString(2, maxLen);
      forall d | Writable(ByteString(d)) && At(buffer, start, Encode(ByteString(d)))
        ensures if |d| <= maxLen then ok && s == d && offset == start + |Encode(ByteString(d))| else !ok
      {
        StringAt(buffer, start, 2, d);
      }
    }

    /** readTextString into a buffer of maxLen bytes, one of them for the terminating zero. */
    method ReadTextString(maxLen: nat) returns (ok: bool, dest: seq<Byte>)
      requires Valid()
      modifies this
      ensures Valid() && (!ok ==> offset == old(offset))
      ensures var r := ReadHead(buffer, old(offset));
              (ok <==> r.ok && r.major == 3 && r.value < maxLen && r.value <= |buffer| - r.off) &&
              (ok ==> dest == buffer[r.off..r.off + r.value] + [0] && offset == r.off + r.value)
      ensures forall d :: Writable(Text(d)) && At(buffer, old(offset), Encode(Text(d))) ==>
                if |d| < maxLen then ok && dest == d + [0] && offset == old(offset) + |Encode(Text(d))| else !ok
    {
      hide Head, ReadHead;
      if maxLen == 0 {
        return false, [];
      }
      ghost var start := offset;
      var s;
      ok, s := ReadString(3, maxLen - 1);
      dest := if ok then s + [0] else [];
      forall d | Writable(Text(d)) && At(buffer, start, Encode(Text(d)))
        ensures if |d| < maxLen then ok && dest == d + [0] && offset == start + |Encode(Text(d))| else !ok
      {
        StringAt(buffer, start, 3, d);
      }
    }

    /** skipValue; calls counts the calls made, this one included. */
    method SkipValue(depth: nat) returns (ok: bool, ghost calls: nat)
      requires Valid()
      modifies this
      ensures Valid() && Outcome(ok, offset, calls) == Skip(buffer, old(offset), depth)
      decreases |buffer| - offset, 0, 0
    {
      hide ReadHead;
      calls := 1;
      if depth > MAX_DEPTH || offset >= |buffer| {
        return false, 1;
      }
      if buffer[offset] == 0xFF {
        offset := offset + 1;
        return true, 1;
      }
      var read, major, value := ReadTypeAndValue();
      if !read {
        return false, 1;
      }
      ghost var more;
      if major in {0, 1, 7} {
        ok := true;
      } else if major in {2, 3} {
        if value == ALL_ONES {
          ok, more := SkipIndefinite(depth + 1, 1);
          calls := more + 1;
        } else if value > |buffer| - offset {
          ok := false;
        } else {
          offset := offset + value;
          ok := true;
        }
      } else if major in {4, 5} {
        if value == ALL_ONES {
          ok, more := SkipIndefinite(depth + 1, if major == 4 then 1 else 2);
          calls := more + 1;
        } else if value > MAX_ELEMENTS {
          ok := false;
        } else {
          ok, more := SkipElements(depth + 1, if major == 4 then value else value * 2);
          calls := more + 1;
        }
      } else {
        ok := false;
      }
    }

    /** The loop over n elements. */
    method SkipElements(depth: nat, n: nat) returns (ok: bool, ghost calls: nat)
      requires Valid()
      modifies this
      ensures Valid() && Outcome(ok, offset, calls) == SkipMany(buffer, old(offset), depth, n)
      decreases |buffer| - offset, 1, 0
    {
      hide Skip;
      calls := 0;
      for i := 0 to n
        invariant Valid() && old(offset) <= offset
        invariant SkipMany(buffer, old(offset), depth, n) == AddCalls(SkipMany(buffer, offset, depth, n - i), calls)
      {
        var good, more := SkipValue(depth);
        calls := calls + more;
        if !good {
          return false, calls;
        }
      }
      ok := true;
    }

    /** The loop up to a break byte, k values in each round. */
    method SkipIndefinite(depth: nat, k: nat) returns (ok: bool, ghost calls: nat)
      requires Valid() && k > 0
      modifies this
      ensures Valid() && Outcome(ok, offset, calls) == SkipToBreak(buffer, old(offset), depth, k)
      decreases |buffer| - offset, 2, 0
    {
      hide SkipMany;
      calls := 0;
      while offset < |buffer| && buffer[offset] != 0xFF
        invariant Valid() && old(offset) <= offset
        invariant SkipToBreak(buffer, old(offset), depth, k) == AddCalls(SkipToBreak(buffer, offset, depth, k), calls)
        decreases |buffer| - offset
      {
        var good, more := SkipElements(depth, k);
        calls := calls + more;
        if !good {
          return false, calls;
        }
      }
      if offset >= |buffer| {
        return false, calls;
      }
      offset := offset + 1;
      ok := true;
    }
  }

  lemma BigEndianNext(b: seq<Byte>, from: nat, to: nat)
    requires from <= to < |b|
    ensures BigEndian(b[from..to + 1]) == BigEndian(b[from..to]) * 256 + b[to]
  {
    var s := b[from..to + 1];
    assert s[..|s| - 1] == b[from..to] && s[|s| - 1] == b[to];
  }

  lemma StringAt(b: seq<Byte>, off: nat, major: nat, d: seq<Byte>)
    requires major in {2, 3} && |d| <= 0xFFFF && At(b, off, Head(major, |d|) + d)
    ensures var h := |Head(major, |d|)|;
            ReadHead(b, off) == HeadResult(true, off + h, major, |d|) && off + h + |d| <= |b| &&
            b[off + h..off + h + |d|] == d
  {
    hide Head, ReadHead;
    AtParts(b, off, Head(major, |d|), d);
    HeadRoundTrip(b, off, major, |d|);
  }
}
