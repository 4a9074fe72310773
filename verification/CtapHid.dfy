/** CTAPHID packets: the sender, the receiver as a state machine, and the receiver as an object. */
module CtapHid {
  import opened Arith
  import opened Options

  const CANCEL: Byte := 0x91
  const ERROR: Byte := 0xBF
  const MAXLEN: nat := 7609

  /** millis() is 32 bits wide. */
  const CLOCK: nat := 0x1_0000_0000

  // ---- Packets ----

  type Channel = c: nat | c < 0x1_0000_0000

  function ChannelBytes(c: Channel): (b: seq<Byte>)
    ensures |b| == 4
  {
    [c / 0x100_0000, c / 0x1_0000 % 256, c / 256 % 256, c % 256]
  }

  function ChannelOf(b: seq<Byte>): Channel
    requires |b| >= 4
  {
    var (b0: int, b1: int, b2: int, b3: int) := (b[0], b[1], b[2], b[3]);
    b0 * 0x100_0000 + b1 * 0x1_0000 + b2 * 256 + b3
  }

  function LengthOf(b: seq<Byte>): (n: nat)
    requires |b| >= 7
    ensures n < 0x1_0000
  {
    var high: int := b[5];
    high * 256 + b[6]
  }

  function InitPacket(c: Channel, cmd: Byte, data: seq<Byte>): (b: seq<Byte>)
    requires |data| < 0x1_0000
    ensures |b| == 64
  {
    var n := Min(57, |data|);
    ChannelBytes(c) + [cmd, |data| / 256, |data| % 256] + data[..n] + Zeros(57 - n)
  }

  function ContPacket(c: Channel, s: nat, chunk: seq<Byte>): (b: seq<Byte>)
    requires |chunk| <= 59
    ensures |b| == 64
  {
    ChannelBytes(c) + [s % 128] + chunk + Zeros(59 - |chunk|)
  }

  /** The continuation packets from number s on for the rest of the data. */
  function ContPackets(c: Channel, s: nat, rest: seq<Byte>): (p: seq<seq<Byte>>)
    ensures forall i :: 0 <= i < |p| ==> |p[i]| == 64
    decreases |rest|
  {
    if rest == [] then []
    else
      var n := Min(59, |rest|);
      [ContPacket(c, s, rest[..n])] + ContPackets(c, s + 1, rest[n..])
  }

  /** A message cut into packets. */
  function Packets(c: Channel, cmd: Byte, data: seq<Byte>): (p: seq<seq<Byte>>)
    requires |data| < 0x1_0000
    ensures |p| > 0 && forall i :: 0 <= i < |p| ==> |p[i]| == 64
  {
    [InitPacket(c, cmd, data)] + ContPackets(c, 0, data[Min(57, |data|)..])
  }

  // ---- The receiver as a state machine ----

  datatype Message = Message(channel: Channel, cmd: Byte, data: seq<Byte>)

  /** expected is zero when no message is being received; data is what has arrived of it. */
  datatype Rx = Rx(expected: nat, data: seq<Byte>, next: nat, cmd: Byte, channel: Channel, last: nat,
                   pending: Option<Message>)

  function Elapsed(now: nat, last: nat): nat { (now - last) % CLOCK }

  function Reset(st: Rx): Rx { st.(expected := 0, data := []) }

  function Expire(st: Rx, now: nat): Rx
  {
    if st.expected > 0 && Elapsed(now, st.last) > 500 then Reset(st).(next := 0) else st
  }

  /** A message that is complete becomes the pending command. */
  function Finish(st: Rx): Rx
  {
    if st.expected > 0 && |st.data| >= st.expected
    then Reset(st).(pending := Some(Message(st.channel, st.cmd, st.data)))
    else st
  }

  function Error(c: Channel, code: Byte): seq<seq<Byte>> { Packets(c, ERROR, [code]) }

  function OnInit(st: Rx, b: seq<Byte>, now: nat): (Rx, seq<seq<Byte>>)
    requires |b| >= 7
  {
    var c := ChannelOf(b);
    if b[4] == CANCEL then (st.(pending := Some(Message(c, CANCEL, []))), [])
    else if st.pending.Some? then (st, if st.pending.value.channel == c then [] else Error(c, 0x05))
    else
      var st := st.(cmd := b[4], channel := c);
      var n := Min(57, LengthOf(b));
      if LengthOf(b) > MAXLEN then (Reset(st), Error(c, 0x01))
      else if |b| < 7 + n then (Reset(st), [])
      else (Finish(st.(expected := LengthOf(b), data := b[7..7 + n], next := 0, last := now % CLOCK)), [])
  }

  function OnCont(st: Rx, b: seq<Byte>, now: nat): (Rx, seq<seq<Byte>>)
    requires |b| >= 7
  {
    var c := ChannelOf(b);
    if st.expected == 0 || c != st.channel then (st, [])
    else if b[4] != st.next then (Reset(st), Error(c, 0x04))
    else
      var st := st.(next := (st.next + 1) % 256);
      var n := if st.expected < |st.data| then 0 else Min(59, st.expected - |st.data|);
      if |b| < 5 + n then (Reset(st), Error(c, 0x01))
      else (Finish(st.(data := st.data + b[5..5 + n], last := now % CLOCK)), [])
  }

  /** One received packet: the new state and the packets sent in answer. */
  function Step(st: Rx, b: seq<Byte>, now: nat): (Rx, seq<seq<Byte>>)
  {
    if |b| < 7 then (st, [])
    else if b[4] >= 0x80 then OnInit(Expire(st, now), b, now)
    else OnCont(Expire(st, now), b, now)
  }

  function Idle(): Rx { Rx(0, [], 0, 0, 0, 0, None) }

  // ---- Runs ----

  datatype Event = Packet(b: seq<Byte>, now: nat) | Poll

  function Next(st: Rx, e: Event): Rx
  {
    match e
    case Packet(b, now) => Step(st, b, now).0
    case Poll => st.(pending := None)
  }

  function Run(h: seq<Event>): Rx { if h == [] then Idle() else Next(Run(h[..|h| - 1]), h[|h| - 1]) }

  /** What polling has handed on for processing. */
  function Delivered(h: seq<Event>): seq<Message>
  {
    if h == [] then []
    else
      var before := Delivered(h[..|h| - 1]);
      var st := Run(h[..|h| - 1]);
      if h[|h| - 1].Poll? && st.pending.Some? then before + [st.pending.value] else before
  }

  /** The indices name packets of the history, in order. */
  ghost predicate Indexed(h: seq<Event>, idx: seq<nat>)
  {
    (forall k :: 0 <= k < |idx| ==> idx[k] < |h| && h[idx[k]].Packet? && |h[idx[k]].b| >= 7) &&
    forall k :: 0 < k < |idx| ==> idx[k - 1] < idx[k]
  }

  /** Fragment number k of a message of total bytes: the initialization packet first, then the continuations
      0, 1, 2, ... on the same channel, none more than 500 ms after the one before, and each long enough for the
      part of the message that it has to hold. */
  ghost predicate IsFragment(h: seq<Event>, idx: seq<nat>, k: nat, c: Channel, cmd: Byte, total: nat)
    requires k < |idx| && Indexed(h, idx)
  {
    var p := h[idx[k]];
    ChannelOf(p.b) == c &&
    if k == 0 then
      p.b[4] == cmd && cmd >= 0x80 && cmd != CANCEL && LengthOf(p.b) == total && |p.b| >= 7 + Min(57, total)
    else
      var before := 57 + 59 * (k - 1);
      p.b[4] == k - 1 && Elapsed(p.now, h[idx[k - 1]].now) <= 500 &&
      before < total && |p.b| >= 5 + Min(59, total - before)
  }

  /** The payload of the first n fragments. */
  ghost function Payload(h: seq<Event>, idx: seq<nat>, n: nat, total: nat): (d: seq<Byte>)
    requires n <= |idx| && Indexed(h, idx)
  {
    if n == 0 then []
    else
      var d, b := Payload(h, idx, n - 1, total), h[idx[n - 1]].b;
      var from, most := if n == 1 then 7 else 5, if n == 1 then 57 else 59;
      var len := if total < |d| then 0 else Min(most, total - |d|);
      if |b| < from + len then d else d + b[from..from + len]
  }

  ghost predicate Assembled(h: seq<Event>, idx: seq<nat>, c: Channel, cmd: Byte, total: nat, data: seq<Byte>)
  {
    |idx| > 0 && 0 < total <= MAXLEN && Indexed(h, idx) &&
    (forall k :: 0 <= k < |idx| ==> IsFragment(h, idx, k, c, cmd, total)) &&
    Payload(h, idx, |idx|, total) == data
  }

  /** The message being received, as far as it has arrived, is made of the fragments idx. */
  ghost predicate Receiving(h: seq<Event>, st: Rx, idx: seq<nat>)
  {
    Assembled(h, idx, st.channel, st.cmd, st.expected, st.data) && st.next == |idx| - 1 &&
    |st.data| == 57 + 59 * st.next && st.last == h[idx[|idx| - 1]].now % CLOCK
  }

  /** The packet at place i is a cancellation on channel c. */
  ghost predicate IsCancel(h: seq<Event>, i: nat, c: Channel)
  {
    i < |h| && h[i].Packet? && |h[i].b| >= 7 && h[i].b[4] == CANCEL && ChannelOf(h[i].b) == c
  }

  /** A message handed on was cancelled by a packet in the history, or is made of fragments in the history that fill
      its announced length. */
  ghost predicate SoundMessage(h: seq<Event>, m: Message)
  {
    if m.cmd == CANCEL then m.data == [] && exists i :: IsCancel(h, i, m.channel)
    else exists idx :: Assembled(h, idx, m.channel, m.cmd, |m.data|, m.data)
  }

  ghost predicate Sound(h: seq<Event>, st: Rx)
  {
    (if st.expected == 0 then st.data == [] else |st.data| < st.expected && exists idx :: Receiving(h, st, idx)) &&
    (st.pending.Some? ==> SoundMessage(h, st.pending.value))
  }

  lemma {:induction false} PayloadKept(h: seq<Event>, e: Event, idx: seq<nat>, n: nat, total: nat)
    requires n <= |idx| && Indexed(h, idx)
    ensures Indexed(h + [e], idx) && Payload(h + [e], idx, n, total) == Payload(h, idx, n, total)
  {
    if n > 0 {
      PayloadKept(h, e, idx, n - 1, total);
    }
  }

  lemma AssembledKept(h: seq<Event>, e: Event, idx: seq<nat>, c: Channel, cmd: Byte, total: nat, data: seq<Byte>)
    requires Assembled(h, idx, c, cmd, total, data)
    ensures Assembled(h + [e], idx, c, cmd, total, data)
  {
    hide ChannelOf, LengthOf, Payload, Elapsed;
    PayloadKept(h, e, idx, |idx|, total);
    forall k | 0 <= k < |idx|
      ensures IsFragment(h + [e], idx, k, c, cmd, total)
    {
      assert IsFragment(h, idx, k, c, cmd, total);
    }
  }

  lemma MessageKept(h: seq<Event>, e: Event, m: Message)
    requires SoundMessage(h, m)
    ensures SoundMessage(h + [e], m)
  {
    hide Assembled, ChannelOf;
    if m.cmd == CANCEL {
      var i :| IsCancel(h, i, m.channel);
      assert IsCancel(h + [e], i, m.channel);
    } else {
      var idx :| Assembled(h, idx, m.channel, m.cmd, |m.data|, m.data);
      AssembledKept(h, e, idx, m.channel, m.cmd, |m.data|, m.data);
    }
  }

  lemma SoundKept(h: seq<Event>, e: Event, st: Rx)
    requires Sound(h, st)
    ensures Sound(h + [e], st)
  {
    hide Assembled, SoundMessage;
    if st.expected > 0 {
      var idx :| Receiving(h, st, idx);
      AssembledKept(h, e, idx, st.channel, st.cmd, st.expected, st.data);
      ReceivingLast(h, e, st, idx);
      assert Receiving(h + [e], st, idx);
    }
    if st.pending.Some? {
      MessageKept(h, e, st.pending.value);
    }
  }

  lemma ReceivingLast(h: seq<Event>, e: Event, st: Rx, idx: seq<nat>)
    requires Receiving(h, st, idx)
    ensures (h + [e])[idx[|idx| - 1]] == h[idx[|idx| - 1]]
  {
  }

  lemma {:induction false} PayloadPrefix(h: seq<Event>, idx: seq<nat>, i: nat, n: nat, total: nat)
    requires n <= |idx| && Indexed(h, idx) && Indexed(h, idx + [i])
    ensures Payload(h, idx + [i], n, total) == Payload(h, idx, n, total)
  {
    if n > 0 {
      PayloadPrefix(h, idx, i, n - 1, total);
    }
  }

  /** A continuation that fits extends the fragments by one. */
  lemma AssembledMore(h: seq<Event>, idx: seq<nat>, st: Rx, b: seq<Byte>, now: nat, n: nat)
    requires Receiving(h, st, idx) && |b| >= 7 && b[4] == st.next && ChannelOf(b) == st.channel
    requires |st.data| < st.expected && n == Min(59, st.expected - |st.data|) && 5 + n <= |b|
    requires Elapsed(now, st.last) <= 500
    ensures Assembled(h + [Packet(b, now)], idx + [|h|], st.channel, st.cmd, st.expected, st.data + b[5..5 + n])
  {
    hide ChannelOf, LengthOf;
    var e := Packet(b, now);
    var g, more := h + [e], idx + [|h|];
    AssembledKept(h, e, idx, st.channel, st.cmd, st.expected, st.data);
    assert Indexed(g, more);
    PayloadPrefix(g, idx, |h|, |idx|, st.expected);
    forall k | 0 <= k < |more|
      ensures IsFragment(g, more, k, st.channel, st.cmd, st.expected)
    {
      if k < |idx| {
        assert IsFragment(g, idx, k, st.channel, st.cmd, st.expected);
      } else {
        ClockWraps(now, h[idx[|idx| - 1]].now);
      }
    }
  }

  lemma ClockWraps(now: nat, before: nat)
    ensures Elapsed(now, before % CLOCK) == Elapsed(now, before)
  {
    var q := before / CLOCK;
    assert before == q * CLOCK + before % CLOCK;
  }

  /** A complete initialization packet starts a message. */
  lemma AssembledFirst(h: seq<Event>, b: seq<Byte>, now: nat, n: nat)
    requires |b| >= 7 && 0x80 <= b[4] && b[4] != CANCEL && 0 < LengthOf(b) <= MAXLEN
    requires n == Min(57, LengthOf(b)) && 7 + n <= |b|
    ensures Assembled(h + [Packet(b, now)], [|h|], ChannelOf(b), b[4], LengthOf(b), b[7..7 + n])
  {
    hide ChannelOf, LengthOf;
    var g: seq<Event>, idx: seq<nat> := h + [Packet(b, now)], [|h|];
    assert Indexed(g, idx) && IsFragment(g, idx, 0, ChannelOf(b), b[4], LengthOf(b));
    assert Payload(g, idx, 0, LengthOf(b)) == [];
    assert [] + b[7..7 + n] == b[7..7 + n];
  }

  lemma FinishSound(h: seq<Event>, st: Rx, idx: seq<nat>)
    requires Assembled(h, idx, st.channel, st.cmd, st.expected, st.data) && |st.data| <= st.expected
    requires |st.data| < st.expected ==> Receiving(h, st, idx)
    requires st.pending.Some? ==> SoundMessage(h, st.pending.value)
    ensures Sound(h, Finish(st))
  {
    assert st.cmd != CANCEL by { AssembledCommand(h, idx, st.channel, st.cmd, st.expected, st.data); }
    hide Assembled;
  }

  lemma AssembledCommand(h: seq<Event>, idx: seq<nat>, c: Channel, cmd: Byte, total: nat, data: seq<Byte>)
    requires Assembled(h, idx, c, cmd, total, data)
    ensures cmd >= 0x80 && cmd != CANCEL
  {
    assert IsFragment(h, idx, 0, c, cmd, total);
  }

  lemma InitSound(h: seq<Event>, st: Rx, b: seq<Byte>, now: nat)
    requires |b| >= 7 && b[4] >= 0x80 && Sound(h + [Packet(b, now)], st)
    ensures Sound(h + [Packet(b, now)], OnInit(st, b, now).0)
  {
    hide ChannelOf, LengthOf, Assembled, Receiving, Finish;
    var g := h + [Packet(b, now)];
    var n := Min(57, LengthOf(b));
    if b[4] != CANCEL && st.pending.None? && LengthOf(b) <= MAXLEN && 7 + n <= |b| {
      var u := st.(cmd := b[4], channel := ChannelOf(b), expected := LengthOf(b), data := b[7..7 + n], next := 0,
                   last := now % CLOCK);
      if LengthOf(b) == 0 {
        FinishEmpty(u);
      } else {
        AssembledFirst(h, b, now, n);
        FirstReceiving(h, u, b, now);
        FinishSound(g, u, [|h|]);
      }
    } else if b[4] == CANCEL {
      assert IsCancel(g, |h|, ChannelOf(b));
      CancelSound(g, st, |h|, ChannelOf(b));
    }
  }

  lemma FinishEmpty(st: Rx)
    requires st.expected == 0
    ensures Finish(st) == st
  {
  }

  lemma CancelSound(h: seq<Event>, st: Rx, i: nat, c: Channel)
    requires Sound(h, st) && IsCancel(h, i, c)
    ensures Sound(h, st.(pending := Some(Message(c, CANCEL, []))))
  {
    hide Assembled;
    if st.expected > 0 {
      var idx :| Receiving(h, st, idx);
      assert Receiving(h, st.(pending := Some(Message(c, CANCEL, []))), idx);
    }
  }

  lemma FirstReceiving(h: seq<Event>, u: Rx, b: seq<Byte>, now: nat)
    requires Assembled(h + [Packet(b, now)], [|h|], u.channel, u.cmd, u.expected, u.data)
    requires u.next == 0 && u.last == now % CLOCK && |u.data| == Min(57, u.expected)
    ensures |u.data| < u.expected ==> Receiving(h + [Packet(b, now)], u, [|h|])
  {
  }

  lemma ContSound(h: seq<Event>, st: Rx, b: seq<Byte>, now: nat)
    requires |b| >= 7 && b[4] < 0x80 && Sound(h, st) && (st.expected > 0 ==> Elapsed(now, st.last) <= 500)
    ensures Sound(h + [Packet(b, now)], OnCont(st, b, now).0)
  {
    hide ChannelOf, LengthOf, Assembled, Receiving, Finish, Elapsed;
    var e := Packet(b, now);
    var g := h + [e];
    SoundKept(h, e, st);
    if st.expected > 0 && ChannelOf(b) == st.channel && b[4] == st.next {
      var n := Min(59, st.expected - |st.data|);
      if 5 + n <= |b| {
        var idx: seq<nat> :| Receiving(h, st, idx);
        AssembledMore(h, idx, st, b, now, n);
        var u := st.(next := (st.next + 1) % 256, data := st.data + b[5..5 + n], last := now % CLOCK);
        MoreReceiving(h, st, idx, b, now, u);
        FinishSound(g, u, idx + [|h|]);
      }
    }
  }

  lemma MoreReceiving(h: seq<Event>, st: Rx, idx: seq<nat>, b: seq<Byte>, now: nat, u: Rx)
    requires Receiving(h, st, idx) && |st.data| < st.expected
    requires Assembled(h + [Packet(b, now)], idx + [|h|], u.channel, u.cmd, u.expected, u.data)
    requires u.expected == st.expected && u.next == (st.next + 1) % 256 && u.last == now % CLOCK
    requires |u.data| == |st.data| + Min(59, st.expected - |st.data|)
    ensures |u.data| < u.expected ==> Receiving(h + [Packet(b, now)], u, idx + [|h|])
  {
    hide IsFragment, Payload, Indexed;
  }

  lemma StepSound(h: seq<Event>, st: Rx, b: seq<Byte>, now: nat)
    requires Sound(h, st)
    ensures Sound(h + [Packet(b, now)], Step(st, b, now).0)
  {
    hide ChannelOf, Assembled, Receiving, OnInit, OnCont, SoundMessage, Elapsed;
    var e := Packet(b, now);
    SoundKept(h, e, st);
    if |b| >= 7 {
      var u := Expire(st, now);
      if b[4] >= 0x80 {
        InitSound(h, u, b, now);
      } else {
        ContSound(h, u, b, now);
      }
    }
  }

  lemma {:induction false} RunSound(h: seq<Event>)
    ensures Sound(h, Run(h))
  {
    hide Step, Receiving, SoundMessage;
    if h != [] {
      var g, e := h[..|h| - 1], h[|h| - 1];
      RunSound(g);
      assert h == g + [e];
      SoundKept(g, e, Run(g));
      match e
      case Packet(b, now) => StepSound(g, Run(g), b, now);
      case Poll => PollSound(h, Run(g));
    }
  }

  lemma PollSound(h: seq<Event>, st: Rx)
    requires Sound(h, st)
    ensures Sound(h, st.(pending := None))
  {
    hide Assembled;
    if st.expected > 0 {
      var idx :| Receiving(h, st, idx);
      assert Receiving(h, st.(pending := None), idx);
    }
  }

  /** Reassembly is safe over every sequence of packets and polls. */
  lemma {:induction false} DeliverySound(h: seq<Event>)
    ensures forall m :: m in Delivered(h) ==> SoundMessage(h, m)
  {
    hide SoundMessage, Run, Sound;
    if h != [] {
      var g, e := h[..|h| - 1], h[|h| - 1];
      assert h == g + [e];
      DeliverySound(g);
      RunSound(g);
      forall m | m in Delivered(h)
        ensures SoundMessage(h, m)
      {
        if m !in Delivered(g) {
          PendingSound(g, Run(g));
        }
        MessageKept(g, e, m);
      }
    }
  }

  lemma PendingSound(h: seq<Event>, st: Rx)
    requires Sound(h, st) && st.pending.Some?
    ensures SoundMessage(h, st.pending.value)
  {
  }

  // ---- The program ----

  /** sendCtapResponse: accepted reports are taken by the host, at the next one it gives up. */
  method SendCtapResponse(c: Channel, cmd: Byte, data: seq<Byte>, accepted: nat) returns (sent: seq<seq<Byte>>)
    requires |data| < 0x1_0000
    ensures sent == Packets(c, cmd, data)[..Min(accepted, |Packets(c, cmd, data)|)]
  {
    hide InitPacket, ContPacket;
    ghost var goal := Packets(c, cmd, data);
    sent := [];
    if accepted == 0 {
      return;
    }
    var offset := Min(57, |data|);
    sent := [InitPacket(c, cmd, data)];
    var s := 0;
    while offset < |data|
      invariant 0 <= s && offset <= |data| && |sent| <= accepted
      invariant goal == sent + ContPackets(c, s, data[offset..])
      decreases |data| - offset
    {
      if |sent| == accepted {
        return;
      }
      var n := Min(59, |data| - offset);
      assert data[offset..][..n] == data[offset..offset + n] && data[offset..][n..] == data[offset + n..];
      sent := sent + [ContPacket(c, s, data[offset..offset + n])];
      offset := offset + n;
      s := s + 1;
    }
    assert data[offset..] == [];
  }

  lemma CancelStep(st: Rx, b: seq<Byte>, now: nat)
    requires |b| >= 7 && b[4] == CANCEL
    ensures OnInit(st, b, now) == (st.(pending := Some(Message(ChannelOf(b), CANCEL, []))), [])
  {
    hide ChannelOf, LengthOf, Finish, Packets;
  }

  /** An error report that the host takes. */
  method SendError(c: Channel, code: Byte) returns (sent: seq<seq<Byte>>)
    ensures sent == Error(c, code) && sent != []
  {
    hide Packets;
    sent := SendCtapResponse(c, ERROR, [code], |Error(c, code)|);
    assert Error(c, code)[..|Error(c, code)|] == Error(c, code);
  }

  /** memcpy to position off. */
  method CopyBytes(b: seq<Byte>, a: array<Byte>, off: nat)
    requires off + |b| <= a.Length
    modifies a
    ensures a[..off + |b|] == old(a[..off]) + b
  {
    for i := 0 to |b|
      invariant a[..off + i] == old(a[..off]) + b[..i]
    {
      a[off + i] := b[i];
    }
  }

  /** The receiving side of the device. */
  class Receiver {
    var buffer: array<Byte>
    var expectedLen: nat
    var receivedLen: nat
    var expectedSeq: nat
    var currentCmd: Byte
    var currentChannel: Channel
    var lastPacketTime: nat
    var hasPending: bool
    var pendingChannel: Channel
    var pendingCmd: Byte
    var pendingData: array<Byte>
    var pendingLen: nat

    /** What is received fits what is expected, and that fits the buffer. */
    ghost predicate Valid()
      reads this
    {
      receivedLen <= expectedLen <= buffer.Length && pendingLen <= pendingData.Length && buffer != pendingData &&
      expectedSeq < 256
    }

    ghost function Abstract(): Rx
      requires Valid()
      reads this, buffer, pendingData
    {
      Rx(expectedLen, buffer[..receivedLen], expectedSeq, currentCmd, currentChannel, lastPacketTime,
         if hasPending then Some(Message(pendingChannel, pendingCmd, pendingData[..pendingLen])) else None)
    }

    constructor ()
      ensures Valid() && Abstract() == Idle() && fresh(buffer) && fresh(pendingData)
    {
      buffer := new Byte[0](i => 0);
      pendingData := new Byte[0](i => 0);
      expectedLen, receivedLen, expectedSeq, lastPacketTime, pendingLen := 0, 0, 0, 0, 0;
      currentCmd, currentChannel, pendingChannel, pendingCmd := 0, 0, 0, 0;
      hasPending := false;
    }

    method ResetTransfer()
      requires Valid()
      modifies `expectedLen, `receivedLen
      ensures Valid() && expectedLen == receivedLen == 0
    {
      expectedLen := 0;
      receivedLen := 0;
    }

    /** memcpy into the receive buffer behind what is there. */
    method Store(b: seq<Byte>)
      requires Valid() && receivedLen + |b| <= expectedLen
      modifies `receivedLen, buffer
      ensures Valid() && receivedLen == old(receivedLen) + |b|
      ensures buffer[..receivedLen] == old(buffer[..receivedLen]) + b
    {
      CopyBytes(b, buffer, receivedLen);
      receivedLen := receivedLen + |b|;
    }

    /** The branch for initialization packets, from the check for a pending command on. */
    method Begin(c: Channel, b: seq<Byte>, now: nat) returns (sent: seq<seq<Byte>>)
      requires Valid() && |b| >= 7 && b[4] >= 0x80 && b[4] != CANCEL && ChannelOf(b) == c && !hasPending
      modifies this, buffer
      ensures Valid() && pendingData == old(pendingData) && (buffer == old(buffer) || fresh(buffer))
      ensures !hasPending && pendingLen == old(pendingLen)
      ensures var u := old(Abstract()).(cmd := b[4], channel := c);
              var n := Min(57, LengthOf(b));
              if LengthOf(b) > MAXLEN then Abstract() == Reset(u) && sent == Error(c, 0x01)
              else if |b| < 7 + n then Abstract() == Reset(u) && sent == []
              else sent == [] &&
                   Abstract() == u.(expected := LengthOf(b), data := b[7..7 + n], next := 0, last := now % CLOCK)
    {
      hide ChannelOf, LengthOf, Packets;
      currentCmd := b[4];
      currentChannel := c;
      var length := LengthOf(b);
      if length > MAXLEN {
        ResetTransfer();
        sent := SendError(c, 0x01);
        return;
      }
      if length > buffer.Length {
        buffer := new Byte[length](i => 0);
      }
      receivedLen := 0;
      expectedLen := length;
      var n := Min(57, length);
      sent := [];
      if |b| < 7 + n {
        ResetTransfer();
        return;
      }
      Store(b[7..7 + n]);
      expectedSeq := 0;
      lastPacketTime := now % CLOCK;
    }

    /** The branch for continuation packets. The two capacity checks never fire. */
    method Continue(c: Channel, b: seq<Byte>, now: nat) returns (sent: seq<seq<Byte>>)
      requires Valid() && |b| >= 7 && b[4] < 0x80 && ChannelOf(b) == c && expectedLen > 0 && c == currentChannel
      modifies `expectedLen, `receivedLen, `expectedSeq, `lastPacketTime, buffer
      ensures Valid()
      ensures var st := old(Abstract());
              var n := Min(59, st.expected - |st.data|);
              if b[4] != st.next then Abstract() == Reset(st) && sent == Error(c, 0x04)
              else if |b| < 5 + n then Abstract() == Reset(st).(next := (st.next + 1) % 256) && sent == Error(c, 0x01)
              else sent == [] && Abstract() == st.(next := (st.next + 1) % 256, data := st.data + b[5..5 + n],
                                                   last := now % CLOCK)
    {
      hide ChannelOf, Packets;
      if b[4] != expectedSeq {
        ResetTransfer();
        sent := SendError(c, 0x04);
        return;
      }
      expectedSeq := (expectedSeq + 1) % 256;
      var n := Min(59, expectedLen - receivedLen);
      if receivedLen > buffer.Length || n > buffer.Length - receivedLen {
        assert false;
      } else if |b| < 5 + n {
        ResetTransfer();
        sent := SendError(c, 0x01);
      } else {
        Store(b[5..5 + n]);
        lastPacketTime := now % CLOCK;
        sent := [];
      }
    }

    /** Copies the received message to the pending one, into a new buffer if it does not fit. */
    method Deliver(c: Channel)
      requires Valid()
      modifies `hasPending, `pendingChannel, `pendingCmd, `pendingLen, `pendingData, pendingData
      ensures hasPending && pendingChannel == c && pendingCmd == currentCmd && pendingLen == receivedLen
      ensures pendingLen <= pendingData.Length && pendingData[..pendingLen] == old(buffer[..receivedLen])
      ensures buffer != pendingData && (pendingData == old(pendingData) || fresh(pendingData))
    {
      if receivedLen > pendingData.Length {
        pendingData := new Byte[receivedLen](i => 0);
      }
      pendingChannel := c;
      pendingCmd := currentCmd;
      CopyBytes(buffer[..receivedLen], pendingData, 0);
      assert pendingData[..0] == [];
      pendingLen := receivedLen;
      hasPending := true;
    }

    /** The last part: a complete message becomes the pending command. */
    method Complete(c: Channel)
      requires Valid() && (expectedLen > 0 ==> c == currentChannel)
      modifies `expectedLen, `receivedLen, `hasPending, `pendingChannel, `pendingCmd, `pendingLen, `pendingData, pendingData
      ensures Valid() && Abstract() == Finish(old(Abstract())) && buffer == old(buffer)
      ensures pendingData == old(pendingData) || fresh(pendingData)
    {
      if expectedLen > 0 && receivedLen >= expectedLen {
        Deliver(c);
        ResetTransfer();
        assert buffer[..receivedLen] == [];
      }
    }

    /** A transfer whose last packet is more than 500 ms old is dropped. */
    method ExpireTransfer(now: nat)
      requires Valid()
      modifies `expectedLen, `receivedLen, `expectedSeq
      ensures Valid() && Abstract() == Expire(old(Abstract()), now)
    {
      if expectedLen > 0 && Elapsed(now, lastPacketTime) > 500 {
        ResetTransfer();
        expectedSeq := 0;
      }
    }

    /** A cancellation replaces whatever is pending, on any channel. */
    method Cancel(c: Channel)
      requires Valid()
      modifies `hasPending, `pendingChannel, `pendingCmd, `pendingLen
      ensures Valid() && Abstract() == old(Abstract()).(pending := Some(Message(c, CANCEL, [])))
    {
      pendingChannel := c;
      pendingCmd := CANCEL;
      pendingLen := 0;
      hasPending := true;
      assert pendingData[..pendingLen] == [];
    }

    /** _onOutput: returns the packets sent in answer. */
    method OnOutput(b: seq<Byte>, now: nat) returns (sent: seq<seq<Byte>>)
      requires Valid()
      modifies this, buffer, pendingData
      ensures Valid() && (Abstract(), sent) == Step(old(Abstract()), b, now)
      ensures buffer == old(buffer) || fresh(buffer)
      ensures pendingData == old(pendingData) || fresh(pendingData)
    {
      hide ChannelOf, LengthOf, Packets, Finish;
      sent := [];
      if |b| < 7 {
        return;
      }
      ExpireTransfer(now);
      ghost var st := Abstract();
      var c := ChannelOf(b);
      if b[4] >= 0x80 {
        if b[4] == CANCEL {
          Cancel(c);
          assert (Abstract(), sent) == OnInit(st, b, now) by { CancelStep(st, b, now); }
          return;
        }
        if hasPending && c == pendingChannel {
          return;
        }
        if hasPending {
          sent := SendError(c, 0x05);
          return;
        }
        sent := Begin(c, b, now);
        if LengthOf(b) > MAXLEN || |b| < 7 + Min(57, LengthOf(b)) {
          return;
        }
      } else {
        if expectedLen == 0 || c != currentChannel {
          return;
        }
        sent := Continue(c, b, now);
        if sent != [] {
          return;
        }
      }
      Complete(c);
    }

    /** poll: takes the pending command, if there is one. */
    method TakePending() returns (m: Option<Message>)
      requires Valid()
      modifies `hasPending
      ensures Valid() && m == old(Abstract().pending) && Abstract() == old(Abstract()).(pending := None)
    {
      if !hasPending {
        return None;
      }
      m := Some(Message(pendingChannel, pendingCmd, pendingData[..pendingLen]));
      hasPending := false;
    }
  }
}
