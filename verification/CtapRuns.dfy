/** CTAPHID: what every packet does, and how a message travels from sender to receiver. */
module CtapRuns {
  import opened Arith
  import opened Options
  import opened CtapHid

  /** How many continuation packets r more bytes take. */
  function Conts(r: nat): nat { (r + 58) / 59 }

  lemma {:induction false} ContAt(c: Channel, s: nat, rest: seq<Byte>, i: nat)
    ensures |ContPackets(c, s, rest)| == Conts(|rest|)
    ensures i < Conts(|rest|) ==>
              59 * i < |rest| &&
              ContPackets(c, s, rest)[i] == ContPacket(c, s + i, rest[59 * i..Min(59 * i + 59, |rest|)])
    decreases |rest|
  {
    hide ContPacket, Conts;
    ContsStep(|rest|);
    if rest != [] {
      var n := Min(59, |rest|);
      var tail := rest[n..];
      ContAt(c, s + 1, tail, if i == 0 then 0 else i - 1);
      if 0 < i < Conts(|rest|) {
        ChunkShift(rest, i);
      }
    }
  }

  lemma ContsStep(r: nat)
    ensures Conts(0) == 0 && (r > 0 ==> Conts(r) == 1 + Conts(r - Min(59, r)))
  {
    if r > 59 {
      assert (r + 58) / 59 == 1 + (r - 59 + 58) / 59;
    }
  }

  lemma ChunkShift(rest: seq<Byte>, i: nat)
    requires 0 < i && 59 * i < |rest|
    ensures rest[59..][59 * (i - 1)..Min(59 * i, |rest| - 59)] == rest[59 * i..Min(59 * i + 59, |rest|)]
  {
  }

  lemma ChannelRoundTrip(c: Channel, b: seq<Byte>)
    requires |b| >= 4 && b[..4] == ChannelBytes(c)
    ensures ChannelOf(b) == c
  {
    assert b[0] == b[..4][0] && b[1] == b[..4][1] && b[2] == b[..4][2] && b[3] == b[..4][3];
    var q: nat := c / 256;
    assert c / 0x1_0000 == q / 256 && c / 0x100_0000 == q / 256 / 256;
  }

  lemma InitFields(c: Channel, cmd: Byte, data: seq<Byte>)
    requires |data| < 0x1_0000
    ensures var b, n := InitPacket(c, cmd, data), Min(57, |data|);
            ChannelOf(b) == c && b[4] == cmd && LengthOf(b) == |data| && b[7..7 + n] == data[..n]
  {
    hide ChannelBytes, ChannelOf;
    var b := InitPacket(c, cmd, data);
    assert b[..4] == ChannelBytes(c);
    ChannelRoundTrip(c, b);
  }

  lemma ContFields(c: Channel, s: nat, chunk: seq<Byte>)
    requires |chunk| <= 59
    ensures var b := ContPacket(c, s, chunk);
            ChannelOf(b) == c && b[4] == s % 128 && b[5..5 + |chunk|] == chunk
  {
    hide ChannelBytes, ChannelOf;
    var b := ContPacket(c, s, chunk);
    assert b[..4] == ChannelBytes(c);
    ChannelRoundTrip(c, b);
  }

  lemma ChunkOf(data: seq<Byte>, i: nat)
    requires 57 + 59 * i < |data|
    ensures data[57..][59 * i..Min(59 * i + 59, |data| - 57)] == data[57 + 59 * i..Min(57 + 59 * i + 59, |data|)]
  {
  }

  // ---- The packets of a message, byte by byte ----

  function DataByte(data: seq<Byte>, i: nat): Byte { if i < |data| then data[i] else 0 }

  /** Byte j of packet k: the channel, most significant byte first; then command and length, or the number of the
      continuation; then 57 and 59 bytes of the message, with zeros behind its end. */
  function PacketByte(c: Channel, cmd: Byte, data: seq<Byte>, k: nat, j: nat): Byte
    requires |data| < 0x1_0000 && j < 64
  {
    if j == 0 then c / 0x100_0000
    else if j == 1 then c / 0x1_0000 % 256
    else if j == 2 then c / 256 % 256
    else if j == 3 then c % 256
    else if k > 0 then if j == 4 then (k - 1) % 128 else DataByte(data, 57 + 59 * (k - 1) + (j - 5))
    else if j == 4 then cmd
    else if j == 5 then |data| / 256
    else if j == 6 then |data| % 256
    else DataByte(data, j - 7)
  }

  lemma InitBytes(c: Channel, cmd: Byte, data: seq<Byte>, j: nat)
    requires |data| < 0x1_0000 && j < 64
    ensures InitPacket(c, cmd, data)[j] == PacketByte(c, cmd, data, 0, j)
  {
  }

  lemma ContBytes(c: Channel, cmd: Byte, data: seq<Byte>, k: nat, j: nat)
    requires 0 < k && 57 + 59 * (k - 1) < |data| < 0x1_0000 && j < 64
    ensures var from := 57 + 59 * (k - 1);
            ContPacket(c, k - 1, data[from..Min(from + 59, |data|)])[j] == PacketByte(c, cmd, data, k, j)
  {
  }

  /** What sendCtapResponse puts into every byte of every packet, and how many packets there are. */
  lemma PacketLayout(c: Channel, cmd: Byte, data: seq<Byte>)
    requires |data| < 0x1_0000
    ensures |Packets(c, cmd, data)| == 1 + (if |data| <= 57 then 0 else (|data| - 57 + 58) / 59)
    ensures forall k, j :: 0 <= k < |Packets(c, cmd, data)| && 0 <= j < 64 ==>
              Packets(c, cmd, data)[k][j] == PacketByte(c, cmd, data, k, j)
  {
    hide InitPacket, ContPacket, ContPackets, PacketByte;
    var n := Min(57, |data|);
    ContAt(c, 0, data[n..], 0);
    forall k, j | 0 <= k < |Packets(c, cmd, data)| && 0 <= j < 64
      ensures Packets(c, cmd, data)[k][j] == PacketByte(c, cmd, data, k, j)
    {
      if k == 0 {
        InitBytes(c, cmd, data, j);
      } else {
        ContAt(c, 0, data[n..], k - 1);
        ChunkOf(data, k - 1);
        ContBytes(c, cmd, data, k, j);
      }
    }
  }

  // ---- What a packet does ----

  /** A transfer is in progress, and its last packet is at most 500 ms old. */
  predicate Live(st: Rx, now: nat) { st.expected > 0 && Elapsed(now, st.last) <= 500 }

  /** The error packet with one byte of payload. */
  function ErrorPacket(c: Channel, code: Byte): seq<Byte>
  {
    [c / 0x100_0000, c / 0x1_0000 % 256, c / 256 % 256, c % 256, 0xBF, 0, 1, code] + Zeros(56)
  }

  lemma ErrorIs(c: Channel, code: Byte)
    ensures Error(c, code) == [ErrorPacket(c, code)]
  {
    assert Error(c, code)[0][..7] == ErrorPacket(c, code)[..7];
    assert Error(c, code)[0] == ErrorPacket(c, code);
  }

  /** A packet that is too short does nothing at all. */
  lemma ShortEffect(st: Rx, b: seq<Byte>, now: nat)
    requires |b| < 7
    ensures Step(st, b, now) == (st, [])
  {
  }

  /** A continuation packet: without a live transfer, or on another channel than the live one, it has no effect and no
      answer, except that a transfer that is too old is dropped. */
  lemma ContinuationEffect(st: Rx, b: seq<Byte>, now: nat)
    requires |b| >= 7 && b[4] < 0x80
    ensures !Live(st, now) ==>
              Step(st, b, now) == (if st.expected == 0 then st else st.(expected := 0, data := [], next := 0), [])
    ensures Live(st, now) && ChannelOf(b) != st.channel ==> Step(st, b, now) == (st, [])
    ensures Live(st, now) && ChannelOf(b) == st.channel && b[4] != st.next ==>
              Step(st, b, now) == (st.(expected := 0, data := []), [ErrorPacket(st.channel, 0x04)])
    ensures Live(st, now) && ChannelOf(b) == st.channel && b[4] == st.next && |st.data| < st.expected ==>
              var n := if st.expected - |st.data| > 59 then 59 else st.expected - |st.data|;
              var next := (st.next + 1) % 256;
              var d := st.data + b[5..Min(5 + n, |b|)];
              Step(st, b, now) ==
              if |b| < 5 + n then (st.(expected := 0, data := [], next := next), [ErrorPacket(st.channel, 0x01)])
              else if |d| < st.expected then (st.(data := d, next := next, last := now % CLOCK), [])
              else (st.(expected := 0, data := [], next := next, last := now % CLOCK,
                        pending := Some(Message(st.channel, st.cmd, d))), [])
  {
    hide ChannelOf, Error, ErrorPacket, Elapsed;
    ErrorIs(st.channel, 0x04);
    ErrorIs(st.channel, 0x01);
  }

  /** An initialization packet: a cancellation always becomes the pending command. Otherwise, while a command is
      pending the packet gets no answer on that command's channel and error 5 on any other; else it starts a message,
      unless the announced length is above 7609, which gets error 1, or the packet is shorter than its share. Whatever
      starts or fails, a transfer that was in progress ends. */
  lemma InitializationEffect(st: Rx, b: seq<Byte>, now: nat)
    requires |b| >= 7 && b[4] >= 0x80
    ensures var u := if st.expected > 0 && !Live(st, now) then st.(expected := 0, data := [], next := 0) else st;
            var c, len := ChannelOf(b), b[5] as int * 256 + b[6] as int;
            var n := if len > 57 then 57 else len;
            Step(st, b, now) ==
            if b[4] == 0x91 then (u.(pending := Some(Message(c, 0x91, []))), [])
            else if st.pending.Some? then (u, if st.pending.value.channel == c then [] else [ErrorPacket(c, 0x05)])
            else if len > 7609 then (u.(cmd := b[4], channel := c, expected := 0, data := []), [ErrorPacket(c, 0x01)])
            else if |b| < 7 + n then (u.(cmd := b[4], channel := c, expected := 0, data := []), [])
            else
              var d := b[7..7 + n];
              var v := u.(cmd := b[4], channel := c, next := 0, last := now % CLOCK);
              if 0 < len <= 57 then (v.(expected := 0, data := [], pending := Some(Message(c, b[4], d))), [])
              else (v.(expected := len, data := d), [])
  {
    hide ChannelOf, Error, ErrorPacket, Elapsed;
    var c := ChannelOf(b);
    ErrorIs(c, 0x05);
    ErrorIs(c, 0x01);
  }

  // ---- From sender to receiver, with other traffic between the packets ----

  /** The state after the events es, from st on. */
  function RunFrom(st: Rx, es: seq<Event>): Rx
  {
    if es == [] then st else Next(RunFrom(st, es[..|es| - 1]), es[|es| - 1])
  }

  /** Traffic that does not concern channel c: polls, packets too short to count, continuations of other channels. */
  ghost predicate Bystander(e: Event, c: Channel)
  {
    e.Poll? || |e.b| < 7 || (e.b[4] < 0x80 && ChannelOf(e.b) != c)
  }

  /** The packets ps come in at the places idx, the first at the start and the last at the end; everything between them
      is other traffic. */
  ghost predicate Carries(es: seq<Event>, idx: seq<nat>, ps: seq<seq<Byte>>, c: Channel)
  {
    |idx| == |ps| > 0 && idx[0] == 0 && |es| == idx[|idx| - 1] + 1 &&
    (forall k :: 0 < k < |idx| ==> idx[k - 1] < idx[k]) &&
    (forall k :: 0 <= k < |idx| ==> idx[k] < |es| && es[idx[k]].Packet? && es[idx[k]].b == ps[k]) &&
    (forall k, j :: 0 < k < |idx| && idx[k - 1] < j < idx[k] ==> Bystander(es[j], c))
  }

  /** Up to the next packet of the message, nothing comes in later than 500 ms after the one before. */
  ghost predicate InTime(es: seq<Event>, idx: seq<nat>)
    requires forall k :: 0 <= k < |idx| ==> idx[k] < |es| && es[idx[k]].Packet?
  {
    forall k, j :: 0 < k < |idx| && idx[k - 1] < j <= idx[k] && j < |es| && es[j].Packet? ==>
      Elapsed(es[j].now, es[idx[k - 1]].now) <= 500
  }

  /** The state while a message of at most MAXLEN bytes is arriving: n packets, not yet all of it. */
  function Partial(c: Channel, cmd: Byte, data: seq<Byte>, n: nat, t: nat): Rx
    requires 0 < n && 57 + 59 * (n - 1) < |data|
  {
    Rx(|data|, data[..57 + 59 * (n - 1)], n - 1, cmd, c, t % CLOCK, None)
  }

  lemma InitStep(st: Rx, c: Channel, cmd: Byte, data: seq<Byte>, t: nat)
    requires st.pending.None? && 0x80 <= cmd && cmd != CANCEL && |data| < 0x1_0000
    ensures var u := Step(st, InitPacket(c, cmd, data), t).0;
            if |data| == 0 || |data| > MAXLEN then u.pending.None? && u.expected == 0
            else if |data| <= 57 then u.pending == Some(Message(c, cmd, data))
            else u == Partial(c, cmd, data, 1, t)
  {
    hide ChannelOf, InitPacket, Step;
    InitFields(c, cmd, data);
    InitializationEffect(st, InitPacket(c, cmd, data), t);
    if |data| <= 57 {
      assert data[..|data|] == data;
    }
  }

  lemma ContStep(c: Channel, cmd: Byte, data: seq<Byte>, n: nat, t: nat, now: nat)
    requires 0 < n && 57 + 59 * (n - 1) < |data| <= MAXLEN && Elapsed(now, t) <= 500
    ensures var from := 57 + 59 * (n - 1);
            var chunk := data[from..Min(from + 59, |data|)];
            var u := Step(Partial(c, cmd, data, n, t), ContPacket(c, n - 1, chunk), now).0;
            if from + 59 >= |data| then u.pending == Some(Message(c, cmd, data))
            else u == Partial(c, cmd, data, n + 1, now)
  {
    hide ChannelOf, ContPacket, Step, Elapsed;
    var from := 57 + 59 * (n - 1);
    var to := Min(from + 59, |data|);
    var b := ContPacket(c, n - 1, data[from..to]);
    ContFields(c, n - 1, data[from..to]);
    ClockWraps(now, t);
    ContinuationEffect(Partial(c, cmd, data, n, t), b, now);
    assert Min(5 + (to - from), |b|) == 5 + (to - from);
    TakeMore(data, from, to);
  }

  lemma TakeMore(data: seq<Byte>, from: nat, to: nat)
    requires from <= to <= |data|
    ensures data[..from] + data[from..to] == data[..to]
    ensures to == |data| ==> data[..to] == data
  {
  }

  lemma RunStep(st: Rx, es: seq<Event>, n: nat)
    requires n < |es|
    ensures RunFrom(st, es[..0]) == st && RunFrom(st, es[..n + 1]) == Next(RunFrom(st, es[..n]), es[n])
  {
    hide Next;
    assert es[..n + 1][..n] == es[..n];
  }

  lemma BystanderPartial(c: Channel, cmd: Byte, data: seq<Byte>, n: nat, t: nat, e: Event)
    requires 0 < n && 57 + 59 * (n - 1) < |data| && Bystander(e, c) && (e.Packet? ==> Elapsed(e.now, t) <= 500)
    ensures Next(Partial(c, cmd, data, n, t), e) == Partial(c, cmd, data, n, t)
  {
    hide ChannelOf, Elapsed;
    if e.Packet? {
      ClockWraps(e.now, t);
    }
  }

  /** Between packet k and the next one, n events in, the receiver holds the first k + 1 fragments. */
  lemma {:induction false} CarriedPartial(st: Rx, c: Channel, cmd: Byte, data: seq<Byte>, es: seq<Event>, idx: seq<nat>,
                                          k: nat, n: nat)
    requires st.pending.None? && 0x80 <= cmd && cmd != CANCEL && 57 < |data| <= MAXLEN
    requires Carries(es, idx, Packets(c, cmd, data), c) && InTime(es, idx)
    requires k + 1 < |idx| && idx[k] < n <= idx[k + 1]
    ensures 57 + 59 * k < |data|
    ensures RunFrom(st, es[..n]) == Partial(c, cmd, data, k + 1, es[idx[k]].now)
    decreases n
  {
    hide Step, Elapsed, InitPacket, ContPacket, ContPackets, Partial, RunFrom, Bystander;
    var rest := data[57..];
    RunStep(st, es, n - 1);
    ContAt(c, 0, rest, k);
    if n > idx[k] + 1 {
      CarriedPartial(st, c, cmd, data, es, idx, k, n - 1);
      BystanderPartial(c, cmd, data, k + 1, es[idx[k]].now, es[n - 1]);
    } else if k == 0 {
      InitStep(st, c, cmd, data, es[0].now);
    } else {
      CarriedPartial(st, c, cmd, data, es, idx, k - 1, n - 1);
      ContAt(c, 0, rest, k - 1);
      ChunkOf(data, k - 1);
      ContStep(c, cmd, data, k, es[idx[k - 1]].now, es[idx[k]].now);
    }
  }

  /** Every event before the last lies between two packets of the message, or is one. */
  lemma {:induction false} PlaceOf(es: seq<Event>, idx: seq<nat>, ps: seq<seq<Byte>>, c: Channel, j: nat, m: nat)
    returns (k: nat)
    requires Carries(es, idx, ps, c) && m < |idx| && j < idx[m]
    ensures k + 1 < |idx| && idx[k] <= j < idx[k + 1]
    decreases m
  {
    hide Bystander;
    if idx[m - 1] <= j {
      k := m - 1;
    } else {
      k := PlaceOf(es, idx, ps, c, j, m - 1);
    }
  }

  /** Nothing is pending and nothing is being received. */
  ghost predicate Quiet(st: Rx) { st.pending.None? && st.expected == 0 }

  lemma QuietNext(st: Rx, e: Event)
    requires Quiet(st) && (e.Packet? && |e.b| >= 7 ==> e.b[4] < 0x80)
    ensures Quiet(Next(st, e))
  {
    hide ChannelOf;
  }

  /** The continuations of a message that was not accepted are ignored. */
  lemma {:induction false} StaysQuiet(st: Rx, c: Channel, cmd: Byte, data: seq<Byte>, es: seq<Event>, idx: seq<nat>, n: nat)
    requires |data| < 0x1_0000 && Carries(es, idx, Packets(c, cmd, data), c)
    requires 0 < n <= |es| && Quiet(RunFrom(st, es[..1]))
    ensures Quiet(RunFrom(st, es[..n]))
    decreases n
  {
    hide Next, InitPacket, ContPacket, ContPackets, RunFrom, Quiet;
    if n > 1 {
      var j := n - 1;
      RunStep(st, es, j);
      StaysQuiet(st, c, cmd, data, es, idx, j);
      var m := |idx| - 1;
      var k := m;
      if j < idx[m] {
        k := PlaceOf(es, idx, Packets(c, cmd, data), c, j, m);
      }
      if j == idx[k] {
        OwnContinuation(c, cmd, data, k);
      }
      QuietNext(RunFrom(st, es[..j]), es[j]);
    }
  }

  lemma OwnContinuation(c: Channel, cmd: Byte, data: seq<Byte>, k: nat)
    requires |data| < 0x1_0000 && 0 < k < |Packets(c, cmd, data)|
    ensures Packets(c, cmd, data)[k][4] < 0x80
  {
    hide InitPacket, ContPacket, ContPackets;
    var rest := data[Min(57, |data|)..];
    ContAt(c, 0, rest, k - 1);
    ContFields(c, k - 1, rest[59 * (k - 1)..Min(59 * (k - 1) + 59, |rest|)]);
  }

  lemma LongRoundTrip(st: Rx, c: Channel, cmd: Byte, data: seq<Byte>, es: seq<Event>, idx: seq<nat>)
    requires st.pending.None? && 0x80 <= cmd && cmd != CANCEL && 57 < |data| <= MAXLEN
    requires Carries(es, idx, Packets(c, cmd, data), c) && InTime(es, idx)
    ensures forall n :: 0 < n < |es| ==> RunFrom(st, es[..n]).pending.None?
    ensures RunFrom(st, es[..|es|]).pending == Some(Message(c, cmd, data))
  {
    hide Step, InitPacket, ContPacket, ContPackets, Elapsed, RunFrom, Bystander;
    var m := |idx| - 1;
    ContAt(c, 0, data[57..], 0);
    forall n | 0 < n < |es|
      ensures RunFrom(st, es[..n]).pending.None?
    {
      var k := PlaceOf(es, idx, Packets(c, cmd, data), c, n - 1, m);
      CarriedPartial(st, c, cmd, data, es, idx, k, n);
    }
    LastFragment(st, c, cmd, data, es, idx);
  }

  lemma LastFragment(st: Rx, c: Channel, cmd: Byte, data: seq<Byte>, es: seq<Event>, idx: seq<nat>)
    requires st.pending.None? && 0x80 <= cmd && cmd != CANCEL && 57 < |data| <= MAXLEN
    requires Carries(es, idx, Packets(c, cmd, data), c) && InTime(es, idx)
    ensures RunFrom(st, es[..|es|]).pending == Some(Message(c, cmd, data))
  {
    hide Step, InitPacket, ContPacket, ContPackets, Elapsed, RunFrom, Bystander, Partial;
    var m := |idx| - 1;
    ContAt(c, 0, data[57..], 0);
    ContAt(c, 0, data[57..], m - 1);
    CarriedPartial(st, c, cmd, data, es, idx, m - 1, idx[m]);
    RunStep(st, es, idx[m]);
    ChunkOf(data, m - 1);
    ContStep(c, cmd, data, m, es[idx[m - 1]].now, es[idx[m]].now);
  }

  /** What sending cuts up, receiving puts together again, whatever continuations of other channels, short packets and
      polls come between the packets: for every payload a 16-bit length can announce, a receiver with no command
      pending ends with exactly this message pending if and only if the payload has between 1 and 7609 bytes, and has
      nothing pending before the last packet. */
  lemma RoundTrip(st: Rx, c: Channel, cmd: Byte, data: seq<Byte>, es: seq<Event>, idx: seq<nat>)
    requires st.pending.None? && 0x80 <= cmd && cmd != CANCEL && |data| < 0x1_0000
    requires Carries(es, idx, Packets(c, cmd, data), c) && InTime(es, idx)
    ensures forall n :: 0 <= n < |es| ==> RunFrom(st, es[..n]).pending.None?
    ensures RunFrom(st, es).pending == if 1 <= |data| <= MAXLEN then Some(Message(c, cmd, data)) else None
  {
    hide Step, InitPacket, ContPacket, ContPackets, InTime, RunFrom, Bystander, Partial;
    RunStep(st, es, 0);
    InitStep(st, c, cmd, data, es[0].now);
    assert es[..|es|] == es;
    if 57 < |data| <= MAXLEN {
      LongRoundTrip(st, c, cmd, data, es, idx);
    } else if 1 <= |data| <= 57 {
      ContAt(c, 0, data[|data|..], 0);
    } else {
      forall n | 0 < n <= |es|
        ensures RunFrom(st, es[..n]).pending.None?
      {
        StaysQuiet(st, c, cmd, data, es, idx, n);
      }
    }
  }

  lemma {:induction false} RunOn(g: seq<Event>, es: seq<Event>)
    ensures Run(g + es) == RunFrom(Run(g), es)
    decreases |es|
  {
    hide Next;
    if es == [] {
      assert g + es == g;
    } else {
      var n := |es| - 1;
      RunOn(g, es[..n]);
      assert (g + es)[..|g + es| - 1] == g + es[..n];
    }
  }

  /** As long as nothing is pending, polling hands nothing on. */
  lemma {:induction false} NothingDelivered(g: seq<Event>, es: seq<Event>)
    requires forall n :: 0 <= n < |es| ==> RunFrom(Run(g), es[..n]).pending.None?
    ensures Delivered(g + es) == Delivered(g)
    decreases |es|
  {
    hide Run, RunFrom;
    if es == [] {
      assert g + es == g;
    } else {
      var n := |es| - 1;
      assert forall i :: 0 <= i < n ==> es[..n][..i] == es[..i];
      NothingDelivered(g, es[..n]);
      RunOn(g, es[..n]);
      assert (g + es)[..|g + es| - 1] == g + es[..n];
    }
  }

  /** The message reaches the program: the poll after the last packet hands on this message, and nothing before it. */
  lemma DeliveredOnce(g: seq<Event>, c: Channel, cmd: Byte, data: seq<Byte>, es: seq<Event>, idx: seq<nat>)
    requires Run(g).pending.None? && 0x80 <= cmd && cmd != CANCEL && |data| < 0x1_0000
    requires Carries(es, idx, Packets(c, cmd, data), c) && InTime(es, idx)
    ensures Delivered(g + es) == Delivered(g)
    ensures Delivered(g + es + [Poll]) == Delivered(g) + if 1 <= |data| <= MAXLEN then [Message(c, cmd, data)] else []
  {
    hide Run, RunFrom, Carries, InTime, Packets;
    RoundTrip(Run(g), c, cmd, data, es, idx);
    NothingDelivered(g, es);
    RunOn(g, es);
    assert (g + es + [Poll])[..|g + es|] == g + es;
  }
}
