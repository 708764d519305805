/** Whole runs of a sender: any mix of audio frames and digits. */
module StreamSenderRuns {
  import opened Bytes
  import opened SequenceNumbers
  import opened StreamConfig
  import opened StreamSender
  import H = RtpHeader
  import S = Srtp
  import E = SrtpEndToEnd

  datatype Call = Send(encoded: seq<byte>) | Queue(digit: char)

  function Step(s: Sender, c: Call): (after: Sender)
    requires Valid(s)
    ensures Valid(after) && after.config == s.config && after.ssrc == s.ssrc
  {
    match c
    case Send(encoded) =>
      PacketizedKeepsValid(s, encoded);
      Packetized(s, encoded).0
    case Queue(digit) => Queued(s, digit).0
  }

  function After(s: Sender, calls: seq<Call>): (after: Sender)
    requires Valid(s)
    ensures Valid(after) && after.config == s.config && after.ssrc == s.ssrc
  {
    if calls == [] then s else Step(After(s, calls[..|calls| - 1]), calls[|calls| - 1])
  }

  /** The packets a call sends, before protection. */
  function PacketsIn(s: Sender, c: Call): seq<H.Packet>
    requires Valid(s)
  {
    match c
    case Send(encoded) =>
      PacketizedKeepsValid(s, encoded);
      PacketsOf(WithNextDigit(s), encoded)
    case Queue(_) => []
  }

  function Packets(s: Sender, calls: seq<Call>): seq<H.Packet>
    requires Valid(s)
  {
    if calls == [] then []
    else Packets(s, calls[..|calls| - 1]) + PacketsIn(After(s, calls[..|calls| - 1]), calls[|calls| - 1])
  }

  function DatagramsIn(s: Sender, c: Call): seq<seq<byte>>
    requires Valid(s)
  {
    if c.Send? then Packetized(s, c.encoded).1 else []
  }

  /** What goes out on the network. */
  function Datagrams(s: Sender, calls: seq<Call>): seq<seq<byte>>
    requires Valid(s)
  {
    if calls == [] then []
    else Datagrams(s, calls[..|calls| - 1]) + DatagramsIn(After(s, calls[..|calls| - 1]), calls[|calls| - 1])
  }

  function Sends(calls: seq<Call>): nat {
    if calls == [] then 0 else Sends(calls[..|calls| - 1]) + if calls[|calls| - 1].Send? then 1 else 0
  }

  // ----- Numbering

  /** A plain header as the sender makes them. */
  predicate Plain(h: H.Header) {
    h.version == 2 && !h.padding && !h.extension && h.csrcCount == 0 && h.csrc == [] && h.extensionData.None?
  }

  /** Packets numbered consecutively from `first`. */
  ghost predicate NumberedFrom(packets: seq<H.Packet>, ssrc: u32, first: nat) {
    forall i :: 0 <= i < |packets| ==>
      Plain(packets[i].header) && packets[i].header.sequence == Seq(first + i) && packets[i].header.ssrc == ssrc
  }

  lemma SeqAdds(first: nat, i: nat)
    ensures (Seq(first) + i) % TWO16 == Seq(first + i)
  {
  }

  lemma PacketsOfNumbered(s: Sender, encoded: seq<byte>, index: nat)
    requires Valid(s) && s.sequence == Seq(index)
    ensures NumberedFrom(PacketsOf(s, encoded), s.ssrc, index)
    ensures Advanced(s).sequence == Seq(index + Copies(s))
  {
    hide Seq, Carried;
    SeqAdds(index, Copies(s));
    var packets := PacketsOf(s, encoded);
    forall i | 0 <= i < |packets|
      ensures Plain(packets[i].header) && packets[i].header.sequence == Seq(index + i)
              && packets[i].header.ssrc == s.ssrc
    {
      SeqAdds(index, i);
    }
  }

  /** The packets of a call continue the sequence, and the sender moves past them. */
  lemma CallContinues(s: Sender, c: Call, index: nat)
    requires Valid(s) && s.sequence == Seq(index)
    ensures NumberedFrom(PacketsIn(s, c), s.ssrc, index)
    ensures Step(s, c).sequence == Seq(index + |PacketsIn(s, c)|)
  {
    hide Seq, PacketsOf, Advanced, Copies, ProtectedAll;
    if c.Send? {
      PacketizedKeepsValid(s, c.encoded);
      PacketsOfNumbered(WithNextDigit(s), c.encoded, index);
    }
  }

  /** The n-th packet is numbered seq0 + n. */
  lemma {:induction false} Numbering(s: Sender, calls: seq<Call>, n: nat)
    requires Valid(s) && n <= |calls|
    ensures NumberedFrom(Packets(s, calls[..n]), s.ssrc, s.sequence)
    ensures After(s, calls[..n]).sequence == Seq(s.sequence + |Packets(s, calls[..n])|)
  {
    hide Step, PacketsIn, Seq;
    if n > 0 {
      assert calls[..n][..n - 1] == calls[..n - 1];
      Numbering(s, calls, n - 1);
      CallContinues(After(s, calls[..n - 1]), calls[n - 1], s.sequence + |Packets(s, calls[..n - 1])|);
    } else {
      assert calls[..0] == [];
      SeqAdds(s.sequence, 0);
      SeqOfSmall(s.sequence);
    }
  }

  lemma SeqOfSmall(s: u16)
    ensures Seq(s) == s
  {
  }

  // ----- Protection

  function BytesOf(packets: seq<H.Packet>): (all: seq<seq<byte>>)
    ensures |all| == |packets|
  {
    seq(|packets|, i requires 0 <= i < |packets| => H.PrintedPacket(packets[i]))
  }

  /** SRTP and the sender agree on which number a packet carries. */
  lemma PrintedIsNumbered(p: H.Packet, ssrc: u32, index: nat)
    requires Plain(p.header) && p.header.sequence == Seq(index) && p.header.ssrc == ssrc
    ensures E.Numbered(H.PrintedPacket(p), ssrc, index)
  {
    AlwaysProtectable(p);
    var bytes := H.PrintedPacket(p);
    assert bytes[2..4] == ToBe16(p.header.sequence);
    assert bytes[8..12] == ToBe32(p.header.ssrc);
  }

  lemma RunIsConsecutive(s: Sender, calls: seq<Call>)
    requires Valid(s)
    ensures E.Consecutive(BytesOf(Packets(s, calls)), s.ssrc, s.sequence)
  {
    hide H.PrintedPacket, E.Numbered, Seq, Packets;
    assert calls[..|calls|] == calls;
    Numbering(s, calls, |calls|);
    var packets := Packets(s, calls);
    forall k | 0 <= k < |packets|
      ensures E.Numbered(BytesOf(packets)[k], s.ssrc, s.sequence + k)
    {
      PrintedIsNumbered(packets[k], s.ssrc, s.sequence + k);
    }
  }

  lemma BytesOfSum(a: seq<H.Packet>, b: seq<H.Packet>)
    ensures BytesOf(a + b) == BytesOf(a) + BytesOf(b)
  {
    hide H.PrintedPacket;
  }

  /** Without SRTP the datagrams are the packets. */
  lemma {:induction false} PlainDatagrams(s: Sender, calls: seq<Call>, n: nat)
    requires Valid(s) && s.srtp.None? && n <= |calls|
    ensures After(s, calls[..n]).srtp.None?
    ensures Datagrams(s, calls[..n]) == BytesOf(Packets(s, calls[..n]))
  {
    hide Step, PacketsIn, DatagramsIn, BytesOf;
    if n > 0 {
      assert calls[..n][..n - 1] == calls[..n - 1];
      PlainDatagrams(s, calls, n - 1);
      PlainCall(After(s, calls[..n - 1]), calls[n - 1]);
      BytesOfSum(Packets(s, calls[..n - 1]), PacketsIn(After(s, calls[..n - 1]), calls[n - 1]));
    } else {
      assert calls[..0] == [];
    }
  }

  lemma PlainCall(s: Sender, c: Call)
    requires Valid(s) && s.srtp.None?
    ensures Step(s, c).srtp.None? && DatagramsIn(s, c) == BytesOf(PacketsIn(s, c))
  {
    hide PacketsOf, BytesOf, Carried, Duration;
    if c.Send? {
      PacketizedKeepsValid(s, c.encoded);
      PlainPackets(PacketsOf(WithNextDigit(s), c.encoded));
    } else {
      assert BytesOf([]) == [];
    }
  }

  lemma {:induction false} PlainPackets(packets: seq<H.Packet>)
    ensures ProtectedAll(None, packets) == (None, BytesOf(packets))
  {
    if packets != [] {
      var n := |packets| - 1;
      PlainPackets(packets[..n]);
      assert BytesOf(packets) == BytesOf(packets[..n]) + [H.PrintedPacket(packets[n])];
    }
  }

  // With SRTP, protection continues from call to call as one run of the SRTP sender.

  /** SRTP's counters are those after `sent`. */
  ghost predicate HasSent(srtp: Option<Outbound>, keys: S.Keys, sent: seq<seq<byte>>) {
    srtp == Some(Outbound(keys, E.TxAfter(keys, sent)))
  }

  /** `datagrams` are what SRTP makes of `all[from..]`. */
  ghost predicate AreWire(keys: S.Keys, all: seq<seq<byte>>, start: nat, datagrams: seq<seq<byte>>) {
    && |all| == start + |datagrams|
    && forall i :: 0 <= i < |datagrams| ==> E.Wire(keys, all, start + i) == S.Ok(datagrams[i])
  }

  /** Protecting one more packet. */
  lemma ProtectsNext(srtp: Option<Outbound>, keys: S.Keys, sent: seq<seq<byte>>, packet: H.Packet)
    requires HasSent(srtp, keys, sent) && Plain(packet.header)
    ensures var (after, datagram) := Protected(srtp, packet);
            var all := sent + [H.PrintedPacket(packet)];
            HasSent(after, keys, all) && E.Wire(keys, all, |sent|) == S.Ok(datagram)
  {
    hide H.PrintedPacket;
    AlwaysProtectable(packet);
    assert (sent + [H.PrintedPacket(packet)])[..|sent|] == sent;
  }

  lemma {:induction false} ProtectsAll(srtp: Option<Outbound>, keys: S.Keys, sent: seq<seq<byte>>,
                                       packets: seq<H.Packet>, n: nat)
    requires HasSent(srtp, keys, sent) && n <= |packets|
    requires forall i :: 0 <= i < |packets| ==> Plain(packets[i].header)
    ensures var (after, datagrams) := ProtectedAll(srtp, packets[..n]);
            var all := sent + BytesOf(packets[..n]);
            HasSent(after, keys, all) && AreWire(keys, all, |sent|, datagrams)
  {
    hide Protected, HasSent, E.Wire, H.PrintedPacket;
    if n > 0 {
      assert packets[..n][..n - 1] == packets[..n - 1];
      ProtectsAll(srtp, keys, sent, packets, n - 1);
      var (before, datagrams) := ProtectedAll(srtp, packets[..n - 1]);
      var all := sent + BytesOf(packets[..n - 1]);
      ProtectsNext(before, keys, all, packets[n - 1]);
      var more := all + [H.PrintedPacket(packets[n - 1])];
      assert sent + BytesOf(packets[..n]) == more;
      var now := ProtectedAll(srtp, packets[..n]).1;
      forall i | 0 <= i < |now|
        ensures E.Wire(keys, more, |sent| + i) == S.Ok(now[i])
      {
        if i < |datagrams| {
          assert E.Wire(keys, all, |sent| + i) == S.Ok(datagrams[i]);
          WireIsLocal(keys, more, all, |sent| + i);
        }
      }
    } else {
      assert packets[..n] == [];
      assert sent + BytesOf(packets[..n]) == sent;
    }
  }

  /** What goes out for a packet depends on the packets up to it alone. */
  lemma WireIsLocal(keys: S.Keys, a: seq<seq<byte>>, b: seq<seq<byte>>, k: nat)
    requires k < |a| && k < |b| && a[..k + 1] == b[..k + 1]
    ensures E.Wire(keys, a, k) == E.Wire(keys, b, k)
  {
    hide S.ProtectRtp, E.TxAfter;
    assert a[..k] == a[..k + 1][..k] == b[..k + 1][..k] == b[..k];
    assert a[k] == a[..k + 1][k] == b[..k + 1][k] == b[k];
  }

  lemma ProtectsCall(s: Sender, c: Call, keys: S.Keys, sent: seq<seq<byte>>)
    requires Valid(s) && HasSent(s.srtp, keys, sent)
    ensures var all := sent + BytesOf(PacketsIn(s, c));
            HasSent(Step(s, c).srtp, keys, all) && AreWire(keys, all, |sent|, DatagramsIn(s, c))
  {
    hide HasSent, AreWire, BytesOf, ProtectedAll;
    if c.Send? {
      PacketizedKeepsValid(s, c.encoded);
      var packets := PacketsOf(WithNextDigit(s), c.encoded);
      assert packets[..|packets|] == packets;
      ProtectsAll(s.srtp, keys, sent, packets, |packets|);
    } else {
      NothingMore(keys, sent);
    }
  }

  lemma NothingMore(keys: S.Keys, sent: seq<seq<byte>>)
    ensures sent + BytesOf([]) == sent && AreWire(keys, sent, |sent|, [])
  {
  }

  /** With SRTP, from a fresh context, the n-th datagram is the n-th packet of the stream as an
      SRTP sender sends it. */
  lemma {:induction false} SrtpDatagrams(s: Sender, calls: seq<Call>, keys: S.Keys, n: nat)
    requires Valid(s) && s.srtp == Some(Outbound(keys, S.FRESH_SENDER)) && n <= |calls|
    ensures var packets := BytesOf(Packets(s, calls[..n]));
            HasSent(After(s, calls[..n]).srtp, keys, packets)
            && AreWire(keys, packets, 0, Datagrams(s, calls[..n]))
  {
    hide Step, PacketsIn, DatagramsIn, BytesOf, E.Wire;
    if n > 0 {
      assert calls[..n][..n - 1] == calls[..n - 1];
      SrtpDatagrams(s, calls, keys, n - 1);
      var before := After(s, calls[..n - 1]);
      var sent := BytesOf(Packets(s, calls[..n - 1]));
      ProtectsCall(before, calls[n - 1], keys, sent);
      BytesOfSum(Packets(s, calls[..n - 1]), PacketsIn(before, calls[n - 1]));
      WireExtends(keys, sent, BytesOf(PacketsIn(before, calls[n - 1])),
                  Datagrams(s, calls[..n - 1]), DatagramsIn(before, calls[n - 1]));
    } else {
      assert calls[..0] == [];
      NothingMore(keys, []);
    }
  }

  lemma WireExtends(keys: S.Keys, sent: seq<seq<byte>>, more: seq<seq<byte>>,
                    earlier: seq<seq<byte>>, later: seq<seq<byte>>)
    requires AreWire(keys, sent, 0, earlier) && AreWire(keys, sent + more, |sent|, later)
    ensures AreWire(keys, sent + more, 0, earlier + later)
  {
    hide E.Wire;
    forall i | 0 <= i < |earlier| + |later|
      ensures E.Wire(keys, sent + more, i) == S.Ok((earlier + later)[i])
    {
      if i < |earlier| {
        assert (sent + more)[..i + 1] == sent[..i + 1];
        WireIsLocal(keys, sent + more, sent, i);
        assert E.Wire(keys, sent, 0 + i) == S.Ok(earlier[i]);
      } else {
        assert E.Wire(keys, sent + more, |sent| + (i - |earlier|)) == S.Ok(later[i - |earlier|]);
      }
    }
  }

  /** Over any mix of audio and digits, the n-th datagram under SRTP is the n-th packet sealed under
      index ROC || SEQ == seq0 + n, in 48 bits. */
  lemma OutgoingIndex(s: Sender, calls: seq<Call>, keys: S.Keys, n: nat)
    requires Valid(s) && s.srtp == Some(Outbound(keys, S.FRESH_SENDER)) && n < |Datagrams(s, calls)|
    ensures n < |Packets(s, calls)|
    ensures var packet := H.PrintedPacket(Packets(s, calls)[n]);
            && |packet| >= 12 && S.RtpHeaderLen(packet).Some? && S.SsrcOf(packet) == s.ssrc
            && S.SeqOf(packet) == Seq(s.sequence + n)
            && Datagrams(s, calls)[n] == S.Sealed(keys, packet, Roc(s.sequence + n))
  {
    hide S.Sealed, H.PrintedPacket, E.Wire, Seq, Packets, Datagrams, HasSent;
    assert calls[..|calls|] == calls;
    SrtpDatagrams(s, calls, keys, |calls|);
    RunIsConsecutive(s, calls);
    var packets := BytesOf(Packets(s, calls));
    assert E.Numbered(packets[n], s.ssrc, s.sequence + n);
    E.WireIndex(keys, packets, s.ssrc, s.sequence, n);
    assert E.Wire(keys, packets, 0 + n) == S.Ok(Datagrams(s, calls)[n]);
  }

  /** The initialization vector the n-th datagram is encrypted under. */
  function IvOf(s: Sender, calls: seq<Call>, keys: S.Keys, n: nat): S.Iv
    requires Valid(s) && n < |Packets(s, calls)| && |H.PrintedPacket(Packets(s, calls)[n])| >= 12
  {
    var packet := H.PrintedPacket(Packets(s, calls)[n]);
    S.RtpIv(keys.rtpSalt, S.SsrcOf(packet), Roc(s.sequence + n), S.SeqOf(packet))
  }

  /** No two of fewer than 2^48 datagrams are encrypted under one initialization vector. */
  lemma NoIvTwice(s: Sender, calls: seq<Call>, keys: S.Keys, i: nat, j: nat)
    requires Valid(s) && s.srtp == Some(Outbound(keys, S.FRESH_SENDER))
    requires i < j < |Datagrams(s, calls)| && j - i < TWO48
    ensures j < |Packets(s, calls)|
    ensures |H.PrintedPacket(Packets(s, calls)[i])| >= 12 && |H.PrintedPacket(Packets(s, calls)[j])| >= 12
    ensures IvOf(s, calls, keys, i) != IvOf(s, calls, keys, j)
  {
    hide S.Sealed, H.PrintedPacket, S.RtpIv, Seq, Roc, Packets, Datagrams, Valid;
    OutgoingIndex(s, calls, keys, i);
    OutgoingIndex(s, calls, keys, j);
    E.IvsRepeatEvery48Bits(keys, s.ssrc, s.sequence, i, j);
    NoMultiple(j - i);
  }

  lemma NoMultiple(d: int)
    requires 0 < d < TWO48
    ensures -d % TWO48 != 0
  {
  }

  // ----- The clock

  /** The audio timestamp of the k-th call, counted without wrap. */
  function Clock(s: Sender, k: nat): nat {
    var ticks: int := s.config.codec.TicksPerPacket();
    s.timestamp + k * ticks
  }

  lemma ClockTicks(s: Sender, k: nat)
    ensures (Clock(s, k) % TWO32 + s.config.codec.TicksPerPacket()) % TWO32 == Clock(s, k + 1) % TWO32
  {
    var ticks: int := s.config.codec.TicksPerPacket();
    assert (k + 1) * ticks == k * ticks + ticks;
  }

  /** The k-th call carries timestamp ts0 + k * ticks, whether it sends audio or a digit. */
  lemma {:induction false} AudioClock(s: Sender, calls: seq<Call>, n: nat)
    requires Valid(s) && n <= |calls|
    ensures After(s, calls[..n]).timestamp == Clock(s, Sends(calls[..n])) % TWO32
  {
    hide PacketsOf, ProtectedAll, DtmfTimestamp, Clock, StreamSender.Valid;
    if n > 0 {
      assert calls[..n][..n - 1] == calls[..n - 1];
      AudioClock(s, calls, n - 1);
      ClockTicks(s, Sends(calls[..n - 1]));
    } else {
      assert calls[..0] == [];
      ClockStarts(s);
    }
  }

  lemma ClockStarts(s: Sender)
    ensures Clock(s, 0) % TWO32 == s.timestamp
  {
  }

  // ----- Digits in place of audio

  /** `sent` calls of the digit have gone out and at least one is to come; none out is a digit at
      the head of the queue, about to be taken. */
  ghost predicate InDigit(s: Sender, event: byte, timestamp: u32, sent: nat) {
    && sent < CallsPerDigit(s.config)
    && if sent == 0
       then s.dtmfSending.None? && s.dtmf != [] && s.dtmf[0] == event && DtmfTimestamp(s.config, s.timestamp) == timestamp
       else s.dtmfSending == Some(DtmfSend(event, timestamp, sent))
  }

  /** One call of a digit: its packets share the event's timestamp; they are one, or three with the
      end bit on the last call; the marker is on the first call alone. Queueing disturbs nothing. */
  lemma DigitCall(s: Sender, c: Call, event: byte, timestamp: u32, sent: nat)
    requires Valid(s) && InDigit(s, event, timestamp, sent)
    ensures c.Queue? ==> InDigit(Step(s, c), event, timestamp, sent) && PacketsIn(s, c) == []
    ensures c.Send? ==>
      var last, packets, after := sent + 1 == CallsPerDigit(s.config), PacketsIn(s, c), Step(s, c);
      && |packets| == (if last then 3 else 1)
      && (forall i :: 0 <= i < |packets| ==>
            && packets[i].header.payloadType == s.config.dtmfPayloadType.value
            && packets[i].header.timestamp == timestamp && packets[i].header.marker == (sent == 0)
            && packets[i].payload == [event, if last then END_BIT + DTMF_VOLUME else DTMF_VOLUME]
                                     + ToBe16(Duration(s.config, sent + 1)))
      && (!last ==> InDigit(after, event, timestamp, sent + 1))
      && (last ==> after.dtmfSending.None? && after.marker)
  {
    hide Duration, ProtectedAll;
    if c.Send? { PacketizedKeepsValid(s, c.encoded); }
  }

  /** Durations never fall, and stop at the 16-bit maximum. */
  lemma DurationGrows(config: Config, i: u16, j: u16)
    requires ValidConfig(config) && i <= j
    ensures Duration(config, i) <= Duration(config, j) <= 0xFFFF
  {
    var perPacket: int := config.dtmfClockRate * PACKET_DURATION_MS / 1000;
    assert i * perPacket <= j * perPacket;
  }

  /** A digit occupies exactly `CallsPerDigit` calls: the call numbered `sent` of them finds it in
      that place, whatever else is queued meanwhile. */
  lemma {:induction false} DigitOccupies(s: Sender, calls: seq<Call>, event: byte, timestamp: u32, n: nat)
    requires Valid(s) && InDigit(s, event, timestamp, 0) && n <= |calls|
    requires Sends(calls[..n]) < CallsPerDigit(s.config)
    ensures InDigit(After(s, calls[..n]), event, timestamp, Sends(calls[..n]))
  {
    hide InDigit, Step, StreamSender.Valid, CallsPerDigit;
    if n > 0 {
      assert calls[..n][..n - 1] == calls[..n - 1];
      DigitOccupies(s, calls, event, timestamp, n - 1);
      DigitCall(After(s, calls[..n - 1]), calls[n - 1], event, timestamp, Sends(calls[..n - 1]));
    } else {
      assert calls[..0] == [];
    }
  }

  /** And it takes two packets more than calls: one each, and three for the last. */
  lemma {:induction false} DigitTakes(s: Sender, calls: seq<Call>, event: byte, timestamp: u32, n: nat)
    requires Valid(s) && InDigit(s, event, timestamp, 0) && n <= |calls|
    requires Sends(calls[..n]) <= CallsPerDigit(s.config) && (n == 0 || Sends(calls[..n - 1]) < CallsPerDigit(s.config))
    ensures |Packets(s, calls[..n])| == Sends(calls[..n]) + if Sends(calls[..n]) == CallsPerDigit(s.config) then 2 else 0
  {
    hide InDigit, Step, PacketsIn, StreamSender.Valid;
    if n > 0 {
      assert calls[..n][..n - 1] == calls[..n - 1];
      if n > 1 { assert calls[..n - 1][..n - 2] == calls[..n - 2]; }
      DigitTakes(s, calls, event, timestamp, n - 1);
      DigitOccupies(s, calls, event, timestamp, n - 1);
      DigitCall(After(s, calls[..n - 1]), calls[n - 1], event, timestamp, Sends(calls[..n - 1]));
    } else {
      assert calls[..0] == [];
    }
  }

  // ----- Counting what is sent

  /** The counters are of all that has gone out. */
  lemma {:induction false} SentIsCounted(s: Sender, calls: seq<Call>, n: nat)
    requires Valid(s) && n <= |calls|
    ensures After(s, calls[..n]).packetsSent == s.packetsSent + |Datagrams(s, calls[..n])|
    ensures After(s, calls[..n]).bytesSent == s.bytesSent + Sizes(Datagrams(s, calls[..n]))
  {
    hide Step, DatagramsIn, StreamSender.Valid, Sizes;
    if n > 0 {
      assert calls[..n][..n - 1] == calls[..n - 1];
      SentIsCounted(s, calls, n - 1);
      CallIsCounted(After(s, calls[..n - 1]), calls[n - 1]);
      SizesAdd(Datagrams(s, calls[..n - 1]), DatagramsIn(After(s, calls[..n - 1]), calls[n - 1]));
    } else {
      assert calls[..0] == [];
      NothingProtected(None);
    }
  }

  lemma CallIsCounted(s: Sender, c: Call)
    requires Valid(s)
    ensures Step(s, c).packetsSent == s.packetsSent + |DatagramsIn(s, c)|
    ensures Step(s, c).bytesSent == s.bytesSent + Sizes(DatagramsIn(s, c))
  {
    hide PacketsOf, ProtectedAll;
    NothingProtected(None);
    if c.Send? { PacketizedKeepsValid(s, c.encoded); }
  }

  lemma {:induction false} SizesAdd(a: seq<seq<byte>>, b: seq<seq<byte>>)
    ensures Sizes(a + b) == Sizes(a) + Sizes(b)
    decreases |b|
  {
    if b == [] {
      assert a + b == a;
    } else {
      var n := |b| - 1;
      SizesAdd(a, b[..n]);
      assert (a + b)[..|a| + n] == a + b[..n];
    }
  }

  /** A digit is queued, and said to be, exactly when events were negotiated and it is one of the sixteen, in either
      case of letter. */
  lemma QueuedIff(s: Sender, digit: char)
    ensures var (after, queued) := Queued(s, digit);
            && (queued <==> s.config.dtmfPayloadType.Some? && IsDtmfChar(digit))
            && (!queued ==> after == s)
            && (queued ==> |after.dtmf| == |s.dtmf| + 1 && after == s.(dtmf := after.dtmf))
  {
    DigitTable(digit);
    hide DtmfEventCode, IsDtmfChar;
  }

  // ----- The marker

  /** The last call that sent anything sent a digit, or there was none. */
  ghost predicate AfterDigit(s: Sender, calls: seq<Call>)
    requires Valid(s)
  {
    if calls == [] then true
    else
      var n := |calls| - 1;
      if calls[n].Send? then WithNextDigit(After(s, calls[..n])).dtmfSending.Some? else AfterDigit(s, calls[..n])
  }

  /** From a new sender a frame is marked exactly when it is the first, or the first after a digit: the start of a
      talkspurt. */
  lemma {:induction false} MarkerIff(s: Sender, calls: seq<Call>, n: nat)
    requires Valid(s) && s == NewSender(s.config, s.srtp, s.ssrc, s.sequence, s.timestamp) && n <= |calls|
    ensures After(s, calls[..n]).marker <==> AfterDigit(s, calls[..n])
  {
    hide Step, StreamSender.Valid, WithNextDigit;
    if n > 0 {
      assert calls[..n][..n - 1] == calls[..n - 1];
      MarkerIff(s, calls, n - 1);
      StepMarks(After(s, calls[..n - 1]), calls[n - 1]);
    } else {
      assert calls[..0] == [];
    }
  }

  lemma StepMarks(s: Sender, c: Call)
    requires Valid(s)
    ensures Step(s, c).marker == if c.Send? then WithNextDigit(s).dtmfSending.Some? else s.marker
  {
    hide PacketsOf, ProtectedAll;
    if c.Send? { PacketizedKeepsValid(s, c.encoded); }
  }
}
