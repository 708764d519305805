/** A stream's two ends with a network between them: the datagrams of a sender arrive at a receiver, lost,
    repeated or reordered, among harmless strays and playout ticks. */
module StreamNetwork {
  import opened Bytes
  import opened SequenceNumbers
  import opened StreamConfig
  import opened StreamSender
  import opened StreamSenderRuns
  import opened StreamDtmf
  import J = Jitter
  import R = StreamReceiver
  import RR = StreamReceiverRuns
  import H = RtpHeader
  import S = Srtp
  import E = SrtpEndToEnd
  import T = SourceTable

  // ----- The receiver, one arrival

  /** A payload type that fits its field and is not mistaken for RTCP. */
  predicate GoodPayloadType(pt: byte) {
    pt < 0x80 && !R.IsRtcp(pt)
  }

  /** Both ends negotiated the same payload types, and the receiver takes datagrams from there. */
  ghost predicate Agree(s: Sender, r: R.Receiver, from: Address) {
    && r.config.payloadType == s.config.payloadType && r.config.dtmfPayloadType == s.config.dtmfPayloadType
    && s.config.dtmfPayloadType != Some(s.config.payloadType)
    && GoodPayloadType(s.config.payloadType)
    && (s.config.dtmfPayloadType.Some? ==> GoodPayloadType(s.config.dtmfPayloadType.value))
    && R.Trusts(r, from)
  }

  /** Nothing has been accepted yet, or this sender's packets last. */
  predicate SameSource(s: Sender, r: R.Receiver) {
    r.remoteSsrc.None? || r.remoteSsrc == Some(s.ssrc)
  }

  /** What is remembered of this sender's digits: nothing, when another was heard last. */
  function Memory(s: Sender, r: R.Receiver): Option<u32> {
    if SameSource(s, r) then r.lastDtmfTimestamp else None
  }

  /** The datagram is that packet as the receiver's SRTP, if any, sees it: recovered, or refused. */
  ghost predicate Carries(r: R.Receiver, datagram: seq<byte>, p: H.Packet) {
    && |datagram| >= 12 && datagram[0] / 0x40 == 2 && datagram[1] == H.SecondByte(p.header)
    && (R.Decrypted(r, datagram).1 == S.Ok(H.PrintedPacket(p)) || R.Decrypted(r, datagram).1.Err?)
  }

  /** What the receiver reads in a packet of the sender's. */
  lemma ReadsContent(s: Sender, config: Config, p: H.Packet, presses: seq<PressEvent>, tag: Option<nat>)
    requires config.payloadType == s.config.payloadType && config.dtmfPayloadType == s.config.dtmfPayloadType
    requires s.config.dtmfPayloadType != Some(s.config.payloadType) && p.header.payloadType < 0x80
    requires Fits(s, presses, p, tag)
    ensures H.PrintedPacket(p) != []
    ensures R.ContentOf(config, H.PrintedPacket(p))
         == if tag.Some? then R.Event(p.header, p.payload) else R.Audio(p.header, p.payload)
  {
    hide H.Printed, H.Parsed, Stamp;
    H.ParsesBack(p.header, p.payload);
    assert H.PrintedPacket(p)[p.header.Length()..] == p.payload;
  }

  /** What the receiver makes of a packet with this tag, whatever the clocks: audio reports nothing, a
      press is reported and remembered exactly when it is heeded. */
  ghost predicate Answers(s: Sender, presses: seq<PressEvent>, r: R.Receiver, tag: Option<nat>,
                          after: R.Receiver, digit: Option<R.DtmfEvent>)
    requires InOrder(presses) && (tag.Some? ==> tag.value < |presses|)
  {
    if tag.Some? && Heeds(Memory(s, r), Stamp(s, presses[tag.value]))
    then digit == Some(EventFor(presses[tag.value])) && Memory(s, after) == Some(Stamp(s, presses[tag.value]))
    else digit == None && Memory(s, after) == Memory(s, r)
  }

  /** A packet recovered. */
  lemma Hears(s: Sender, presses: seq<PressEvent>, r: R.Receiver, from: Address,
              p: H.Packet, tag: Option<nat>, size: nat, now: int)
    requires InOrder(presses) && Agree(s, r, from) && Fits(s, presses, p, tag) && p.header.ssrc == s.ssrc
    ensures H.PrintedPacket(p) != []
    ensures var (after, verdict) := R.Consume(r, R.ContentOf(r.config, H.PrintedPacket(p)), size, from, now);
            && verdict.Taken? && Answers(s, presses, r, tag, after, verdict.digit)
            && Agree(s, after, from) && after.srtp == r.srtp && after.remoteSsrc == Some(s.ssrc)
  {
    hide Stamp, R.IsNewer, R.ContentOf;
    ReadsContent(s, r.config, p, presses, tag);
  }

  predicate Recovers(r: R.Receiver, datagram: seq<byte>) {
    R.Decrypted(r, datagram).1.Ok?
  }

  /** One arrival, through every gate of the receiver. */
  lemma HearsDatagram(s: Sender, presses: seq<PressEvent>, r: R.Receiver, from: Address,
                      p: H.Packet, tag: Option<nat>, datagram: seq<byte>, now: int)
    requires InOrder(presses) && Agree(s, r, from) && Fits(s, presses, p, tag) && p.header.ssrc == s.ssrc
    requires Carries(r, datagram, p)
    ensures var (after, verdict) := R.Ingested(r, datagram, from, now);
            && (if Recovers(r, datagram) then verdict.Taken? && Answers(s, presses, r, tag, after, verdict.digit)
                else verdict.Refused? && Memory(s, after) == Memory(s, r))
            && Agree(s, after, from) && after.srtp == R.Decrypted(r, datagram).0
            && after.remoteSsrc == (if Recovers(r, datagram) then Some(s.ssrc) else r.remoteSsrc)
  {
    hide Stamp, Heeds, R.Consume, R.ContentOf, H.PrintedPacket;
    var started := R.Started(r, now);
    assert R.Decrypted(started, datagram) == R.Decrypted(r, datagram);
    assert Some(p.header.payloadType) == s.config.dtmfPayloadType || p.header.payloadType == s.config.payloadType;
    assert datagram[1] % 0x80 == p.header.payloadType;
    if Recovers(r, datagram) {
      Hears(s, presses, started.(srtp := R.Decrypted(r, datagram).0), from, p, tag, |datagram|, now);
    }
  }

  /** What a packet recovered does to the jitter buffer: audio is pushed, and an event leaves it alone. */
  lemma PacketOnJitter(s: Sender, presses: seq<PressEvent>, r: R.Receiver, from: Address,
                       p: H.Packet, tag: Option<nat>, datagram: seq<byte>, now: int)
    requires Agree(s, r, from) && SameSource(s, r) && Fits(s, presses, p, tag) && p.header.ssrc == s.ssrc
    requires Carries(r, datagram, p) && Recovers(r, datagram)
    ensures R.Ingested(r, datagram, from, now).0.jitter
         == if tag.Some? then r.jitter
            else J.Pushed(r.jitter, p.header.sequence, p.header.timestamp, p.payload, now).0
  {
    assert datagram[1] % 0x80 == p.header.payloadType;
    ReadsContent(s, r.config, p, presses, tag);
    var started := R.Started(r, now);
    assert R.Decrypted(started, datagram) == R.Decrypted(r, datagram);
    hide R.ContentOf, H.PrintedPacket, J.Pushed, R.Decrypted, Stamp;
    TakesIt(r, datagram, from, now, p);
    RR.IngestOnJitter(r, datagram, from, now);
  }

  /** It gets through every gate. */
  lemma TakesIt(r: R.Receiver, datagram: seq<byte>, from: Address, now: int, p: H.Packet)
    requires |datagram| >= 12 && datagram[0] / 0x40 == 2 && !R.IsRtcp(datagram[1]) && R.Trusts(r, from)
    requires R.Decrypted(r, datagram).1 == S.Ok(H.PrintedPacket(p)) && H.PrintedPacket(p) != []
    requires !R.ContentOf(r.config, H.PrintedPacket(p)).Bad?
    ensures R.Ingested(r, datagram, from, now).1.Taken?
  {
    hide R.ContentOf, H.PrintedPacket, R.IsRtcp, R.IsNewer, DtmfDigit, J.Pushed;
    assert R.Decrypted(R.Started(r, now), datagram) == R.Decrypted(r, datagram);
  }

  // ----- Whole runs

  /** The sender's n-th datagram, anything else from anywhere, or a playout tick. */
  datatype Arrival =
    | Sent(n: nat, now: int)
    | Stray(bytes: seq<byte>, source: Address, now: int)
    | Tick(now: int, wanted: u32, decoded: seq<int>)

  function AsEvent(datagrams: seq<seq<byte>>, from: Address, a: Arrival): RR.Event {
    match a
    case Sent(n, now) => RR.Datagram(if n < |datagrams| then datagrams[n] else [], from, now)
    case Stray(bytes, source, now) => RR.Datagram(bytes, source, now)
    case Tick(now, wanted, decoded) => RR.Tick(now, wanted, decoded)
  }

  ghost function Hearing(r: R.Receiver, datagrams: seq<seq<byte>>, from: Address, arrivals: seq<Arrival>)
    : (after: R.Receiver)
    requires RR.Valid(r)
    ensures RR.Valid(after) && after.config == r.config
  {
    if arrivals == [] then r
    else
      var j := |arrivals| - 1;
      RR.Step(Hearing(r, datagrams, from, arrivals[..j]), AsEvent(datagrams, from, arrivals[j]))
  }

  /** What a datagram makes the receiver report. */
  ghost function ReportOf(r: R.Receiver, e: RR.Event): seq<R.DtmfEvent> {
    if RR.Takes(r, e) && RR.VerdictOn(r, e).digit.Some? then [RR.VerdictOn(r, e).digit.value] else []
  }

  /** The digits reported, in order. */
  ghost function Reported(r: R.Receiver, datagrams: seq<seq<byte>>, from: Address, arrivals: seq<Arrival>): seq<R.DtmfEvent>
    requires RR.Valid(r)
  {
    if arrivals == [] then []
    else
      var j := |arrivals| - 1;
      Reported(r, datagrams, from, arrivals[..j])
      + ReportOf(Hearing(r, datagrams, from, arrivals[..j]), AsEvent(datagrams, from, arrivals[j]))
  }

  /** The press an arrival is of, if the receiver recovers it and it is of one. */
  ghost function TagNow(r: R.Receiver, datagrams: seq<seq<byte>>, tags: seq<Option<nat>>, a: Arrival): Option<nat> {
    if a.Sent? && a.n < |datagrams| && a.n < |tags| && Recovers(r, datagrams[a.n]) then tags[a.n] else None
  }

  /** The presses whose packets the receiver recovers, packet by packet in order of arrival. */
  ghost function Recovered(r: R.Receiver, datagrams: seq<seq<byte>>, from: Address, tags: seq<Option<nat>>,
                           arrivals: seq<Arrival>): seq<nat>
    requires RR.Valid(r)
  {
    if arrivals == [] then []
    else
      var j := |arrivals| - 1;
      var tag := TagNow(Hearing(r, datagrams, from, arrivals[..j]), datagrams, tags, arrivals[j]);
      Recovered(r, datagrams, from, tags, arrivals[..j]) + if tag.Some? then [tag.value] else []
  }

  /** A datagram of the sender's comes as its packet or is refused; a stray is harmless. */
  ghost predicate Brought(packets: seq<H.Packet>, r: R.Receiver, datagrams: seq<seq<byte>>, a: Arrival)
    requires |packets| == |datagrams|
  {
    match a
    case Sent(n, _) => n < |packets| && Carries(r, datagrams[n], packets[n])
    case Stray(bytes, source, _) => RR.Harmless(r, bytes, source)
    case Tick(_, _, _) => true
  }

  ghost predicate CarriesAt(packets: seq<H.Packet>, r: R.Receiver, datagrams: seq<seq<byte>>, from: Address,
                            arrivals: seq<Arrival>, j: nat)
    requires RR.Valid(r) && |packets| == |datagrams| && j < |arrivals|
  {
    Brought(packets, Hearing(r, datagrams, from, arrivals[..j]), datagrams, arrivals[j])
  }

  ghost predicate AllCarried(packets: seq<H.Packet>, r: R.Receiver, datagrams: seq<seq<byte>>, from: Address,
                             arrivals: seq<Arrival>)
    requires RR.Valid(r) && |packets| == |datagrams|
  {
    forall j :: 0 <= j < |arrivals| ==> CarriesAt(packets, r, datagrams, from, arrivals, j)
  }

  /** What one arrival does: the press it is of is reported and remembered exactly when it is heeded, and
      nothing else is; SRTP moves with the sender's datagrams alone. */
  ghost predicate Takes(s: Sender, presses: seq<PressEvent>, r: R.Receiver, from: Address, tag: Option<nat>,
                        after: R.Receiver, report: seq<R.DtmfEvent>)
    requires InOrder(presses)
  {
    && (tag.Some? ==> tag.value < |presses|) && Agree(s, after, from) && (SameSource(s, r) ==> SameSource(s, after))
    && if tag.Some? && Heeds(Memory(s, r), Stamp(s, presses[tag.value]))
       then report == [EventFor(presses[tag.value])] && Memory(s, after) == Some(Stamp(s, presses[tag.value]))
       else report == [] && Memory(s, after) == Memory(s, r)
  }

  lemma HearsSent(s: Sender, presses: seq<PressEvent>, packets: seq<H.Packet>, tags: seq<Option<nat>>,
                  r: R.Receiver, datagrams: seq<seq<byte>>, from: Address, a: Arrival)
    requires RR.Valid(r) && InOrder(presses) && Agree(s, r, from) && a.Sent?
    requires AllFit(s, presses, packets, tags) && |datagrams| == |packets| && SameSsrc(packets, s.ssrc)
    requires Brought(packets, r, datagrams, a)
    ensures var e := AsEvent(datagrams, from, a);
            && Takes(s, presses, r, from, TagNow(r, datagrams, tags, a), RR.Step(r, e), ReportOf(r, e))
            && RR.Step(r, e).srtp == R.Decrypted(r, datagrams[a.n]).0
            && RR.Step(r, e).remoteSsrc == (if Recovers(r, datagrams[a.n]) then Some(s.ssrc) else r.remoteSsrc)
  {
    hide R.Ingested, Carries, R.Decrypted, Stamp, Agree, Recovers, Heeds, EventFor, RR.Valid;
    assert Fits(s, presses, packets[a.n], tags[a.n]);
    HearsDatagram(s, presses, r, from, packets[a.n], tags[a.n], datagrams[a.n], a.now);
    StepIsIngest(r, AsEvent(datagrams, from, a));
    FitsBelow(s, presses, packets[a.n], tags[a.n]);
  }

  lemma FitsBelow(s: Sender, presses: seq<PressEvent>, p: H.Packet, tag: Option<nat>)
    requires Fits(s, presses, p, tag)
    ensures tag.Some? ==> tag.value < |presses|
  {
  }

  lemma StepIsIngest(r: R.Receiver, e: RR.Event)
    requires RR.Valid(r) && e.Datagram?
    ensures RR.Step(r, e) == R.Ingested(r, e.bytes, e.from, e.now).0
    ensures RR.VerdictOn(r, e) == R.Ingested(r, e.bytes, e.from, e.now).1
  {
  }

  lemma HearsStray(s: Sender, r: R.Receiver, from: Address, e: RR.Event)
    requires RR.Valid(r) && Agree(s, r, from) && e.Datagram? && RR.Harmless(r, e.bytes, e.from)
    ensures var after := RR.Step(r, e);
            && Agree(s, after, from) && ReportOf(r, e) == [] && Memory(s, after) == Memory(s, r)
            && after.srtp == r.srtp && after.jitter == r.jitter && after.remoteSsrc == r.remoteSsrc
  {
    hide R.Ingested, RR.Harmless;
    RR.HarmlessChangesNothing(r, e.bytes, e.from, e.now);
    StepIsIngest(r, e);
  }

  lemma HearsTick(s: Sender, r: R.Receiver, from: Address, e: RR.Event)
    requires RR.Valid(r) && Agree(s, r, from) && e.Tick?
    ensures var after := RR.Step(r, e);
            && Agree(s, after, from) && ReportOf(r, e) == [] && Memory(s, after) == Memory(s, r)
            && after.srtp == r.srtp && after.jitter == J.Popped(r.jitter, e.now, e.wanted).0
            && after.remoteSsrc == r.remoteSsrc
  {
    hide J.Popped, R.TimesOut, J.Valid, ValidConfig, GoodPayloadType;
  }

  /** One arrival of a run. */
  lemma HearsArrival(s: Sender, presses: seq<PressEvent>, packets: seq<H.Packet>, tags: seq<Option<nat>>,
                     r: R.Receiver, datagrams: seq<seq<byte>>, from: Address, a: Arrival)
    requires RR.Valid(r) && InOrder(presses) && Agree(s, r, from)
    requires AllFit(s, presses, packets, tags) && |datagrams| == |packets| && SameSsrc(packets, s.ssrc)
    requires Brought(packets, r, datagrams, a)
    ensures var e := AsEvent(datagrams, from, a);
            && Takes(s, presses, r, from, TagNow(r, datagrams, tags, a), RR.Step(r, e), ReportOf(r, e))
            && RR.Step(r, e).remoteSsrc
               == (if a.Sent? && Recovers(r, datagrams[a.n]) then Some(s.ssrc) else r.remoteSsrc)
            && RR.Step(r, e).srtp == if a.Sent? then R.Decrypted(r, datagrams[a.n]).0 else r.srtp
  {
    hide RR.Step, RR.Valid, Agree, Carries, ReportOf, RR.Harmless, R.Decrypted, Stamp, Heeds, EventFor;
    match a
    case Sent(_, _) => HearsSent(s, presses, packets, tags, r, datagrams, from, a);
    case Stray(_, _, _) => HearsStray(s, r, from, AsEvent(datagrams, from, a));
    case Tick(_, _, _) => HearsTick(s, r, from, AsEvent(datagrams, from, a));
  }

  lemma OneMoreArrival(r: R.Receiver, datagrams: seq<seq<byte>>, from: Address, tags: seq<Option<nat>>,
                       arrivals: seq<Arrival>, j: nat)
    requires RR.Valid(r) && j < |arrivals|
    ensures var before, e := Hearing(r, datagrams, from, arrivals[..j]), AsEvent(datagrams, from, arrivals[j]);
            var ms, tag := Recovered(r, datagrams, from, tags, arrivals[..j]), TagNow(before, datagrams, tags, arrivals[j]);
            && Hearing(r, datagrams, from, arrivals[..j + 1]) == RR.Step(before, e)
            && Recovered(r, datagrams, from, tags, arrivals[..j + 1]) == (if tag.Some? then ms + [tag.value] else ms)
            && Reported(r, datagrams, from, arrivals[..j + 1])
               == Reported(r, datagrams, from, arrivals[..j]) + ReportOf(before, e)
  {
    hide RR.Step, RR.Valid, ReportOf, AsEvent, TagNow;
    assert arrivals[..j + 1][..j] == arrivals[..j];
  }

  /** What has been reported, and what is remembered of it, is what is heeded of these packets. */
  ghost predicate Heard(s: Sender, presses: seq<PressEvent>, now: R.Receiver, from: Address, ms: seq<nat>,
                        reported: seq<R.DtmfEvent>)
    requires InOrder(presses)
  {
    && AllBelow(ms, |presses|) && Agree(s, now, from)
    && Memory(s, now) == LastStamp(s, presses, Heeded(s, presses, ms))
    && reported == EventsAt(presses, Heeded(s, presses, ms))
  }

  lemma HeardOneMore(s: Sender, presses: seq<PressEvent>, now: R.Receiver, from: Address, ms: seq<nat>,
                     reported: seq<R.DtmfEvent>, tag: Option<nat>, after: R.Receiver, report: seq<R.DtmfEvent>)
    requires InOrder(presses) && Heard(s, presses, now, from, ms, reported)
    requires Takes(s, presses, now, from, tag, after, report)
    ensures Heard(s, presses, after, from, if tag.Some? then ms + [tag.value] else ms, reported + report)
  {
    hide Agree, Stamp, Heeds, Heeded, EventFor, AllBelow;
    if tag.Some? {
      OneMoreHeeded(s, presses, ms, tag.value);
    }
    assert reported + [] == reported;
  }

  /** Whatever the network does and whatever the clocks, what is reported is what is heeded of the
      packets recovered. */
  lemma {:induction false} ReportsHeeded(s: Sender, presses: seq<PressEvent>, packets: seq<H.Packet>, tags: seq<Option<nat>>,
                                         r: R.Receiver, datagrams: seq<seq<byte>>, from: Address,
                                         arrivals: seq<Arrival>, j: nat)
    requires RR.Valid(r) && InOrder(presses) && Agree(s, r, from) && Memory(s, r).None?
    requires AllFit(s, presses, packets, tags) && |datagrams| == |packets| && SameSsrc(packets, s.ssrc)
    requires AllCarried(packets, r, datagrams, from, arrivals) && j <= |arrivals|
    ensures Heard(s, presses, Hearing(r, datagrams, from, arrivals[..j]), from,
                  Recovered(r, datagrams, from, tags, arrivals[..j]), Reported(r, datagrams, from, arrivals[..j]))
  {
    hide RR.Step, RR.Valid, Agree, AllFit, Brought, SameSsrc, Heard, Takes, Recovered, Hearing, Reported,
         InOrder, ReportOf, AsEvent, TagNow;
    if j > 0 {
      ReportsHeeded(s, presses, packets, tags, r, datagrams, from, arrivals, j - 1);
      assert CarriesAt(packets, r, datagrams, from, arrivals, j - 1);
      OneMoreArrival(r, datagrams, from, tags, arrivals, j - 1);
      var before, a := Hearing(r, datagrams, from, arrivals[..j - 1]), arrivals[j - 1];
      HeardAgrees(s, presses, before, from, Recovered(r, datagrams, from, tags, arrivals[..j - 1]),
                  Reported(r, datagrams, from, arrivals[..j - 1]));
      HearsArrival(s, presses, packets, tags, before, datagrams, from, a);
      HeardOneMore(s, presses, before, from, Recovered(r, datagrams, from, tags, arrivals[..j - 1]),
                   Reported(r, datagrams, from, arrivals[..j - 1]), TagNow(before, datagrams, tags, a),
                   RR.Step(before, AsEvent(datagrams, from, a)), ReportOf(before, AsEvent(datagrams, from, a)));
    } else {
      assert arrivals[..0] == [];
      NothingHeard(r, datagrams, from, tags);
      HeardAtFirst(s, presses, r, from);
    }
  }

  lemma HeardAgrees(s: Sender, presses: seq<PressEvent>, now: R.Receiver, from: Address, ms: seq<nat>,
                    reported: seq<R.DtmfEvent>)
    requires InOrder(presses) && Heard(s, presses, now, from, ms, reported)
    ensures Agree(s, now, from)
  {
    hide Agree, Heeded;
  }

  lemma HeardAtFirst(s: Sender, presses: seq<PressEvent>, r: R.Receiver, from: Address)
    requires InOrder(presses) && Agree(s, r, from) && Memory(s, r).None?
    ensures Heard(s, presses, r, from, [], [])
  {
    hide Agree;
    NothingHeeded(s, presses);
  }

  lemma NothingHeard(r: R.Receiver, datagrams: seq<seq<byte>>, from: Address, tags: seq<Option<nat>>)
    requires RR.Valid(r)
    ensures Hearing(r, datagrams, from, []) == r && Reported(r, datagrams, from, []) == []
    ensures Recovered(r, datagrams, from, tags, []) == []
  {
  }

  // ----- What the network must be

  /** The sender's datagrams, each any number of times and in any order, and harmless strays. */
  ghost predicate ComesAt(r: R.Receiver, datagrams: seq<seq<byte>>, from: Address, arrivals: seq<Arrival>, j: nat)
    requires RR.Valid(r) && j < |arrivals|
  {
    match arrivals[j]
    case Sent(n, _) => n < |datagrams|
    case Stray(bytes, source, _) => RR.Harmless(Hearing(r, datagrams, from, arrivals[..j]), bytes, source)
    case Tick(_, _, _) => true
  }

  ghost predicate Comes(r: R.Receiver, datagrams: seq<seq<byte>>, from: Address, arrivals: seq<Arrival>)
    requires RR.Valid(r)
  {
    forall j :: 0 <= j < |arrivals| ==> ComesAt(r, datagrams, from, arrivals, j)
  }

  function SentCount(arrivals: seq<Arrival>): nat {
    if arrivals == [] then 0
    else SentCount(arrivals[..|arrivals| - 1]) + if arrivals[|arrivals| - 1].Sent? then 1 else 0
  }

  /** The sender's datagrams come one after the other, none missing so far. */
  ghost predicate InSequence(arrivals: seq<Arrival>) {
    forall j :: 0 <= j < |arrivals| ==> InSequenceAt(arrivals, j)
  }

  ghost predicate InSequenceAt(arrivals: seq<Arrival>, j: nat)
    requires j < |arrivals|
  {
    arrivals[j].Sent? ==> arrivals[j].n == SentCount(arrivals[..j])
  }

  /** Every datagram of the sender's that arrives is recovered. */
  ghost predicate RecoversAt(r: R.Receiver, datagrams: seq<seq<byte>>, from: Address, arrivals: seq<Arrival>, j: nat)
    requires RR.Valid(r) && j < |arrivals|
  {
    arrivals[j].Sent? ==>
      arrivals[j].n < |datagrams| && Recovers(Hearing(r, datagrams, from, arrivals[..j]), datagrams[arrivals[j].n])
  }

  ghost predicate AllRecovered(r: R.Receiver, datagrams: seq<seq<byte>>, from: Address, arrivals: seq<Arrival>)
    requires RR.Valid(r)
  {
    forall j :: 0 <= j < |arrivals| ==> RecoversAt(r, datagrams, from, arrivals, j)
  }

  // ----- Plain RTP

  /** The sender fresh, the receiver trusting it, both without SRTP. */
  ghost predicate PlainEnds(s: Sender, r: R.Receiver, from: Address) {
    FreshSender(s) && s.srtp.None? && RR.Valid(r) && Agree(s, r, from) && r.srtp.None?
  }

  lemma {:induction false} HearingStaysPlain(r: R.Receiver, datagrams: seq<seq<byte>>, from: Address,
                                             arrivals: seq<Arrival>, j: nat)
    requires RR.Valid(r) && r.srtp.None? && j <= |arrivals|
    ensures Hearing(r, datagrams, from, arrivals[..j]).srtp.None?
  {
    hide RR.Step, RR.Valid, AsEvent, RR.Takes;
    if j > 0 {
      assert arrivals[..j][..j - 1] == arrivals[..j - 1];
      HearingStaysPlain(r, datagrams, from, arrivals, j - 1);
      RR.StepLatches(Hearing(r, datagrams, from, arrivals[..j - 1]), AsEvent(datagrams, from, arrivals[j - 1]));
    } else {
      assert arrivals[..0] == [];
    }
  }

  lemma PlainCarries(r: R.Receiver, p: H.Packet)
    requires r.srtp.None? && Plain(p.header)
    ensures Carries(r, H.PrintedPacket(p), p)
  {
    var bytes := H.PrintedPacket(p);
    assert bytes[0] == H.FirstByte(p.header) && bytes[1] == H.SecondByte(p.header);
  }

  lemma PlainRecovers(r: R.Receiver, datagram: seq<byte>)
    requires r.srtp.None?
    ensures Recovers(r, datagram)
  {
  }

  /** Without SRTP every arrival is carried and recovered. */
  lemma PlainNetwork(s: Sender, calls: seq<Call>, r: R.Receiver, from: Address, arrivals: seq<Arrival>)
    requires PlainEnds(s, r, from) && Comes(r, Datagrams(s, calls), from, arrivals)
    ensures |Packets(s, calls)| == |Datagrams(s, calls)| == |Tags(s, calls)|
    ensures AllCarried(Packets(s, calls), r, Datagrams(s, calls), from, arrivals)
    ensures AllRecovered(r, Datagrams(s, calls), from, arrivals)
  {
    hide Presses, Packets, Tags, Datagrams, Fits, Carries, Agree, H.PrintedPacket, Recovers, Hearing, RR.Valid,
         StreamSender.Valid, RR.Harmless, FreshSender;
    ValidIfFresh(s);
    var presses, packets, tags, datagrams := Presses(s, calls), Packets(s, calls), Tags(s, calls), Datagrams(s, calls);
    assert calls[..|calls|] == calls;
    RunFits(s, calls);
    PlainDatagrams(s, calls, |calls|);
    forall j | 0 <= j < |arrivals|
      ensures CarriesAt(packets, r, datagrams, from, arrivals, j) && RecoversAt(r, datagrams, from, arrivals, j)
    {
      assert ComesAt(r, datagrams, from, arrivals, j);
      if arrivals[j].Sent? {
        var n, now := arrivals[j].n, Hearing(r, datagrams, from, arrivals[..j]);
        HearingStaysPlain(r, datagrams, from, arrivals, j);
        assert Fits(s, presses, packets[n], tags[n]);
        FitsIsPlain(s, presses, packets[n], tags[n]);
        PlainCarries(now, packets[n]);
        PlainRecovers(now, datagrams[n]);
      }
    }
  }

  // ----- SRTP

  /** The same arrivals as the SRTP receiver sees them: what is harmless to the stream is nothing to it. */
  function AsSent(arrivals: seq<Arrival>): (sent: seq<E.Arrival>)
    ensures |sent| == |arrivals|
  {
    seq(|arrivals|, i requires 0 <= i < |arrivals| => if arrivals[i].Sent? then E.Sent(arrivals[i].n) else E.Stray([]))
  }

  /** The header goes out in the clear. */
  lemma SealedStart(keys: S.Keys, p: H.Packet, roc: u32)
    requires Plain(p.header) && |H.PrintedPacket(p)| >= 12 && S.RtpHeaderLen(H.PrintedPacket(p)).Some?
    ensures var w := S.Sealed(keys, H.PrintedPacket(p), roc);
            |w| >= 12 && w[0] / 0x40 == 2 && w[1] == H.SecondByte(p.header)
  {
    var bytes := H.PrintedPacket(p);
    var w := S.Sealed(keys, bytes, roc);
    var n := S.RtpHeaderLen(bytes).value;
    assert w[..n] == bytes[..n];
    assert w[0] == w[..n][0] && w[1] == w[..n][1] && bytes[0] == bytes[..n][0] && bytes[1] == bytes[..n][1];
    assert bytes[0] == H.FirstByte(p.header) && bytes[1] == H.SecondByte(p.header);
  }

  /** The receiver's SRTP state after its share of arrivals is that of the SRTP receiver alone. */
  ghost predicate InStep(keys: S.Keys, bytes: seq<seq<byte>>, rx: seq<T.Source<S.RecvState>>,
                         sent: seq<E.Arrival>, r: R.Receiver)
  {
    r.srtp == Some(R.Inbound(keys, E.RxAfter(keys, bytes, rx, sent)))
  }

  /** Under SRTP a datagram is recovered as the packet it was, or refused. */
  lemma SrtpCarries(keys: S.Keys, bytes: seq<seq<byte>>, ssrc: u32, first: u16, rx: seq<T.Source<S.RecvState>>,
                    sent: seq<E.Arrival>, j: nat, r: R.Receiver, p: H.Packet, datagram: seq<byte>)
    requires E.Consecutive(bytes, ssrc, first) && first + |bytes| <= TWO48 && T.Lookup(rx, ssrc) == None
    requires E.Timely(keys, bytes, ssrc, first, rx, sent) && j < |sent| && sent[j].Sent? && sent[j].k < |bytes|
    requires InStep(keys, bytes, rx, sent[..j], r)
    requires Plain(p.header) && bytes[sent[j].k] == H.PrintedPacket(p)
    requires E.Wire(keys, bytes, sent[j].k) == S.Ok(datagram)
    ensures Carries(r, datagram, p)
    ensures R.Decrypted(r, datagram).0
         == Some(R.Inbound(keys, S.UnprotectRtp(keys, E.RxAfter(keys, bytes, rx, sent[..j]),
                                                E.Datagram(keys, bytes, sent[j])).0))
  {
    hide H.PrintedPacket, S.Sealed, S.UnprotectRtp, E.Wire;
    var k := sent[j].k;
    E.EndToEnd(keys, bytes, ssrc, first, rx, sent, j);
    assert E.Datagram(keys, bytes, sent[j]) == datagram;
    assert E.Numbered(bytes[k], ssrc, first + k);
    E.WireIndex(keys, bytes, ssrc, first, k);
    SealedStart(keys, p, Roc(first + k));
  }

  /** Both ends keyed alike, the sender fresh, the receiver new to the source. */
  ghost predicate SrtpEnds(s: Sender, calls: seq<Call>, keys: S.Keys, r: R.Receiver,
                           rx: seq<T.Source<S.RecvState>>, from: Address)
  {
    && FreshSender(s) && s.srtp == Some(Outbound(keys, S.FRESH_SENDER))
    && RR.Valid(r) && Agree(s, r, from) && r.srtp == Some(R.Inbound(keys, rx))
    && T.Lookup(rx, s.ssrc) == None && s.sequence + |Packets(s, calls)| <= TWO48
  }

  /** The schedule is within what SRTP can follow. */
  ghost predicate SrtpTimely(s: Sender, calls: seq<Call>, keys: S.Keys, rx: seq<T.Source<S.RecvState>>,
                             arrivals: seq<Arrival>)
    requires Valid(s)
  {
    E.Timely(keys, BytesOf(Packets(s, calls)), s.ssrc, s.sequence, rx, AsSent(arrivals))
  }

  /** The setting of a run over SRTP. */
  ghost predicate SrtpRun(s: Sender, calls: seq<Call>, keys: S.Keys, r: R.Receiver,
                          rx: seq<T.Source<S.RecvState>>, from: Address, arrivals: seq<Arrival>)
  {
    && SrtpEnds(s, calls, keys, r, rx, from) && SrtpTimely(s, calls, keys, rx, arrivals)
    && Comes(r, Datagrams(s, calls), from, arrivals)
  }

  /** Every arrival so far carried, and in step with the SRTP receiver. */
  ghost predicate Along(s: Sender, calls: seq<Call>, keys: S.Keys, r: R.Receiver,
                        rx: seq<T.Source<S.RecvState>>, from: Address, arrivals: seq<Arrival>, j: nat)
    requires Valid(s) && RR.Valid(r) && j <= |arrivals|
  {
    var datagrams, now := Datagrams(s, calls), Hearing(r, Datagrams(s, calls), from, arrivals[..j]);
    && |Packets(s, calls)| == |datagrams| && Agree(s, now, from)
    && (forall i :: 0 <= i < j ==> CarriesAt(Packets(s, calls), r, datagrams, from, arrivals, i))
    && InStep(keys, BytesOf(Packets(s, calls)), rx, AsSent(arrivals)[..j], now)
  }

  lemma AlongFromTheStart(s: Sender, calls: seq<Call>, keys: S.Keys, r: R.Receiver,
                          rx: seq<T.Source<S.RecvState>>, from: Address, arrivals: seq<Arrival>)
    requires SrtpRun(s, calls, keys, r, rx, from, arrivals)
    ensures Along(s, calls, keys, r, rx, from, arrivals, 0)
  {
    hide Packets, Datagrams, Agree, E.Timely, T.Lookup, Comes, RR.Valid, StreamSender.Valid, FreshSender, E.Wire;
    ValidIfFresh(s);
    assert calls[..|calls|] == calls;
    SrtpDatagrams(s, calls, keys, |calls|);
    assert arrivals[..0] == [] && AsSent(arrivals)[..0] == [];
  }

  /** The next of the sender's datagrams is carried. */
  lemma NextIsCarried(s: Sender, calls: seq<Call>, keys: S.Keys, r: R.Receiver,
                      rx: seq<T.Source<S.RecvState>>, from: Address, arrivals: seq<Arrival>, i: nat)
    requires SrtpRun(s, calls, keys, r, rx, from, arrivals) && i < |arrivals| && arrivals[i].Sent?
    requires Along(s, calls, keys, r, rx, from, arrivals, i)
    ensures var datagrams, before, n := Datagrams(s, calls), Hearing(r, Datagrams(s, calls), from, arrivals[..i]), arrivals[i].n;
            && n < |Packets(s, calls)| && Carries(before, datagrams[n], Packets(s, calls)[n])
            && (forall after: R.Receiver :: after.srtp == R.Decrypted(before, datagrams[n]).0 ==>
                  InStep(keys, BytesOf(Packets(s, calls)), rx, AsSent(arrivals)[..i + 1], after))
            && E.Wire(keys, BytesOf(Packets(s, calls)), n) == S.Ok(datagrams[n])
  {
    hide Presses, Packets, Tags, Datagrams, Fits, Carries, Agree, Hearing, RR.Valid, StreamSender.Valid,
         E.Timely, E.Wire, R.Decrypted, T.Lookup, RR.Harmless, FreshSender, CarriesAt, InStep, BytesOf;
    ValidIfFresh(s);
    var packets, datagrams, n := Packets(s, calls), Datagrams(s, calls), arrivals[i].n;
    assert calls[..|calls|] == calls;
    SrtpDatagrams(s, calls, keys, |calls|);
    RunIsConsecutive(s, calls);
    assert ComesAt(r, datagrams, from, arrivals, i);
    PlainAt(s, calls, n);
    assert E.Wire(keys, BytesOf(packets), 0 + n) == S.Ok(datagrams[n]);
    CarriesOn(keys, BytesOf(packets), s.ssrc, s.sequence, rx, AsSent(arrivals), i,
              Hearing(r, datagrams, from, arrivals[..i]), packets[n], datagrams[n]);
  }

  lemma PlainAt(s: Sender, calls: seq<Call>, n: nat)
    requires FreshSender(s) && n < |Packets(s, calls)|
    ensures Plain(Packets(s, calls)[n].header) && BytesOf(Packets(s, calls))[n] == H.PrintedPacket(Packets(s, calls)[n])
  {
    hide Presses, Packets, Tags, Fits, Plain, StreamSender.Valid, H.PrintedPacket, FreshSender;
    ValidIfFresh(s);
    RunFits(s, calls);
    assert Fits(s, Presses(s, calls), Packets(s, calls)[n], Tags(s, calls)[n]);
    FitsIsPlain(s, Presses(s, calls), Packets(s, calls)[n], Tags(s, calls)[n]);
  }

  /** `SrtpCarries`, and in step after it. */
  lemma CarriesOn(keys: S.Keys, bytes: seq<seq<byte>>, ssrc: u32, first: u16, rx: seq<T.Source<S.RecvState>>,
                  sent: seq<E.Arrival>, i: nat, r: R.Receiver, p: H.Packet, datagram: seq<byte>)
    requires E.Consecutive(bytes, ssrc, first) && first + |bytes| <= TWO48 && T.Lookup(rx, ssrc) == None
    requires E.Timely(keys, bytes, ssrc, first, rx, sent) && i < |sent| && sent[i].Sent? && sent[i].k < |bytes|
    requires InStep(keys, bytes, rx, sent[..i], r)
    requires Plain(p.header) && bytes[sent[i].k] == H.PrintedPacket(p)
    requires E.Wire(keys, bytes, sent[i].k) == S.Ok(datagram)
    ensures Carries(r, datagram, p)
    ensures forall after: R.Receiver :: after.srtp == R.Decrypted(r, datagram).0 ==>
              InStep(keys, bytes, rx, sent[..i + 1], after)
  {
    hide E.Consecutive, E.Timely, E.Wire, T.Lookup, Carries, Plain, H.PrintedPacket, S.UnprotectRtp, R.Decrypted;
    SrtpCarries(keys, bytes, ssrc, first, rx, sent, i, r, p, datagram);
    assert sent[..i + 1][..i] == sent[..i];
  }

  /** Anything else leaves SRTP where it is. */
  lemma NothingToSrtp(keys: S.Keys, bytes: seq<seq<byte>>, rx: seq<T.Source<S.RecvState>>, arrivals: seq<Arrival>, i: nat)
    requires i < |arrivals| && !arrivals[i].Sent?
    ensures E.RxAfter(keys, bytes, rx, AsSent(arrivals)[..i + 1]) == E.RxAfter(keys, bytes, rx, AsSent(arrivals)[..i])
  {
    assert AsSent(arrivals)[..i + 1][..i] == AsSent(arrivals)[..i];
  }

  lemma AlongOneMore(s: Sender, calls: seq<Call>, keys: S.Keys, r: R.Receiver,
                     rx: seq<T.Source<S.RecvState>>, from: Address, arrivals: seq<Arrival>, i: nat)
    requires SrtpRun(s, calls, keys, r, rx, from, arrivals) && i < |arrivals|
    requires Along(s, calls, keys, r, rx, from, arrivals, i)
    ensures Along(s, calls, keys, r, rx, from, arrivals, i + 1)
  {
    ValidIfFresh(s);
    hide Presses, Packets, Tags, Datagrams, Fits, Agree, Carries, Recovers, RR.Step, RR.Valid, StreamSender.Valid, AsEvent,
         BytesOf, S.UnprotectRtp, SrtpTimely, R.Decrypted, T.Lookup, RR.Harmless, Hearing, E.RxAfter, AsSent, ReportOf,
         Heeds, Stamp, EventFor, FreshSender, E.Wire;
    var presses, packets, tags, datagrams := Presses(s, calls), Packets(s, calls), Tags(s, calls), Datagrams(s, calls);
    RunFits(s, calls);
    var before := Hearing(r, datagrams, from, arrivals[..i]);
    assert ComesAt(r, datagrams, from, arrivals, i);
    if arrivals[i].Sent? {
      NextIsCarried(s, calls, keys, r, rx, from, arrivals, i);
    } else {
      NothingToSrtp(keys, BytesOf(packets), rx, arrivals, i);
    }
    OneMoreArrival(r, datagrams, from, tags, arrivals, i);
    HearsArrival(s, presses, packets, tags, before, datagrams, from, arrivals[i]);
  }

  lemma {:induction false} AlongTheRun(s: Sender, calls: seq<Call>, keys: S.Keys, r: R.Receiver,
                                       rx: seq<T.Source<S.RecvState>>, from: Address, arrivals: seq<Arrival>, j: nat)
    requires SrtpRun(s, calls, keys, r, rx, from, arrivals) && j <= |arrivals|
    ensures Valid(s) && RR.Valid(r) && Along(s, calls, keys, r, rx, from, arrivals, j)
  {
    ValidIfFresh(s);
    hide SrtpRun, Along;
    if j == 0 {
      AlongFromTheStart(s, calls, keys, r, rx, from, arrivals);
    } else {
      AlongTheRun(s, calls, keys, r, rx, from, arrivals, j - 1);
      AlongOneMore(s, calls, keys, r, rx, from, arrivals, j - 1);
    }
  }

  /** Over SRTP every arrival is carried. */
  lemma SrtpNetwork(s: Sender, calls: seq<Call>, keys: S.Keys, r: R.Receiver,
                    rx: seq<T.Source<S.RecvState>>, from: Address, arrivals: seq<Arrival>)
    requires SrtpRun(s, calls, keys, r, rx, from, arrivals)
    ensures |Packets(s, calls)| == |Datagrams(s, calls)| == |Tags(s, calls)|
    ensures AllCarried(Packets(s, calls), r, Datagrams(s, calls), from, arrivals)
  {
    hide SrtpRun, Packets, Datagrams, Tags, CarriesAt, RR.Valid, StreamSender.Valid, Agree, InStep;
    AlongTheRun(s, calls, keys, r, rx, from, arrivals, |arrivals|);
    RunIsFresh(s, calls, keys, r, rx, from, arrivals);
    TaggedAll(s, calls);
  }

  lemma RunIsFresh(s: Sender, calls: seq<Call>, keys: S.Keys, r: R.Receiver,
                   rx: seq<T.Source<S.RecvState>>, from: Address, arrivals: seq<Arrival>)
    requires SrtpRun(s, calls, keys, r, rx, from, arrivals)
    ensures FreshSender(s)
  {
  }

  lemma TaggedAll(s: Sender, calls: seq<Call>)
    requires FreshSender(s)
    ensures |Packets(s, calls)| == |Tags(s, calls)|
  {
    hide Presses, Packets, Tags, Fits, StreamSender.Valid, FreshSender;
    ValidIfFresh(s);
    RunFits(s, calls);
  }

  // ----- In sequence over SRTP

  lemma {:induction false} CountsAgree(arrivals: seq<Arrival>, j: nat)
    requires j <= |arrivals|
    ensures E.SentCount(AsSent(arrivals)[..j]) == SentCount(arrivals[..j])
  {
    if j > 0 {
      assert arrivals[..j][..j - 1] == arrivals[..j - 1] && AsSent(arrivals)[..j][..j - 1] == AsSent(arrivals)[..j - 1];
      CountsAgree(arrivals, j - 1);
    }
  }

  /** Until the first of the sender's datagrams the tables are as they were. */
  lemma {:induction false} NothingYet(keys: S.Keys, bytes: seq<seq<byte>>, rx: seq<T.Source<S.RecvState>>,
                                      arrivals: seq<Arrival>, j: nat)
    requires j <= |arrivals| && SentCount(arrivals[..j]) == 0
    ensures E.RxAfter(keys, bytes, rx, AsSent(arrivals)[..j]) == rx
  {
    hide AsSent;
    if j > 0 {
      assert arrivals[..j][..j - 1] == arrivals[..j - 1];
      NothingYet(keys, bytes, rx, arrivals, j - 1);
      NothingToSrtp(keys, bytes, rx, arrivals, j - 1);
    } else {
      assert AsSent(arrivals)[..0] == [];
    }
  }

  /** Datagrams in sequence are in sequence for SRTP. */
  lemma InSequenceForSrtp(s: Sender, calls: seq<Call>, keys: S.Keys, r: R.Receiver, rx: seq<T.Source<S.RecvState>>,
                          from: Address, arrivals: seq<Arrival>)
    requires Valid(s) && RR.Valid(r) && T.HasRoom(rx, s.ssrc) && |Datagrams(s, calls)| == |Packets(s, calls)|
    requires Comes(r, Datagrams(s, calls), from, arrivals) && InSequence(arrivals)
    ensures E.InSequence(keys, BytesOf(Packets(s, calls)), s.ssrc, rx, AsSent(arrivals))
  {
    hide Packets, Datagrams, T.HasRoom, RR.Valid, StreamSender.Valid, E.RxAfter, BytesOf, Hearing, RR.Harmless;
    var bytes, sent := BytesOf(Packets(s, calls)), AsSent(arrivals);
    forall j | 0 <= j < |sent| ensures E.InSequenceAt(keys, bytes, s.ssrc, rx, sent, j) {
      assert ComesAt(r, Datagrams(s, calls), from, arrivals, j) && InSequenceAt(arrivals, j);
      CountsAgree(arrivals, j);
      if SentCount(arrivals[..j]) == 0 {
        NothingYet(keys, bytes, rx, arrivals, j);
      }
    }
  }

  /** So over SRTP, in sequence, every datagram is carried and recovered. */
  lemma SrtpSequence(s: Sender, calls: seq<Call>, keys: S.Keys, r: R.Receiver,
                     rx: seq<T.Source<S.RecvState>>, from: Address, arrivals: seq<Arrival>)
    requires SrtpEnds(s, calls, keys, r, rx, from) && T.HasRoom(rx, s.ssrc)
    requires Comes(r, Datagrams(s, calls), from, arrivals) && InSequence(arrivals)
    ensures SrtpRun(s, calls, keys, r, rx, from, arrivals)
    ensures AllRecovered(r, Datagrams(s, calls), from, arrivals)
  {
    hide Packets, Tags, Datagrams, T.HasRoom, T.Lookup, RR.Valid, StreamSender.Valid, Agree, InSequence, E.InSequence,
         E.Timely, InStep, E.Wire, RecoversAt, Comes, FreshSender;
    ValidIfFresh(s);
    assert calls[..|calls|] == calls;
    SrtpDatagrams(s, calls, keys, |calls|);
    InSequenceForSrtp(s, calls, keys, r, rx, from, arrivals);
    E.InSequenceIsTimely(keys, BytesOf(Packets(s, calls)), s.ssrc, s.sequence, rx, AsSent(arrivals));
    forall j | 0 <= j < |arrivals| ensures RecoversAt(r, Datagrams(s, calls), from, arrivals, j) {
      AlongTheRun(s, calls, keys, r, rx, from, arrivals, j);
      OpensInSequence(s, calls, keys, r, rx, from, arrivals, j);
    }
  }

  lemma OpensInSequence(s: Sender, calls: seq<Call>, keys: S.Keys, r: R.Receiver,
                        rx: seq<T.Source<S.RecvState>>, from: Address, arrivals: seq<Arrival>, j: nat)
    requires SrtpRun(s, calls, keys, r, rx, from, arrivals) && j < |arrivals|
    requires Along(s, calls, keys, r, rx, from, arrivals, j)
    requires E.InSequence(keys, BytesOf(Packets(s, calls)), s.ssrc, rx, AsSent(arrivals))
    ensures RecoversAt(r, Datagrams(s, calls), from, arrivals, j)
  {
    hide Packets, Datagrams, RR.Valid, StreamSender.Valid, Agree, SrtpTimely, E.Wire, E.InSequence, E.Consecutive,
         Comes, T.Lookup, Carries, Hearing, InStep, Recovers, BytesOf, FreshSender, CarriesAt, R.Decrypted;
    ValidIfFresh(s);
    if arrivals[j].Sent? {
      NextIsCarried(s, calls, keys, r, rx, from, arrivals, j);
      RunIsConsecutive(s, calls);
      OpensInStep(keys, BytesOf(Packets(s, calls)), s.ssrc, s.sequence, rx, AsSent(arrivals), j,
                  Hearing(r, Datagrams(s, calls), from, arrivals[..j]), Datagrams(s, calls)[arrivals[j].n]);
    }
  }

  /** In step, and in sequence, the next datagram opens. */
  lemma OpensInStep(keys: S.Keys, bytes: seq<seq<byte>>, ssrc: u32, first: u16, rx: seq<T.Source<S.RecvState>>,
                    sent: seq<E.Arrival>, j: nat, r: R.Receiver, datagram: seq<byte>)
    requires E.Consecutive(bytes, ssrc, first) && first + |bytes| <= TWO48 && T.Lookup(rx, ssrc) == None
    requires E.InSequence(keys, bytes, ssrc, rx, sent) && j < |sent| && sent[j].Sent? && sent[j].k < |bytes|
    requires InStep(keys, bytes, rx, sent[..j], r) && E.Wire(keys, bytes, sent[j].k) == S.Ok(datagram)
    ensures Recovers(r, datagram)
  {
    hide E.Consecutive, E.InSequence, S.UnprotectRtp, S.Sealed, E.RxAfter, E.Wire, T.Lookup;
    E.InSequenceDelivers(keys, bytes, ssrc, first, rx, sent, j);
    E.WireIndex(keys, bytes, ssrc, first, sent[j].k);
  }
}
