/** Two runs of audio end to end: frames alone, and a digit between two frames. */
module StreamAudioDigit {
  import opened Bytes
  import opened SequenceNumbers
  import opened StreamConfig
  import opened StreamSender
  import opened StreamSenderRuns
  import opened StreamDtmf
  import opened StreamNetwork
  import opened StreamLineup
  import opened StreamAudio
  import opened StreamAudioInOrder
  import J = Jitter
  import H = RtpHeader
  import R = StreamReceiver
  import RR = StreamReceiverRuns

  // ----- Frames alone

  ghost predicate AudioOnly(calls: seq<Call>) {
    forall i :: 0 <= i < |calls| ==> calls[i].Send?
  }

  lemma AudioStep(s: Sender, c: Call, count: nat)
    requires Valid(s) && SendsAudio(s) && c.Send?
    ensures SendsAudio(Step(s, c)) && |PacketsIn(s, c)| == 1 && TagsIn(s, c, count) == [None]
  {
    hide ProtectedAll;
    AudioCall(s, c.encoded);
    PacketizedKeepsValid(s, c.encoded);
  }

  /** One packet a call, all audio. */
  lemma {:induction false} FramesAlone(s: Sender, calls: seq<Call>, n: nat)
    requires Valid(s) && SendsAudio(s) && AudioOnly(calls) && n <= |calls|
    ensures SendsAudio(After(s, calls[..n]))
    ensures |Packets(s, calls[..n])| == |Tags(s, calls[..n])| == |Origins(s, calls[..n])| == n
    ensures forall i :: 0 <= i < n ==> Tags(s, calls[..n])[i].None? && Origins(s, calls[..n])[i] == i
  {
    hide Step, PacketsIn, TagsIn, StreamSender.Valid, SendsAudio;
    if n > 0 {
      assert calls[..n][..n - 1] == calls[..n - 1];
      FramesAlone(s, calls, n - 1);
      AudioStep(After(s, calls[..n - 1]), calls[n - 1], |Presses(s, calls[..n])|);
    } else {
      assert calls[..0] == [];
    }
  }

  lemma {:induction false} AllAudio(tags: seq<Option<nat>>, d: nat, n: nat)
    requires n <= |tags| && forall i :: 0 <= i < |tags| ==> tags[i].None?
    ensures AudioOf(tags[..n]) == UpTo(n) && Lineup(UpTo(n), d) == UpTo(n)
  {
    if n > 0 {
      assert tags[..n][..n - 1] == tags[..n - 1] && UpTo(n)[..n - 1] == UpTo(n - 1);
      AllAudio(tags, d, n - 1);
      assert UpTo(n) == UpTo(n - 1) + [n - 1];
    }
  }

  /** The i-th packet handed out is the i-th frame as encoded. */
  lemma FramesAloneArePlayed(s: Sender, calls: seq<Call>, r: R.Receiver, from: Address, arrivals: seq<Arrival>, j: nat)
    requires FreshSender(s) && AudioOnly(calls) && RR.Valid(r) && j <= |arrivals|
    requires PlaysFrames(s, calls, r, from, arrivals, j)
    ensures var heard := HandedOut(r, Datagrams(s, calls), from, arrivals[..j]);
            && |heard| <= SentCount(arrivals[..j]) <= |calls|
            && forall i :: 0 <= i < |heard| ==>
                 && heard[i].payload == calls[i].encoded && heard[i].timestamp == Clock(s, Sends(calls[..i])) % TWO32
                 && heard[i].sequence == Seq(s.sequence + i) && !heard[i].synthesized
  {
    hide Packets, Tags, Datagrams, RR.Valid, Lineup, AudioOf, HandedOut, HandedOutBy, Hearing, SentCount, J.Discontinuity, After,
         TooEarly, FirstFrame, StandIns, Clock, Seq, Origins, StreamSender.Valid;
    assert calls[..|calls|] == calls;
    FramesAlone(s, calls, |calls|);
    AllAudio(Tags(s, calls), J.Discontinuity(r.jitter.config), SentCount(arrivals[..j]));
    var heard := HandedOut(r, Datagrams(s, calls), from, arrivals[..j]);
    forall i | 0 <= i < |heard| ensures IsFrameOrStandIn(s, calls, i, heard[i]) {
      assert UpTo(SentCount(arrivals[..j]))[i] == i;
    }
  }

  // ----- A digit between two frames

  /** A frame, a digit queued, as many calls as the digit takes, and another frame. */
  ghost predicate DigitBetween(config: Config, calls: seq<Call>, a: seq<byte>, digit: char, b: seq<byte>) {
    var k: int := CallsPerDigit(config);
    && |calls| == k + 3 && calls[0] == Send(a) && calls[1] == Queue(digit) && calls[k + 2] == Send(b)
    && (forall i :: 2 <= i < k + 2 ==> calls[i].Send?)
    && DtmfEventCode(digit).Some? && config.dtmfPayloadType.Some?
  }

  /** Of one frame, one packet. */
  predicate FirstIsAudio(config: Config, packets: seq<H.Packet>, origins: seq<nat>) {
    && 0 < |packets| == |origins| && origins[0] == 0 && packets[0].header.payloadType == config.payloadType
    && forall i :: 0 < i < |packets| ==> Some(packets[i].header.payloadType) == config.dtmfPayloadType
  }

  /** After `m` of the digit's calls. */
  ghost predicate GoesOut(s: Sender, calls: seq<Call>, event: byte, timestamp: u32, m: nat)
    requires Valid(s) && m + 2 <= |calls|
  {
    var after, packets, k := After(s, calls[..m + 2]), Packets(s, calls[..m + 2]), CallsPerDigit(s.config);
    && |packets| == 1 + m + (if m == k then 2 else 0)
    && FirstIsAudio(s.config, packets, Origins(s, calls[..m + 2]))
    && if m == k then SendsAudio(after)
       else InDigit(after, event, timestamp, m) && after.dtmf == if m == 0 then [event] else []
  }

  lemma OneMoreCall(s: Sender, calls: seq<Call>, n: nat)
    requires Valid(s) && n < |calls|
    ensures After(s, calls[..n + 1]) == Step(After(s, calls[..n]), calls[n])
    ensures Packets(s, calls[..n + 1]) == Packets(s, calls[..n]) + PacketsIn(After(s, calls[..n]), calls[n])
    ensures Origins(s, calls[..n + 1])
         == Origins(s, calls[..n]) + seq(|PacketsIn(After(s, calls[..n]), calls[n])|, i => n)
  {
    hide Step, PacketsIn, StreamSender.Valid;
    assert calls[..n + 1][..n] == calls[..n];
  }

  lemma NoCalls(s: Sender, calls: seq<Call>)
    requires Valid(s)
    ensures After(s, calls[..0]) == s && Packets(s, calls[..0]) == [] && Origins(s, calls[..0]) == []
  {
  }

  lemma QueueStep(s: Sender, digit: char)
    requires Valid(s) && SendsAudio(s) && DtmfEventCode(digit).Some? && s.config.dtmfPayloadType.Some?
    ensures var event, after := DtmfEventCode(digit).value, Step(s, Queue(digit));
            && PacketsIn(s, Queue(digit)) == [] && after.dtmf == [event]
            && InDigit(after, event, DtmfTimestamp(s.config, s.timestamp), 0)
  {
    hide DtmfEventCode, DtmfTimestamp;
  }

  lemma FrameThenDigit(s: Sender, calls: seq<Call>, a: seq<byte>, digit: char, b: seq<byte>)
    requires Valid(s) && SendsAudio(s) && DigitBetween(s.config, calls, a, digit, b)
    ensures GoesOut(s, calls, DtmfEventCode(digit).value, DtmfTimestamp(s.config, After(s, calls[..1]).timestamp), 0)
  {
    hide Step, PacketsIn, StreamSender.Valid, After, Packets, Origins, DtmfEventCode, DtmfTimestamp, InDigit;
    NoCalls(s, calls);
    OneMoreCall(s, calls, 0);
    OneMoreCall(s, calls, 1);
    AudioCall(s, a);
    AudioStep(s, calls[0], 0);
    QueueStep(After(s, calls[..1]), digit);
  }

  /** What one call of a digit does to the queue. */
  lemma DigitStep(s: Sender, c: Call, event: byte, timestamp: u32, sent: nat)
    requires Valid(s) && InDigit(s, event, timestamp, sent) && c.Send? && s.dtmf == if sent == 0 then [event] else []
    ensures Step(s, c).dtmf == []
  {
    hide PacketsOf, ProtectedAll, DtmfTimestamp;
  }

  lemma FirstStays(config: Config, packets: seq<H.Packet>, origins: seq<nat>, more: seq<H.Packet>, n: nat)
    requires FirstIsAudio(config, packets, origins)
    requires forall i :: 0 <= i < |more| ==> Some(more[i].header.payloadType) == config.dtmfPayloadType
    ensures FirstIsAudio(config, packets + more, origins + seq(|more|, i => n))
  {
  }

  /** One more of the digit's calls. */
  lemma OneMoreOfDigit(s: Sender, calls: seq<Call>, event: byte, timestamp: u32, m: nat)
    requires Valid(s) && m + 3 <= |calls| && calls[m + 2].Send? && m < CallsPerDigit(s.config)
    requires GoesOut(s, calls, event, timestamp, m)
    ensures GoesOut(s, calls, event, timestamp, m + 1)
  {
    hide Step, PacketsIn, StreamSender.Valid, After, Packets, Origins, InDigit, CallsPerDigit, FirstIsAudio, Duration;
    var before, c := After(s, calls[..m + 2]), calls[m + 2];
    OneMoreCall(s, calls, m + 2);
    DigitCall(before, c, event, timestamp, m);
    DigitStep(before, c, event, timestamp, m);
    DigitIsNegotiated(before, event, timestamp, m);
    FirstStays(s.config, Packets(s, calls[..m + 2]), Origins(s, calls[..m + 2]), PacketsIn(before, c), m + 2);
  }

  lemma DigitIsNegotiated(s: Sender, event: byte, timestamp: u32, sent: nat)
    requires Valid(s) && InDigit(s, event, timestamp, sent)
    ensures s.config.dtmfPayloadType.Some?
  {
  }

  lemma {:induction false} DigitGoesOut(s: Sender, calls: seq<Call>, a: seq<byte>, digit: char, b: seq<byte>, m: nat)
    requires Valid(s) && SendsAudio(s) && DigitBetween(s.config, calls, a, digit, b) && m <= CallsPerDigit(s.config)
    ensures GoesOut(s, calls, DtmfEventCode(digit).value, DtmfTimestamp(s.config, After(s, calls[..1]).timestamp), m)
  {
    hide GoesOut, StreamSender.Valid, After, DtmfEventCode, DtmfTimestamp, CallsPerDigit, SendsAudio;
    if m == 0 {
      FrameThenDigit(s, calls, a, digit, b);
    } else {
      DigitGoesOut(s, calls, a, digit, b, m - 1);
      OneMoreOfDigit(s, calls, DtmfEventCode(digit).value, DtmfTimestamp(s.config, After(s, calls[..1]).timestamp), m - 1);
    }
  }

  /** The first and the last packet are audio, the others are of a digit. */
  predicate EndsAreAudio(config: Config, packets: seq<H.Packet>, last: nat) {
    && |packets| == last + 1
    && packets[0].header.payloadType == packets[last].header.payloadType == config.payloadType
    && forall i :: 0 < i < last ==> Some(packets[i].header.payloadType) == config.dtmfPayloadType
  }

  /** A digit of `k` calls between two frames goes out in `k + 4` packets, the frames included. */
  lemma DigitPackets(s: Sender, calls: seq<Call>, a: seq<byte>, digit: char, b: seq<byte>)
    requires Valid(s) && SendsAudio(s) && DigitBetween(s.config, calls, a, digit, b)
    ensures var last, origins := CallsPerDigit(s.config) as int + 3, Origins(s, calls);
            && EndsAreAudio(s.config, Packets(s, calls), last)
            && |origins| == last + 1 && origins[0] == 0 && origins[last] == last - 1
  {
    hide Step, PacketsIn, StreamSender.Valid, After, Packets, Origins, InDigit, DtmfEventCode, DtmfTimestamp, CallsPerDigit;
    var k: int := CallsPerDigit(s.config);
    DigitGoesOut(s, calls, a, digit, b, k);
    OneMoreCall(s, calls, k + 2);
    AudioCall(After(s, calls[..k + 2]), b);
    assert calls[..|calls|] == calls;
  }

  /** Tags go by payload type. */
  ghost predicate TagsByType(config: Config, packets: seq<H.Packet>, tags: seq<Option<nat>>) {
    && |tags| == |packets| && config.dtmfPayloadType != Some(config.payloadType)
    && forall i :: 0 <= i < |packets| ==> (tags[i].None? <==> packets[i].header.payloadType == config.payloadType)
  }

  lemma TagsAreByType(s: Sender, calls: seq<Call>)
    requires FreshSender(s)
    ensures Valid(s) && SendsAudio(s) && TagsByType(s.config, Packets(s, calls), Tags(s, calls))
  {
    hide Presses, Packets, Tags, Stamp, Plain, Step, After, PacketsIn;
    RunFits(s, calls);
    forall i | 0 <= i < |Packets(s, calls)|
      ensures Tags(s, calls)[i].None? <==> Packets(s, calls)[i].header.payloadType == s.config.payloadType
    {
      assert Fits(s, Presses(s, calls), Packets(s, calls)[i], Tags(s, calls)[i]);
    }
  }

  // ----- What is played of it

  ghost predicate OnlyEnds(tags: seq<Option<nat>>, last: nat) {
    |tags| == last + 1 && last > 0 && forall i :: 0 <= i <= last ==> (tags[i].None? <==> i == 0 || i == last)
  }

  lemma {:induction false} EndsAreAudioOf(tags: seq<Option<nat>>, last: nat, n: nat)
    requires OnlyEnds(tags, last) && n <= last + 1
    ensures AudioOf(tags[..n]) == if n == 0 then [] else if n <= last then [0] else [0, last]
  {
    if n > 0 {
      assert tags[..n][..n - 1] == tags[..n - 1];
      EndsAreAudioOf(tags, last, n - 1);
    }
  }

  lemma EndsLineUp(tags: seq<Option<nat>>, last: nat, d: nat)
    requires OnlyEnds(tags, last)
    ensures AudioOf(tags) == [0, last] && Lineup(AudioOf(tags), d) == [0] + Between(1, last, d) + [last]
  {
    hide AudioOf;
    assert tags[..|tags|] == tags;
    EndsAreAudioOf(tags, last, |tags|);
    assert Lineup([], d) == [] && [0, last][..1] == [0] && [0, last][..0] == [];
    assert Lineup([0], d) == [0] by { assert [0][..0] == []; }
  }

  /** How many stand-ins: one for each packet of the digit, or none when those are more than a full buffer. */
  function ForDigit(config: Config, d: nat): nat {
    if CallsPerDigit(config) as int + 2 <= d then CallsPerDigit(config) as int + 2 else 0
  }

  /** A frame, so many stand-ins, and a frame; or the beginning of that. */
  ghost predicate FrameStandInsFrame(heard: seq<J.BufferedPacket>, a: seq<byte>, n: nat, b: seq<byte>) {
    && |heard| <= n + 2
    && forall i :: 0 <= i < |heard| ==>
         && (heard[i].synthesized <==> 0 < i <= n)
         && heard[i].payload == if i == 0 then a else if i <= n then [] else b
  }

  lemma {:induction false} StandInsBetween(heard: seq<J.BufferedPacket>, a: seq<byte>, n: nat, b: seq<byte>, m: nat)
    requires FrameStandInsFrame(heard, a, n, b) && m <= |heard|
    ensures StandIns(heard[..m]) == if m == 0 then 0 else if m <= n + 1 then m - 1 else n
  {
    if m > 0 {
      assert heard[..m][..m - 1] == heard[..m - 1];
      StandInsBetween(heard, a, n, b, m - 1);
    }
  }

  /** What is due of it. */
  ghost predicate IsDue(s: Sender, calls: seq<Call>, d: nat)
    requires Valid(s)
  {
    var last, tags, origins := CallsPerDigit(s.config) as int + 3, Tags(s, calls), Origins(s, calls);
    && OnlyEnds(tags, last) && |tags| == |Packets(s, calls)| && Lineup(AudioOf(tags), d) == [0] + Between(1, last, d) + [last]
    && |origins| == last + 1 && origins[0] == 0 && origins[last] == last - 1
  }

  lemma DueOfDigit(s: Sender, calls: seq<Call>, a: seq<byte>, digit: char, b: seq<byte>, d: nat)
    requires Valid(s) && SendsAudio(s) && DigitBetween(s.config, calls, a, digit, b)
    requires TagsByType(s.config, Packets(s, calls), Tags(s, calls))
    ensures IsDue(s, calls, d)
  {
    hide Packets, Tags, Lineup, AudioOf, After, Origins, StreamSender.Valid, CallsPerDigit, Between, SendsAudio, DigitBetween;
    DigitPackets(s, calls, a, digit, b);
    EndsLineUp(Tags(s, calls), CallsPerDigit(s.config) as int + 3, d);
  }

  /** What is handed out for what is due. */
  lemma HandedOutOfDigit(s: Sender, calls: seq<Call>, a: seq<byte>, digit: char, b: seq<byte>, d: nat,
                         heard: seq<J.BufferedPacket>)
    requires Valid(s) && DigitBetween(s.config, calls, a, digit, b) && IsDue(s, calls, d)
    requires var due := Lineup(AudioOf(Tags(s, calls)), d);
             |heard| <= |due| && forall i :: 0 <= i < |heard| ==> IsFrameOrStandIn(s, calls, due[i], heard[i])
    ensures FrameStandInsFrame(heard, a, ForDigit(s.config, d), b)
  {
    hide Tags, Origins, StreamSender.Valid, Clock, Seq, Sends, After, DtmfEventCode, CallsPerDigit, Lineup, AudioOf, Packets;
    var last, n := CallsPerDigit(s.config) as int + 3, ForDigit(s.config, d);
    var due := [0] + Between(1, last, d) + [last];
    forall i | 0 <= i < |heard|
      ensures heard[i].synthesized <==> 0 < i <= n
      ensures heard[i].payload == if i == 0 then a else if i <= n then [] else b
    {
      assert IsFrameOrStandIn(s, calls, due[i], heard[i]);
      assert due[i] == if i == 0 then 0 else if i <= n then i else last;
    }
  }

  /** A digit of `k` calls is played as `k + 2` stand-ins, for `k` calls of time, and they count as lost. */
  lemma DigitIsConcealed(s: Sender, calls: seq<Call>, a: seq<byte>, digit: char, b: seq<byte>,
                         r: R.Receiver, from: Address, arrivals: seq<Arrival>, j: nat)
    requires FreshSender(s) && DigitBetween(s.config, calls, a, digit, b)
    requires RR.Valid(r) && j <= |arrivals| && SentCount(arrivals[..j]) == |Packets(s, calls)|
    requires PlaysFrames(s, calls, r, from, arrivals, j)
    ensures var heard, n := HandedOut(r, Datagrams(s, calls), from, arrivals[..j]),
                            ForDigit(s.config, J.Discontinuity(r.jitter.config));
            && FrameStandInsFrame(heard, a, n, b)
            && (|heard| == n + 2 ==> Hearing(r, Datagrams(s, calls), from, arrivals[..j]).jitter.stats.lost == n)
  {
    TagsAreByType(s, calls);
    hide Packets, Tags, Datagrams, RR.Valid, Lineup, AudioOf, HandedOut, HandedOutBy, Hearing, SentCount, J.Discontinuity,
         TooEarly, FirstFrame, StandIns, Origins, StreamSender.Valid, FreshSender, CallsPerDigit, Between, DigitBetween, ForDigit,
         IsFrameOrStandIn, After;
    var heard, d := HandedOut(r, Datagrams(s, calls), from, arrivals[..j]), J.Discontinuity(r.jitter.config);
    DueOfDigit(s, calls, a, digit, b, d);
    assert Tags(s, calls)[..SentCount(arrivals[..j])] == Tags(s, calls);
    HandedOutOfDigit(s, calls, a, digit, b, d, heard);
    StandInsBetween(heard, a, ForDigit(s.config, d), b, |heard|);
    assert heard[..|heard|] == heard;
  }

  /** From a new sender to a new receiver, over plain RTP and a network that loses nothing and keeps the order:
      a digit of one call is heard as three stand-ins between the frames, and three packets count as lost. */
  lemma OneCallIsThreeLost(config: Config, ssrc: u32, first: u16, timestamp: u32, a: seq<byte>, x: seq<byte>, b: seq<byte>,
                           from: Address, arrivals: seq<Arrival>, j: nat)
    requires ValidConfig(config) && config.dtmfPackets <= 1 && 3 <= config.maxPackets < TWO32
    requires GoodPayloadType(config.payloadType)
    requires config.dtmfPayloadType.Some? && GoodPayloadType(config.dtmfPayloadType.value) && from.ip == config.remote.ip
    requires RR.Valid(R.NewReceiver(config, None)) && Valid(NewSender(config, None, ssrc, first, timestamp))
    requires var s, r, calls := NewSender(config, None, ssrc, first, timestamp), R.NewReceiver(config, None),
                                [Send(a), Queue('5'), Send(x), Send(b)];
             && Comes(r, Datagrams(s, calls), from, arrivals) && InSequence(arrivals)
             && FindsRoom(r, Datagrams(s, calls), from, Tags(s, calls), arrivals)
             && j <= |arrivals| && SentCount(arrivals[..j]) == |Packets(s, calls)|
    ensures var s, r, calls := NewSender(config, None, ssrc, first, timestamp), R.NewReceiver(config, None),
                               [Send(a), Queue('5'), Send(x), Send(b)];
            var heard := HandedOut(r, Datagrams(s, calls), from, arrivals[..j]);
            && FrameStandInsFrame(heard, a, 3, b)
            && (|heard| == 5 ==> Hearing(r, Datagrams(s, calls), from, arrivals[..j]).jitter.stats.lost == 3)
  {
    var s, r, calls := NewSender(config, None, ssrc, first, timestamp), R.NewReceiver(config, None),
                       [Send(a), Queue('5'), Send(x), Send(b)];
    NewEnds(config, ssrc, first, timestamp, a, x, b, from);
    hide R.NewReceiver, NewSender, Packets, Tags, Datagrams, RR.Valid, Lineup, AudioOf, HandedOut, Hearing, SentCount,
         J.Discontinuity, FindsRoom, StreamSender.Valid, FreshSender, Comes, InSequence, PlaysFrames, FrameStandInsFrame,
         PlainEnds, J.New, Seq,
         DigitBetween, CallsPerDigit;
    TagsAreByType(s, calls);
    DueOfDigit(s, calls, a, '5', b, 3);
    EndsAreClose(Tags(s, calls), 4);
    PlainAudioInOrder(s, calls, r, from, arrivals, j);
    DigitIsConcealed(s, calls, a, '5', b, r, from, arrivals, j);
  }

  lemma NewEnds(config: Config, ssrc: u32, first: u16, timestamp: u32, a: seq<byte>, x: seq<byte>, b: seq<byte>, from: Address)
    requires ValidConfig(config) && config.dtmfPackets <= 1 && 3 <= config.maxPackets < TWO32
    requires GoodPayloadType(config.payloadType)
    requires config.dtmfPayloadType.Some? && GoodPayloadType(config.dtmfPayloadType.value) && from.ip == config.remote.ip
    requires RR.Valid(R.NewReceiver(config, None)) && Valid(NewSender(config, None, ssrc, first, timestamp))
    ensures var s, r, calls := NewSender(config, None, ssrc, first, timestamp), R.NewReceiver(config, None),
                               [Send(a), Queue('5'), Send(x), Send(b)];
            && FreshSender(s) && PlainEnds(s, r, from) && SameSource(s, r) && r.jitter == J.New(r.jitter.config)
            && CallsPerDigit(s.config) == 1 && DigitBetween(s.config, calls, a, '5', b)
            && J.Discontinuity(r.jitter.config) == config.maxPackets && s.sequence == first
  {
  }

  lemma EndsAreClose(tags: seq<Option<nat>>, last: nat)
    requires OnlyEnds(tags, last) && last < HALF
    ensures CloseFrames(AudioOf(tags))
  {
    EndsLineUp(tags, last, 0);
  }
}
