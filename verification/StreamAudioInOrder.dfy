/** Audio from one end's encoder to the other end's decoder, over a network that loses nothing and keeps
    the order. A digit's packets take sequence numbers too, and carry no audio: the ticks of the receiver
    play number by number, every frame as it was encoded and a stand-in for every packet of a digit. */
module StreamAudioInOrder {
  import opened Bytes
  import opened SequenceNumbers
  import opened StreamConfig
  import opened StreamSender
  import opened StreamSenderRuns
  import opened StreamDtmf
  import opened StreamNetwork
  import opened StreamLineup
  import J = Jitter
  import JR = JitterRuns
  import JO = JitterInOrder
  import JW = JitterWait
  import R = StreamReceiver
  import RR = StreamReceiverRuns
  import H = RtpHeader
  import S = Srtp
  import T = SourceTable

  // ----- What is sent

  /** The call that sent each packet. */
  function Origins(s: Sender, calls: seq<Call>): seq<nat>
    requires Valid(s)
  {
    if calls == [] then []
    else
      var n := |calls| - 1;
      Origins(s, calls[..n]) + seq(|PacketsIn(After(s, calls[..n]), calls[n])|, i => n)
  }

  /** The packet is the frame of that call: its encoding, at its time. */
  ghost predicate IsFrame(s: Sender, calls: seq<Call>, o: nat, p: H.Packet) {
    && o < |calls| && calls[o].Send? && p.payload == calls[o].encoded
    && p.header.timestamp == Clock(s, Sends(calls[..o])) % TWO32
  }

  /** Every audio packet is the frame of its call. */
  ghost predicate AreFrames(s: Sender, calls: seq<Call>, packets: seq<H.Packet>, origins: seq<nat>) {
    && |origins| == |packets|
    && forall i :: 0 <= i < |packets| && packets[i].header.payloadType == s.config.payloadType ==>
         IsFrame(s, calls, origins[i], packets[i])
  }

  /** Audio packets of one call. */
  lemma CallFrames(s: Sender, c: Call)
    requires Valid(s)
    ensures forall i :: 0 <= i < |PacketsIn(s, c)| && PacketsIn(s, c)[i].header.payloadType == s.config.payloadType ==>
              c.Send? && PacketsIn(s, c)[i].payload == c.encoded && PacketsIn(s, c)[i].header.timestamp == s.timestamp
  {
    hide ProtectedAll, Duration;
    if c.Send? { PacketizedKeepsValid(s, c.encoded); }
  }

  lemma {:induction false} FramesGoOut(s: Sender, calls: seq<Call>, n: nat)
    requires Valid(s) && n <= |calls|
    ensures AreFrames(s, calls, Packets(s, calls[..n]), Origins(s, calls[..n]))
  {
    hide Step, PacketsIn, Clock, StreamSender.Valid;
    if n == 0 {
      assert calls[..0] == [];
    } else {
      assert calls[..n][..n - 1] == calls[..n - 1];
      FramesGoOut(s, calls, n - 1);
      CallFrames(After(s, calls[..n - 1]), calls[n - 1]);
      AudioClock(s, calls, n - 1);
    }
  }

  // ----- What comes to the jitter buffer

  /** What is added to a packet's place in the run to give its number: the first sequence number, less the
      whole cycles before the first packet with audio. */
  function Shift(s: Sender, tags: seq<Option<nat>>): int {
    var idx := AudioOf(tags);
    if idx == [] then s.sequence else s.sequence - TWO16 * Cycle(s.sequence + idx[0])
  }

  function NumberOf(shift: int, n: nat): u32 {
    if 0 <= shift + n < TWO32 then shift + n else 0
  }

  lemma ShiftIsWhole(s: Sender, tags: seq<Option<nat>>, n: nat)
    ensures Seq(Shift(s, tags) + n) == Seq(s.sequence + n) && Shift(s, tags) <= s.sequence
    ensures AudioOf(tags) != [] ==> 0 <= Shift(s, tags) + AudioOf(tags)[0] < TWO16
  {
    hide AudioOf;
  }

  /** An arrival as the jitter buffer sees it, if it does. */
  function OnJitter(packets: seq<H.Packet>, tags: seq<Option<nat>>, shift: int, a: Arrival): Option<JR.Arrival> {
    match a
    case Sent(n, now) =>
      if n < |packets| && AudioAt(tags, n)
      then Some(JR.Packet(NumberOf(shift, n), packets[n].header.timestamp, packets[n].payload, now)) else None
    case Stray(_, _, _) => None
    case Tick(now, wanted, _) => Some(JR.Tick(now, wanted))
  }

  /** One arrival, and the jitter buffer. */
  lemma JitterStep(s: Sender, presses: seq<PressEvent>, packets: seq<H.Packet>, tags: seq<Option<nat>>, shift: int,
                   r: R.Receiver, datagrams: seq<seq<byte>>, from: Address, a: Arrival)
    requires RR.Valid(r) && Agree(s, r, from) && SameSource(s, r)
    requires AllFit(s, presses, packets, tags) && SameSsrc(packets, s.ssrc)
    requires |datagrams| == |packets| && Brought(packets, r, datagrams, a)
    requires a.Sent? ==> Recovers(r, datagrams[a.n])
    requires a.Sent? && AudioAt(tags, a.n) ==> packets[a.n].header.sequence == Seq(NumberOf(shift, a.n))
    ensures J.ValidMode(r.jitter.config.mode)
    ensures var seen := OnJitter(packets, tags, shift, a);
            RR.Step(r, AsEvent(datagrams, from, a)).jitter
            == if seen.Some? then JR.Step(r.jitter, JR.EventOf(seen.value)) else r.jitter
  {
    var e := AsEvent(datagrams, from, a);
    RR.NothingSeen(r, []);
    hide RR.Step, RR.Valid, Agree, Carries, RR.Harmless, R.Decrypted, Stamp, J.Pushed, J.Popped, Seq, NumberOf, Recovers,
         R.Ingested;
    match a
    case Sent(n, now) =>
      assert Fits(s, presses, packets[n], tags[n]);
      PacketOnJitter(s, presses, r, from, packets[n], tags[n], datagrams[n], now);
      StepIsIngest(r, e);
    case Stray(_, _, _) => HearsStray(s, r, from, e);
    case Tick(_, _, _) => HearsTick(s, r, from, e);
  }

  function PushedBy(packets: seq<H.Packet>, tags: seq<Option<nat>>, shift: int, a: Arrival): seq<JR.Play> {
    var seen := OnJitter(packets, tags, shift, a);
    if seen.Some? then JO.PushedBy(seen.value) else []
  }

  /** The frames pushed. */
  function Pushed(packets: seq<H.Packet>, tags: seq<Option<nat>>, shift: int, arrivals: seq<Arrival>): seq<JR.Play> {
    if arrivals == [] then []
    else
      var j := |arrivals| - 1;
      Pushed(packets, tags, shift, arrivals[..j]) + PushedBy(packets, tags, shift, arrivals[j])
  }

  /** Each is the packet with audio of that place in the run. */
  ghost predicate IsPacket(play: JR.Play, k: nat, shift: int, p: H.Packet) {
    && play.number == k + shift && play.packet.Some?
    && play.packet.value.payload == p.payload && play.packet.value.timestamp == p.header.timestamp
    && play.packet.value.sequence == Seq(k + shift) && !play.packet.value.synthesized
  }

  ghost predicate ArePackets(plays: seq<JR.Play>, idx: seq<nat>, shift: int, packets: seq<H.Packet>) {
    |plays| == |idx| && forall i :: 0 <= i < |idx| ==> idx[i] < |packets| && IsPacket(plays[i], idx[i], shift, packets[idx[i]])
  }

  /** Every number is a number. */
  ghost predicate InRange(idx: seq<nat>, shift: int) {
    forall i :: 0 <= i < |idx| ==> 0 <= shift + idx[i] < TWO32 - 1
  }

  lemma {:induction false} PushedArePackets(packets: seq<H.Packet>, tags: seq<Option<nat>>, shift: int,
                                            arrivals: seq<Arrival>, j: nat)
    requires j <= |arrivals| && InSequence(arrivals) && SentCount(arrivals[..j]) <= |tags| == |packets|
    requires InRange(AudioOf(tags), shift)
    ensures ArePackets(Pushed(packets, tags, shift, arrivals[..j]), AudioOf(tags[..SentCount(arrivals[..j])]), shift, packets)
  {
    hide AudioOf, InRange, InSequence, IsPacket, ArePackets, Pushed, SentCount, AudioAt;
    if j == 0 {
      NothingPushed(packets, tags, shift, arrivals);
      NoPackets(shift, packets);
    } else {
      CountsOneMore(arrivals, j - 1);
      PushedArePackets(packets, tags, shift, arrivals, j - 1);
      OneMorePushed(packets, tags, shift, arrivals, j - 1);
      var before, after := Pushed(packets, tags, shift, arrivals[..j - 1]), Pushed(packets, tags, shift, arrivals[..j]);
      if |after| == |before| + 1 && after[..|before|] == before {
        OneMorePacket(before, AudioOf(tags[..SentCount(arrivals[..j - 1])]), after, SentCount(arrivals[..j - 1]), shift, packets);
      }
    }
  }

  lemma NoPackets(shift: int, packets: seq<H.Packet>)
    ensures ArePackets([], [], shift, packets)
  {
  }

  lemma OneMorePacket(before: seq<JR.Play>, idx: seq<nat>, after: seq<JR.Play>, c: nat, shift: int, packets: seq<H.Packet>)
    requires ArePackets(before, idx, shift, packets) && |after| == |before| + 1 && after[..|before|] == before
    requires c < |packets| && IsPacket(after[|before|], c, shift, packets[c])
    ensures ArePackets(after, idx + [c], shift, packets)
  {
    hide IsPacket;
    forall i | 0 <= i < |before| ensures after[i] == before[i] { assert after[i] == after[..|before|][i]; }
  }

  lemma CountsOneMore(arrivals: seq<Arrival>, j: nat)
    requires j < |arrivals|
    ensures SentCount(arrivals[..j + 1]) == SentCount(arrivals[..j]) + if arrivals[j].Sent? then 1 else 0
  {
    assert arrivals[..j + 1][..j] == arrivals[..j];
  }

  lemma NothingPushed(packets: seq<H.Packet>, tags: seq<Option<nat>>, shift: int, arrivals: seq<Arrival>)
    ensures Pushed(packets, tags, shift, arrivals[..0]) == [] && AudioOf(tags[..0]) == [] && SentCount(arrivals[..0]) == 0
  {
  }

  lemma OneMorePushed(packets: seq<H.Packet>, tags: seq<Option<nat>>, shift: int, arrivals: seq<Arrival>, j: nat)
    requires j < |arrivals| && InSequence(arrivals) && SentCount(arrivals[..j + 1]) <= |tags| == |packets|
    requires InRange(AudioOf(tags), shift)
    ensures SentCount(arrivals[..j + 1]) == SentCount(arrivals[..j]) + if arrivals[j].Sent? then 1 else 0
    ensures var a, c, before := arrivals[j], SentCount(arrivals[..j]), Pushed(packets, tags, shift, arrivals[..j]);
            var after := Pushed(packets, tags, shift, arrivals[..j + 1]);
            if a.Sent? && AudioAt(tags, c) then
              && a.n == c && AudioOf(tags[..c + 1]) == AudioOf(tags[..c]) + [c]
              && |after| == |before| + 1 && after[..|before|] == before && IsPacket(after[|before|], c, shift, packets[c])
            else
              && AudioOf(tags[..SentCount(arrivals[..j + 1])]) == AudioOf(tags[..c]) && after == before
  {
    hide InRange;
    assert arrivals[..j + 1][..j] == arrivals[..j] && InSequenceAt(arrivals, j);
    var c := SentCount(arrivals[..j]);
    if arrivals[j].Sent? {
      assert tags[..c + 1][..c] == tags[..c];
      if AudioAt(tags, c) {
        AudioIsInRange(tags, shift, c);
      }
    }
  }

  lemma AudioIsInRange(tags: seq<Option<nat>>, shift: int, c: nat)
    requires InRange(AudioOf(tags), shift) && AudioAt(tags, c)
    ensures NumberOf(shift, c) == shift + c
  {
    hide AudioOf;
    assert tags[..|tags|] == tags;
    AudioIsAscending(tags, |tags|);
    assert c in AudioOf(tags);
  }

  // ----- What is played

  /** The packets the ticks pop, stand-ins included: what the decoder is given, tick by tick. */
  ghost function HandedOut(r: R.Receiver, datagrams: seq<seq<byte>>, from: Address, arrivals: seq<Arrival>)
    : seq<J.BufferedPacket>
    requires RR.Valid(r)
  {
    if arrivals == [] then []
    else
      var j := |arrivals| - 1;
      HandedOut(r, datagrams, from, arrivals[..j]) + HandedOutBy(Hearing(r, datagrams, from, arrivals[..j]), arrivals[j])
  }

  ghost function HandedOutBy(r: R.Receiver, a: Arrival): seq<J.BufferedPacket>
    requires RR.Valid(r)
  {
    if a.Tick? && J.Popped(r.jitter, a.now, a.wanted).1.Some? then [J.Popped(r.jitter, a.now, a.wanted).1.value] else []
  }

  /** The same with the extended numbers. */
  ghost function Plays(r: R.Receiver, datagrams: seq<seq<byte>>, from: Address, arrivals: seq<Arrival>): seq<JR.Play>
    requires RR.Valid(r)
  {
    if arrivals == [] then []
    else
      var j := |arrivals| - 1;
      Plays(r, datagrams, from, arrivals[..j]) + PlaysBy(Hearing(r, datagrams, from, arrivals[..j]), arrivals[j])
  }

  ghost function PlaysBy(r: R.Receiver, a: Arrival): seq<JR.Play>
    requires RR.Valid(r)
  {
    if a.Tick? then JO.PlayedBy(r.jitter, JR.Tick(a.now, a.wanted)) else []
  }

  ghost predicate IsPlay(packet: J.BufferedPacket, play: JR.Play) {
    && packet.sequence == Seq(play.number)
    && if play.packet.Some? then packet == play.packet.value && !packet.synthesized
       else packet.synthesized && packet.payload == []
  }

  ghost predicate ArePlays(heard: seq<J.BufferedPacket>, plays: seq<JR.Play>) {
    |heard| == |plays| && forall i :: 0 <= i < |heard| ==> IsPlay(heard[i], plays[i])
  }

  /** A tick hands out the packet of the number played. */
  lemma HeardIsPlayed(r: R.Receiver, a: Arrival)
    requires RR.Valid(r)
    ensures ArePlays(HandedOutBy(r, a), PlaysBy(r, a))
  {
    RR.NothingSeen(r, []);
    hide J.Least, J.Adapted, J.ShouldStart;
  }

  lemma {:induction false} HeardArePlays(r: R.Receiver, datagrams: seq<seq<byte>>, from: Address, arrivals: seq<Arrival>, j: nat)
    requires RR.Valid(r) && j <= |arrivals|
    ensures ArePlays(HandedOut(r, datagrams, from, arrivals[..j]), Plays(r, datagrams, from, arrivals[..j]))
  {
    hide Hearing, HandedOutBy, PlaysBy, IsPlay, RR.Valid;
    if j == 0 {
      assert arrivals[..0] == [];
    } else {
      assert arrivals[..j][..j - 1] == arrivals[..j - 1];
      HeardArePlays(r, datagrams, from, arrivals, j - 1);
      HeardIsPlayed(Hearing(r, datagrams, from, arrivals[..j - 1]), arrivals[j - 1]);
    }
  }

  // ----- The setting

  /** Every frame finds room in the jitter buffer. */
  ghost predicate RoomAt(r: R.Receiver, datagrams: seq<seq<byte>>, from: Address, tags: seq<Option<nat>>,
                         arrivals: seq<Arrival>, j: nat)
    requires RR.Valid(r) && j < |arrivals|
  {
    arrivals[j].Sent? && AudioAt(tags, arrivals[j].n) ==>
      |Hearing(r, datagrams, from, arrivals[..j]).jitter.packets| < r.config.maxPackets
  }

  ghost predicate FindsRoom(r: R.Receiver, datagrams: seq<seq<byte>>, from: Address, tags: seq<Option<nat>>,
                            arrivals: seq<Arrival>)
    requires RR.Valid(r)
  {
    forall j :: 0 <= j < |arrivals| ==> RoomAt(r, datagrams, from, tags, arrivals, j)
  }

  /** From one frame to the next the sequence number goes on by less than 2^15. */
  ghost predicate CloseFrames(idx: seq<nat>) {
    forall i :: 0 < i < |idx| ==> idx[i] - idx[i - 1] < HALF
  }

  /** What a run of a sender sends, and from where. */
  datatype Sending = Sending(
    s: Sender, presses: seq<PressEvent>, packets: seq<H.Packet>, tags: seq<Option<nat>>,
    datagrams: seq<seq<byte>>, from: Address)

  /** Its datagrams come in sequence and are recovered, among strays and ticks; the jitter buffer is new. */
  ghost predicate Setting(x: Sending, r: R.Receiver, arrivals: seq<Arrival>) {
    && RR.Valid(r) && Agree(x.s, r, x.from) && SameSource(x.s, r) && r.jitter == J.New(r.jitter.config)
    && InOrder(x.presses) && AllFit(x.s, x.presses, x.packets, x.tags) && |x.datagrams| == |x.packets|
    && NumberedFrom(x.packets, x.s.ssrc, x.s.sequence) && SameSsrc(x.packets, x.s.ssrc)
    && AllCarried(x.packets, r, x.datagrams, x.from, arrivals) && AllRecovered(r, x.datagrams, x.from, arrivals)
    && InSequence(arrivals) && FindsRoom(r, x.datagrams, x.from, x.tags, arrivals)
    && CloseFrames(AudioOf(x.tags)) && x.s.sequence + |x.packets| < TWO32 - 1
  }

  /** What it says of one arrival. */
  lemma SettingTells(x: Sending, r: R.Receiver, arrivals: seq<Arrival>, j: nat)
    requires Setting(x, r, arrivals) && j < |arrivals|
    ensures RR.Valid(r) && InOrder(x.presses) && |x.packets| == |x.datagrams| == |x.tags|
    ensures CarriesAt(x.packets, r, x.datagrams, x.from, arrivals, j)
    ensures RoomAt(r, x.datagrams, x.from, x.tags, arrivals, j)
    ensures arrivals[j].Sent? ==>
              && arrivals[j].n == SentCount(arrivals[..j]) < |x.packets|
              && Recovers(Hearing(r, x.datagrams, x.from, arrivals[..j]), x.datagrams[arrivals[j].n])
              && x.packets[arrivals[j].n].header.sequence == Seq(x.s.sequence + arrivals[j].n)
  {
    hide Agree, RR.Valid, Recovers, Hearing, AudioOf, SentCount, CloseFrames, Seq, Plain, Fits, InOrder, CarriesAt, RoomAt;
    assert InSequenceAt(arrivals, j) && RecoversAt(r, x.datagrams, x.from, arrivals, j);
  }

  lemma {:induction false} CountBounded(x: Sending, r: R.Receiver, arrivals: seq<Arrival>, j: nat)
    requires Setting(x, r, arrivals) && j <= |arrivals|
    ensures SentCount(arrivals[..j]) <= |x.packets|
  {
    hide Setting, SentCount, RR.Valid, Recovers, Hearing;
    if j > 0 {
      CountBounded(x, r, arrivals, j - 1);
      CountsOneMore(arrivals, j - 1);
      SettingTells(x, r, arrivals, j - 1);
    } else {
      NoneSent(arrivals);
    }
  }

  lemma NoneSent(arrivals: seq<Arrival>)
    ensures SentCount(arrivals[..0]) == 0
  {
  }

  lemma AllInRange(s: Sender, tags: seq<Option<nat>>)
    requires s.sequence + |tags| < TWO32 - 1
    ensures InRange(AudioOf(tags), Shift(s, tags))
  {
    hide AudioOf, Shift;
    assert tags[..|tags|] == tags;
    AudioIsAscending(tags, |tags|);
    ShiftIsWhole(s, tags, 0);
    var idx := AudioOf(tags);
    forall i | 0 <= i < |idx| ensures 0 <= Shift(s, tags) + idx[i] < TWO32 - 1 {
      if i > 0 { assert idx[0] < idx[i]; }
    }
  }

  // ----- Whole runs

  /** The frames pushed by an arrival, and by all of them. */
  function FrameBy(x: Sending, a: Arrival): seq<JR.Play> {
    PushedBy(x.packets, x.tags, Shift(x.s, x.tags), a)
  }

  function Frames(x: Sending, arrivals: seq<Arrival>): seq<JR.Play> {
    Pushed(x.packets, x.tags, Shift(x.s, x.tags), arrivals)
  }

  ghost function Now(x: Sending, r: R.Receiver, arrivals: seq<Arrival>, j: nat): (now: R.Receiver)
    requires RR.Valid(r) && j <= |arrivals|
    ensures RR.Valid(now) && now.config == r.config
  {
    Hearing(r, x.datagrams, x.from, arrivals[..j])
  }

  /** What has been played is the beginning of the line of the frames pushed, and the buffer holds the rest. */
  ghost predicate Playing(x: Sending, r: R.Receiver, arrivals: seq<Arrival>, j: nat)
    requires RR.Valid(r) && j <= |arrivals|
  {
    && Agree(x.s, Now(x, r, arrivals, j), x.from) && SameSource(x.s, Now(x, r, arrivals, j))
    && JO.PlaysLine(Now(x, r, arrivals, j).jitter, Frames(x, arrivals[..j]), Plays(r, x.datagrams, x.from, arrivals[..j]))
  }

  /** The next frame is numbered past the last by less than 2^15. */
  lemma NextFollows(plays: seq<JR.Play>, idx: seq<nat>, all: seq<nat>, shift: int, packets: seq<H.Packet>, c: nat)
    requires ArePackets(plays, idx, shift, packets) && idx + [c] <= all && Ascends(all) && CloseFrames(all)
    requires 0 <= shift + all[0] < TWO16
    ensures JO.Follows(plays, shift + c)
  {
    assert all[|idx|] == (idx + [c])[|idx|];
    if idx != [] {
      assert all[|idx| - 1] == (idx + [c])[|idx| - 1];
      assert IsPacket(plays[|idx| - 1], idx[|idx| - 1], shift, packets[idx[|idx| - 1]]);
    }
  }

  lemma AudioNext(tags: seq<Option<nat>>, c: nat)
    requires AudioAt(tags, c)
    ensures AudioOf(tags[..c]) + [c] <= AudioOf(tags)
  {
    assert tags[..c + 1][..c] == tags[..c];
    AudioGrows(tags, c + 1);
  }

  /** A frame that comes in sequence is the next after those pushed, under its own number. */
  lemma FrameIsNext(s: Sender, packets: seq<H.Packet>, tags: seq<Option<nat>>, arrivals: seq<Arrival>, j: nat, c: nat)
    requires j < |arrivals| && InSequence(arrivals) && c == SentCount(arrivals[..j]) <= |tags| == |packets|
    requires AudioAt(tags, c) && CloseFrames(AudioOf(tags)) && s.sequence + |tags| < TWO32 - 1
    ensures var k := NumberOf(Shift(s, tags), c);
            && JO.Follows(Pushed(packets, tags, Shift(s, tags), arrivals[..j]), k) && k < TWO32 - 1
            && Seq(k) == Seq(s.sequence + c)
  {
    hide JO.Follows, Pushed, AudioOf, ArePackets, Shift, SentCount, CloseFrames, InRange, Ascends, Seq, NumberOf, InSequence;
    var shift := Shift(s, tags);
    AllInRange(s, tags);
    PushedArePackets(packets, tags, shift, arrivals, j);
    AudioNext(tags, c);
    assert tags[..|tags|] == tags;
    AudioIsAscending(tags, |tags|);
    ShiftIsWhole(s, tags, c);
    AudioIsInRange(tags, shift, c);
    NextFollows(Pushed(packets, tags, shift, arrivals[..j]), AudioOf(tags[..c]), AudioOf(tags), shift, packets, c);
  }

  /** And it finds room. */
  lemma FrameFollows(x: Sending, r: R.Receiver, arrivals: seq<Arrival>, j: nat)
    requires Setting(x, r, arrivals) && j < |arrivals| && arrivals[j].Sent? && AudioAt(x.tags, arrivals[j].n)
    ensures var k := NumberOf(Shift(x.s, x.tags), arrivals[j].n);
            && arrivals[j].n < |x.packets| && JO.Follows(Frames(x, arrivals[..j]), k) && k < TWO32 - 1
            && x.packets[arrivals[j].n].header.sequence == Seq(k)
            && |Now(x, r, arrivals, j).jitter.packets| < r.config.maxPackets
  {
    hide Agree, AllCarried, RR.Valid, Recovers, Hearing, JO.Follows, Pushed, AudioOf, Shift, CloseFrames, Seq, NumberOf,
         AllRecovered, InSequence, SentCount, FindsRoom, NumberedFrom, AllFit, SameSsrc, InOrder;
    SettingTells(x, r, arrivals, j);
    FrameIsNext(x.s, x.packets, x.tags, arrivals, j, arrivals[j].n);
  }

  lemma OneMoreHeard(x: Sending, r: R.Receiver, arrivals: seq<Arrival>, j: nat)
    requires RR.Valid(r) && j < |arrivals|
    ensures Now(x, r, arrivals, j + 1) == RR.Step(Now(x, r, arrivals, j), AsEvent(x.datagrams, x.from, arrivals[j]))
    ensures Plays(r, x.datagrams, x.from, arrivals[..j + 1])
         == Plays(r, x.datagrams, x.from, arrivals[..j]) + PlaysBy(Now(x, r, arrivals, j), arrivals[j])
    ensures Frames(x, arrivals[..j + 1]) == Frames(x, arrivals[..j]) + FrameBy(x, arrivals[j])
  {
    hide RR.Step, RR.Valid, AsEvent, PlaysBy, PushedBy, Shift;
    assert arrivals[..j + 1][..j] == arrivals[..j];
  }

  /** One arrival that is a frame in sequence with room for it, or a tick, or nothing to the jitter buffer. */
  lemma StepPlays(x: Sending, r: R.Receiver, after: J.Buffer, sent: seq<JR.Play>, plays: seq<JR.Play>, a: Arrival)
    requires RR.Valid(r) && J.ValidMode(r.jitter.config.mode) && JO.PlaysLine(r.jitter, sent, plays)
    requires var seen := OnJitter(x.packets, x.tags, Shift(x.s, x.tags), a);
             after == if seen.Some? then JR.Step(r.jitter, JR.EventOf(seen.value)) else r.jitter
    requires a.Sent? && a.n < |x.packets| && AudioAt(x.tags, a.n) ==>
               var k := NumberOf(Shift(x.s, x.tags), a.n);
               JO.Follows(sent, k) && k < TWO32 - 1 && |r.jitter.packets| < r.jitter.config.maxPackets
    ensures JO.PlaysLine(after, sent + FrameBy(x, a), plays + PlaysBy(r, a))
  {
    hide JO.PlaysLine, JR.Step, JO.Follows, NumberOf, RR.Valid, J.Popped, JR.PopPlay, Shift;
    var seen := OnJitter(x.packets, x.tags, Shift(x.s, x.tags), a);
    if seen.Some? {
      JO.StepPlays(r.jitter, sent, plays, seen.value);
    }
    assert sent + [] == sent && plays + [] == plays;
  }

  /** One arrival of the run, and the jitter buffer. */
  lemma JitterStepAt(x: Sending, r: R.Receiver, arrivals: seq<Arrival>, j: nat)
    requires Setting(x, r, arrivals) && RR.Valid(r) && j < |arrivals| && Playing(x, r, arrivals, j)
    ensures var before, seen := Now(x, r, arrivals, j), OnJitter(x.packets, x.tags, Shift(x.s, x.tags), arrivals[j]);
            && J.ValidMode(before.jitter.config.mode)
            && Now(x, r, arrivals, j + 1).jitter
               == if seen.Some? then JR.Step(before.jitter, JR.EventOf(seen.value)) else before.jitter
  {
    hide Agree, Brought, RR.Step, RR.Valid, Recovers, Now, AllFit, InOrder, SameSsrc, AsEvent, Frames, FrameBy, Plays,
         PlaysBy, JO.PlaysLine, JO.Follows, Shift, NumberOf, Seq, AudioOf, InSequence, CloseFrames,
         JR.Step, Stamp, NumberedFrom, AllRecovered, AllCarried, FindsRoom, SentCount, J.New;
    SettingTells(x, r, arrivals, j);
    NowIs(x, r, arrivals, j);
    OneMoreHeard(x, r, arrivals, j);
    if arrivals[j].Sent? && AudioAt(x.tags, arrivals[j].n) {
      FrameFollows(x, r, arrivals, j);
    }
    JitterStep(x.s, x.presses, x.packets, x.tags, Shift(x.s, x.tags), Now(x, r, arrivals, j), x.datagrams, x.from, arrivals[j]);
  }

  lemma PlayingOneMore(x: Sending, r: R.Receiver, arrivals: seq<Arrival>, j: nat)
    requires Setting(x, r, arrivals) && RR.Valid(r) && j < |arrivals| && Playing(x, r, arrivals, j)
    ensures Playing(x, r, arrivals, j + 1)
  {
    hide Agree, Brought, RR.Step, RR.Valid, Recovers, Now, AllFit, InOrder, SameSsrc, AsEvent, Frames, FrameBy, Plays,
         PlaysBy, JO.PlaysLine, JO.Follows, Shift, NumberOf, Seq, ReportOf, TagNow, AudioOf, InSequence, CloseFrames,
         JR.Step, Stamp, Heeds, EventFor, NumberedFrom, AllRecovered, AllCarried, FindsRoom, SentCount, J.New;
    var before, a := Now(x, r, arrivals, j), arrivals[j];
    SettingTells(x, r, arrivals, j);
    NowIs(x, r, arrivals, j);
    OneMoreHeard(x, r, arrivals, j);
    HearsArrival(x.s, x.presses, x.packets, x.tags, before, x.datagrams, x.from, a);
    if a.Sent? && AudioAt(x.tags, a.n) {
      FrameFollows(x, r, arrivals, j);
    }
    JitterStepAt(x, r, arrivals, j);
    JitterConfigIs(before);
    StepPlays(x, before, Now(x, r, arrivals, j + 1).jitter, Frames(x, arrivals[..j]),
              Plays(r, x.datagrams, x.from, arrivals[..j]), a);
  }

  lemma NowIs(x: Sending, r: R.Receiver, arrivals: seq<Arrival>, j: nat)
    requires RR.Valid(r) && j <= |arrivals|
    ensures Now(x, r, arrivals, j) == Hearing(r, x.datagrams, x.from, arrivals[..j])
  {
  }

  lemma JitterConfigIs(r: R.Receiver)
    requires RR.Valid(r)
    ensures r.jitter.config == JitterConfig(r.config) && r.jitter.config.maxPackets == r.config.maxPackets
    ensures J.ValidMode(r.jitter.config.mode)
  {
  }

  lemma {:induction false} PlaysOn(x: Sending, r: R.Receiver, arrivals: seq<Arrival>, j: nat)
    requires Setting(x, r, arrivals) && j <= |arrivals|
    ensures RR.Valid(r) && Playing(x, r, arrivals, j)
  {
    SettingIsValid(x, r, arrivals);
    hide RR.Valid, Setting, Playing;
    if j == 0 {
      PlaysAtFirst(x, r, arrivals);
    } else {
      PlaysOn(x, r, arrivals, j - 1);
      PlayingOneMore(x, r, arrivals, j - 1);
    }
  }

  lemma SettingIsValid(x: Sending, r: R.Receiver, arrivals: seq<Arrival>)
    requires Setting(x, r, arrivals)
    ensures RR.Valid(r) && InSequence(arrivals) && |x.tags| == |x.packets|
  {
  }

  lemma PlaysAtFirst(x: Sending, r: R.Receiver, arrivals: seq<Arrival>)
    requires Setting(x, r, arrivals) && RR.Valid(r)
    ensures Playing(x, r, arrivals, 0)
  {
    hide RR.Valid, JO.PlaysLine, J.New, Agree, AllCarried, AllRecovered, FindsRoom, AllFit, CloseFrames, NumberedFrom;
    JitterConfigIs(r);
    JO.NothingPlayed(r.jitter.config);
    assert arrivals[..0] == [];
  }

  // ----- Number by number

  /** The numbers due by now: of the packets that have come, those with audio and, between two of them, those of
      a digit, when those are no more than a full buffer. */
  function Due(x: Sending, config: J.Config, arrivals: seq<Arrival>): seq<nat>
    requires SentCount(arrivals) <= |x.tags|
  {
    Lineup(AudioOf(x.tags[..SentCount(arrivals)]), J.Discontinuity(config))
  }

  /** What is handed out for packet `k`: the packet, if it is audio, and a stand-in otherwise. */
  ghost predicate IsHeard(x: Sending, k: nat, packet: J.BufferedPacket) {
    && k < |x.packets| && packet.sequence == Seq(x.s.sequence + k)
    && if AudioAt(x.tags, k)
       then !packet.synthesized && packet.payload == x.packets[k].payload
            && packet.timestamp == x.packets[k].header.timestamp
       else packet.synthesized && packet.payload == []
  }

  ghost predicate AreHeard(x: Sending, due: seq<nat>, heard: seq<J.BufferedPacket>) {
    |heard| <= |due| && forall i :: 0 <= i < |heard| ==> IsHeard(x, due[i], heard[i])
  }

  lemma HeardIs(x: Sending, frames: seq<JR.Play>, c: nat, play: JR.Play, k: nat, packet: J.BufferedPacket)
    requires c <= |x.tags| == |x.packets| && k < c
    requires var idx, shift := AudioOf(x.tags[..c]), Shift(x.s, x.tags);
             ArePackets(frames, idx, shift, x.packets) && PlayIs(frames, idx, shift, play, k)
    requires IsPlay(packet, play)
    ensures IsHeard(x, k, packet)
  {
    hide AudioOf, Shift, Seq;
    AudioIsAscending(x.tags, c);
    ShiftIsWhole(x.s, x.tags, k);
    var idx, shift := AudioOf(x.tags[..c]), Shift(x.s, x.tags);
    if play.packet.Some? {
      var i :| 0 <= i < |idx| && idx[i] == k && i < |frames| && frames[i] == play;
      assert IsPacket(frames[i], idx[i], shift, x.packets[idx[i]]);
    }
  }

  /** What has come so far, in order of number. */
  lemma FramesLineUp(x: Sending, r: R.Receiver, arrivals: seq<Arrival>, j: nat)
    requires Setting(x, r, arrivals) && j <= |arrivals|
    ensures SentCount(arrivals[..j]) <= |x.tags| == |x.packets|
    ensures var idx, shift := AudioOf(x.tags[..SentCount(arrivals[..j])]), Shift(x.s, x.tags);
            var d := J.Discontinuity(r.jitter.config);
            var frames := Frames(x, arrivals[..j]);
            && ArePackets(frames, idx, shift, x.packets)
            && LineIs(frames, idx, shift, JO.Line(frames, d), Due(x, r.jitter.config, arrivals[..j]))
    ensures forall k :: k in Due(x, r.jitter.config, arrivals[..j]) ==> k < SentCount(arrivals[..j])
  {
    SettingIsValid(x, r, arrivals);
    CountBounded(x, r, arrivals, j);
    SettingInRange(x, r, arrivals);
    hide Setting, RR.Valid, InSequence, AudioOf, Shift, JO.Line, Lineup, LineIs, Pushed, SentCount, J.Discontinuity, InRange,
         ArePackets;
    PushedArePackets(x.packets, x.tags, Shift(x.s, x.tags), arrivals, j);
    PacketsLineUp(Frames(x, arrivals[..j]), x.tags, Shift(x.s, x.tags), x.packets, SentCount(arrivals[..j]),
                  J.Discontinuity(r.jitter.config));
  }

  lemma PacketsLineUp(frames: seq<JR.Play>, tags: seq<Option<nat>>, shift: int, packets: seq<H.Packet>, c: nat, d: nat)
    requires c <= |tags| && ArePackets(frames, AudioOf(tags[..c]), shift, packets)
    ensures LineIs(frames, AudioOf(tags[..c]), shift, JO.Line(frames, d), Lineup(AudioOf(tags[..c]), d))
    ensures forall k :: k in Lineup(AudioOf(tags[..c]), d) ==> k < c
  {
    hide AudioOf, JO.Line, Lineup, LineIs;
    var idx := AudioOf(tags[..c]);
    AudioIsAscending(tags, c);
    PacketsAreSentAs(frames, idx, shift, packets);
    LineIsLineup(frames, idx, shift, d, |frames|);
    assert frames[..|frames|] == frames && idx[..|idx|] == idx;
    LineupAscends(idx, d, |idx|);
  }

  lemma SettingInRange(x: Sending, r: R.Receiver, arrivals: seq<Arrival>)
    requires Setting(x, r, arrivals)
    ensures InRange(AudioOf(x.tags), Shift(x.s, x.tags))
  {
    AllInRange(x.s, x.tags);
  }

  lemma PacketsAreSentAs(plays: seq<JR.Play>, idx: seq<nat>, shift: int, packets: seq<H.Packet>)
    requires ArePackets(plays, idx, shift, packets) && Ascends(idx)
    ensures SentAs(plays, idx, shift)
  {
    forall i | 0 <= i < |idx| ensures plays[i].number == idx[i] + shift && plays[i].packet.Some? {
      assert IsPacket(plays[i], idx[i], shift, packets[idx[i]]);
    }
  }

  /** Whatever has been played is, number by number, what is due: the packet of every number with audio, and a
      stand-in for every number of a digit. */
  lemma NumbersArePlayed(x: Sending, r: R.Receiver, arrivals: seq<Arrival>, j: nat)
    requires Setting(x, r, arrivals) && j <= |arrivals|
    ensures RR.Valid(r) && SentCount(arrivals[..j]) <= |x.tags|
    ensures AreHeard(x, Due(x, r.jitter.config, arrivals[..j]), HandedOut(r, x.datagrams, x.from, arrivals[..j]))
  {
    SettingIsValid(x, r, arrivals);
    PlaysOn(x, r, arrivals, j);
    FramesLineUp(x, r, arrivals, j);
    HeardArePlays(r, x.datagrams, x.from, arrivals, j);
    hide Setting, RR.Valid, AudioOf, Shift, JO.Line, Lineup, Frames, SentCount, J.Discontinuity, HandedOut, Plays, Now, Due,
         JO.Holds, IsPlay, PlayIs, ArePackets, Agree, HandedOutBy, PlaysBy, J.ShouldStart;
    NowKeepsJitterConfig(x, r, arrivals, j);
    var frames, d := Frames(x, arrivals[..j]), J.Discontinuity(r.jitter.config);
    var heard, plays, due := HandedOut(r, x.datagrams, x.from, arrivals[..j]), Plays(r, x.datagrams, x.from, arrivals[..j]),
                             Due(x, r.jitter.config, arrivals[..j]);
    forall i | 0 <= i < |heard| ensures IsHeard(x, due[i], heard[i]) {
      assert plays[i] == JO.Line(frames, d)[i] && due[i] in due;
      HeardIs(x, frames, SentCount(arrivals[..j]), plays[i], due[i], heard[i]);
    }
  }

  lemma NowKeepsJitterConfig(x: Sending, r: R.Receiver, arrivals: seq<Arrival>, j: nat)
    requires RR.Valid(r) && j <= |arrivals|
    ensures Now(x, r, arrivals, j).jitter.config == r.jitter.config
  {
    hide Now;
    JitterConfigIs(r);
    JitterConfigIs(Now(x, r, arrivals, j));
  }

  // ----- When a tick plays

  /** When the first frame came. */
  function FirstFrame(tags: seq<Option<nat>>, arrivals: seq<Arrival>): Option<int> {
    if arrivals == [] then None
    else
      var j := |arrivals| - 1;
      var earlier, a := FirstFrame(tags, arrivals[..j]), arrivals[j];
      if earlier.None? && a.Sent? && AudioAt(tags, a.n) then Some(a.now) else earlier
  }

  /** No frame has come, or the first came less than the configured delay before. */
  predicate TooEarly(first: Option<int>, mode: J.Mode, now: int) {
    match first
    case None => true
    case Some(t) =>
      var delay: int := match mode case Fixed(delayMs) => delayMs case Adaptive(targetMs, _, _) => targetMs;
      0 < delay && now - t < delay * 1_000_000
  }

  /** The jitter buffer is still waiting, and knows since when and how long. */
  ghost predicate StillWaits(b: J.Buffer, first: Option<int>) {
    b.playoutSeq.None? && b.baseTime == first && b.delayMs == JW.Configured(b.config)
  }

  lemma StepWaits(packets: seq<H.Packet>, tags: seq<Option<nat>>, shift: int, r: R.Receiver, a: Arrival, first: Option<int>)
    requires RR.Valid(r) && StillWaits(r.jitter, first) && PlaysBy(r, a) == [] && (a.Sent? ==> a.n < |packets|)
    ensures J.ValidMode(r.jitter.config.mode)
    ensures var seen := OnJitter(packets, tags, shift, a);
            StillWaits(if seen.Some? then JR.Step(r.jitter, JR.EventOf(seen.value)) else r.jitter,
                       if first.None? && a.Sent? && AudioAt(tags, a.n) then Some(a.now) else first)
  {
    RR.NothingSeen(r, []);
    hide J.Least, J.Adapted, J.ShouldStart, J.NextCycles, J.Extended, NumberOf, J.Capacity;
  }

  /** Until something has been played. */
  lemma {:induction false} WaitsUntilPlayed(x: Sending, r: R.Receiver, arrivals: seq<Arrival>, j: nat)
    requires Setting(x, r, arrivals) && j <= |arrivals| && Plays(r, x.datagrams, x.from, arrivals[..j]) == []
    ensures RR.Valid(r) && StillWaits(Now(x, r, arrivals, j).jitter, FirstFrame(x.tags, arrivals[..j]))
  {
    SettingIsValid(x, r, arrivals);
    hide Setting, RR.Valid, Now, Plays, StillWaits, FirstFrame;
    if j == 0 {
      WaitsAtFirst(x, r, arrivals);
    } else {
      OneMoreHeard(x, r, arrivals, j - 1);
      WaitsUntilPlayed(x, r, arrivals, j - 1);
      WaitsOneMore(x, r, arrivals, j - 1);
    }
  }

  lemma WaitsOneMore(x: Sending, r: R.Receiver, arrivals: seq<Arrival>, j: nat)
    requires Setting(x, r, arrivals) && RR.Valid(r) && j < |arrivals|
    requires StillWaits(Now(x, r, arrivals, j).jitter, FirstFrame(x.tags, arrivals[..j]))
    requires PlaysBy(Now(x, r, arrivals, j), arrivals[j]) == []
    ensures StillWaits(Now(x, r, arrivals, j + 1).jitter, FirstFrame(x.tags, arrivals[..j + 1]))
  {
    hide Setting, RR.Valid, RR.Step, Now, PlaysBy, OnJitter, Shift, Playing, StillWaits, FirstFrame, CarriesAt, RoomAt,
         Recovers, Hearing, SentCount;
    PlaysOn(x, r, arrivals, j);
    JitterStepAt(x, r, arrivals, j);
    SettingTells(x, r, arrivals, j);
    StepWaits(x.packets, x.tags, Shift(x.s, x.tags), Now(x, r, arrivals, j), arrivals[j], FirstFrame(x.tags, arrivals[..j]));
    FirstFrameNext(x.tags, arrivals, j);
  }

  lemma WaitsAtFirst(x: Sending, r: R.Receiver, arrivals: seq<Arrival>)
    requires Setting(x, r, arrivals) && RR.Valid(r)
    ensures StillWaits(Now(x, r, arrivals, 0).jitter, FirstFrame(x.tags, arrivals[..0]))
  {
    hide RR.Valid, AllCarried, AllRecovered, FindsRoom, AllFit, CloseFrames, NumberedFrom, Agree;
    assert arrivals[..0] == [];
  }

  lemma FirstFrameNext(tags: seq<Option<nat>>, arrivals: seq<Arrival>, j: nat)
    requires j < |arrivals|
    ensures var earlier, a := FirstFrame(tags, arrivals[..j]), arrivals[j];
            FirstFrame(tags, arrivals[..j + 1])
            == if earlier.None? && a.Sent? && AudioAt(tags, a.n) then Some(a.now) else earlier
  {
    assert arrivals[..j + 1][..j] == arrivals[..j];
  }

  lemma PlaysNothingIff(now: R.Receiver, frames: seq<JR.Play>, p: nat, a: Arrival)
    requires RR.Valid(now) && JO.Holds(now.jitter, frames, p) && a.Tick?
    ensures HandedOutBy(now, a) == [] <==>
              || p == |JO.Line(frames, J.Discontinuity(now.jitter.config))|
              || (now.jitter.playoutSeq.None? && !J.ShouldStart(now.jitter, a.now))
  {
    RR.NothingSeen(now, []);
    hide RR.Valid, JO.Holds, JO.Line, J.Discontinuity, J.ShouldStart, J.Least, J.Adapted;
    JO.PopHolds(now.jitter, frames, p, a.now, a.wanted);
  }

  /** With nothing played, the wait in event times. */
  lemma WaitIs(b: J.Buffer, frames: seq<JR.Play>, p: nat, first: Option<int>, now: int)
    requires JO.Holds(b, frames, p) && StillWaits(b, first)
    ensures p == 0
    ensures !J.ShouldStart(b, now) ==> frames == [] || TooEarly(first, b.config.mode, now)
    ensures TooEarly(first, b.config.mode, now) ==> !J.ShouldStart(b, now)
  {
    hide JO.Line, JR.Drain, J.Least, J.Discontinuity;
  }

  lemma PlayedIsPlaying(b: J.Buffer, frames: seq<JR.Play>, p: nat)
    requires JO.Holds(b, frames, p) && p > 0
    ensures b.playoutSeq.Some?
  {
  }

  lemma NoFramesNoLine(d: nat)
    ensures JO.Line([], d) == []
  {
  }

  /** A tick plays nothing exactly when nothing is left, or when nothing has been played yet and it comes less than
      the configured delay after the first frame. */
  lemma TickPlaysNothingIff(x: Sending, r: R.Receiver, arrivals: seq<Arrival>, j: nat)
    requires Setting(x, r, arrivals) && j < |arrivals| && arrivals[j].Tick?
    ensures RR.Valid(r) && SentCount(arrivals[..j]) <= |x.tags|
    ensures var heard := HandedOut(r, x.datagrams, x.from, arrivals[..j]);
            HandedOutBy(Now(x, r, arrivals, j), arrivals[j]) == [] <==>
              || |heard| == |Due(x, r.jitter.config, arrivals[..j])|
              || (heard == [] && TooEarly(FirstFrame(x.tags, arrivals[..j]), r.jitter.config.mode, arrivals[j].now))
  {
    SettingIsValid(x, r, arrivals);
    PlaysOn(x, r, arrivals, j);
    FramesLineUp(x, r, arrivals, j);
    HeardArePlays(r, x.datagrams, x.from, arrivals, j);
    hide Setting, RR.Valid, AudioOf, Shift, JO.Line, Lineup, Frames, SentCount, J.Discontinuity, HandedOut, Plays, Now, Due,
         JO.Holds, IsPlay, PlayIs, ArePackets, Agree, HandedOutBy, J.ShouldStart, StillWaits, TooEarly, FirstFrame;
    NowKeepsJitterConfig(x, r, arrivals, j);
    var now, frames, p := Now(x, r, arrivals, j), Frames(x, arrivals[..j]), |Plays(r, x.datagrams, x.from, arrivals[..j])|;
    PlaysNothingIff(now, frames, p, arrivals[j]);
    NoFramesNoLine(J.Discontinuity(r.jitter.config));
    if p == 0 {
      WaitsUntilPlayed(x, r, arrivals, j);
      WaitIs(now.jitter, frames, p, FirstFrame(x.tags, arrivals[..j]), arrivals[j].now);
      StillWaiting(now.jitter, FirstFrame(x.tags, arrivals[..j]));
    } else {
      PlayedIsPlaying(now.jitter, frames, p);
    }
  }

  lemma StillWaiting(b: J.Buffer, first: Option<int>)
    requires StillWaits(b, first)
    ensures b.playoutSeq.None?
  {
  }

  // ----- Stand-ins count as lost

  function StandIns(heard: seq<J.BufferedPacket>): nat {
    if heard == [] then 0
    else StandIns(heard[..|heard| - 1]) + if heard[|heard| - 1].synthesized then 1 else 0
  }

  lemma OneMoreStandIn(heard: seq<J.BufferedPacket>, more: seq<J.BufferedPacket>)
    requires |more| <= 1
    ensures StandIns(heard + more) == StandIns(heard) + StandIns(more)
  {
    if more == [] {
      assert heard + more == heard;
    } else {
      assert (heard + more)[..|heard|] == heard && more[..0] == [];
    }
  }

  lemma StepLoses(packets: seq<H.Packet>, tags: seq<Option<nat>>, shift: int, r: R.Receiver, a: Arrival)
    requires RR.Valid(r)
    ensures J.ValidMode(r.jitter.config.mode) && |HandedOutBy(r, a)| <= 1
    ensures var seen := OnJitter(packets, tags, shift, a);
            var after := if seen.Some? then JR.Step(r.jitter, JR.EventOf(seen.value)) else r.jitter;
            after.stats.lost == r.jitter.stats.lost + StandIns(HandedOutBy(r, a))
  {
    RR.NothingSeen(r, []);
    hide J.Least, J.Adapted, J.ShouldStart, J.NextCycles, J.Extended, NumberOf, J.Target;
  }

  /** What the jitter buffer counts as lost is the stand-ins it handed out, though the network lost nothing. */
  lemma {:induction false} LostAreStandIns(x: Sending, r: R.Receiver, arrivals: seq<Arrival>, j: nat)
    requires Setting(x, r, arrivals) && j <= |arrivals|
    ensures RR.Valid(r)
    ensures Now(x, r, arrivals, j).jitter.stats.lost == StandIns(HandedOut(r, x.datagrams, x.from, arrivals[..j]))
  {
    SettingIsValid(x, r, arrivals);
    hide Setting, RR.Valid, Now, HandedOut, StandIns;
    if j == 0 {
      NothingLost(x, r, arrivals);
    } else {
      LostAreStandIns(x, r, arrivals, j - 1);
      LosesOneMore(x, r, arrivals, j - 1);
    }
  }

  lemma LosesOneMore(x: Sending, r: R.Receiver, arrivals: seq<Arrival>, j: nat)
    requires Setting(x, r, arrivals) && RR.Valid(r) && j < |arrivals|
    requires Now(x, r, arrivals, j).jitter.stats.lost == StandIns(HandedOut(r, x.datagrams, x.from, arrivals[..j]))
    ensures Now(x, r, arrivals, j + 1).jitter.stats.lost == StandIns(HandedOut(r, x.datagrams, x.from, arrivals[..j + 1]))
  {
    hide Setting, RR.Valid, RR.Step, Now, HandedOut, HandedOutBy, StandIns, OnJitter, Shift, AsEvent, Playing;
    PlaysOn(x, r, arrivals, j);
    JitterStepAt(x, r, arrivals, j);
    var before, a := Now(x, r, arrivals, j), arrivals[j];
    StepLoses(x.packets, x.tags, Shift(x.s, x.tags), before, a);
    HeardOneMore(x, r, arrivals, j);
    OneMoreStandIn(HandedOut(r, x.datagrams, x.from, arrivals[..j]), HandedOutBy(before, a));
  }

  lemma NothingLost(x: Sending, r: R.Receiver, arrivals: seq<Arrival>)
    requires Setting(x, r, arrivals) && RR.Valid(r)
    ensures Now(x, r, arrivals, 0).jitter.stats.lost == 0 == StandIns(HandedOut(r, x.datagrams, x.from, arrivals[..0]))
  {
    hide RR.Valid, AllCarried, AllRecovered, FindsRoom, AllFit, CloseFrames, NumberedFrom, Agree;
    assert arrivals[..0] == [];
  }

  lemma HeardOneMore(x: Sending, r: R.Receiver, arrivals: seq<Arrival>, j: nat)
    requires RR.Valid(r) && j < |arrivals|
    ensures HandedOut(r, x.datagrams, x.from, arrivals[..j + 1])
         == HandedOut(r, x.datagrams, x.from, arrivals[..j]) + HandedOutBy(Now(x, r, arrivals, j), arrivals[j])
  {
    hide RR.Valid, HandedOutBy;
    assert arrivals[..j + 1][..j] == arrivals[..j];
  }

  // ----- A sender's run

  function SendingOf(s: Sender, calls: seq<Call>, from: Address): Sending
    requires Valid(s)
  {
    Sending(s, Presses(s, calls), Packets(s, calls), Tags(s, calls), Datagrams(s, calls), from)
  }

  /** Audio finds room in the jitter buffer, and numbers enough: no two frames with 2^15 - 1 packets of digits or
      more between them, and no more packets in all than 32 bits can number. */
  ghost predicate WithinBounds(s: Sender, calls: seq<Call>, r: R.Receiver, from: Address, arrivals: seq<Arrival>)
    requires Valid(s) && RR.Valid(r)
  {
    && FindsRoom(r, Datagrams(s, calls), from, Tags(s, calls), arrivals)
    && CloseFrames(AudioOf(Tags(s, calls))) && s.sequence + |Packets(s, calls)| < TWO32 - 1
  }

  /** Every datagram that comes is recovered, and they come in sequence, to a new jitter buffer. */
  ghost predicate Brings(s: Sender, calls: seq<Call>, r: R.Receiver, from: Address, arrivals: seq<Arrival>)
    requires Valid(s) && RR.Valid(r)
  {
    && Agree(s, r, from) && SameSource(s, r) && r.jitter == J.New(r.jitter.config) && |Packets(s, calls)| == |Datagrams(s, calls)|
    && AllCarried(Packets(s, calls), r, Datagrams(s, calls), from, arrivals)
    && AllRecovered(r, Datagrams(s, calls), from, arrivals) && InSequence(arrivals)
  }

  lemma BringsASetting(s: Sender, calls: seq<Call>, r: R.Receiver, from: Address, arrivals: seq<Arrival>)
    requires FreshSender(s) && RR.Valid(r) && Brings(s, calls, r, from, arrivals) && WithinBounds(s, calls, r, from, arrivals)
    ensures Setting(SendingOf(s, calls, from), r, arrivals)
  {
    hide Presses, Packets, Tags, Datagrams, Agree, AllCarried, AllRecovered, RR.Valid, StreamSender.Valid, FreshSender,
         InOrder, AllFit, SameSsrc, InSequence, FindsRoom, CloseFrames, AudioOf, NumberedFrom, After, J.New;
    ValidIfFresh(s);
    RunFits(s, calls);
    assert calls[..|calls|] == calls;
    Numbering(s, calls, |calls|);
  }

  /** What is handed out for a number: the frame of the call that sent it, as encoded and at its time, if it
      carried audio; and a stand-in if it was of a digit. */
  ghost predicate IsFrameOrStandIn(s: Sender, calls: seq<Call>, k: nat, packet: J.BufferedPacket)
    requires Valid(s)
  {
    && k < |Tags(s, calls)| == |Origins(s, calls)| && packet.sequence == Seq(s.sequence + k)
    && if Tags(s, calls)[k].None?
       then
         var call := Origins(s, calls)[k];
         && call < |calls| && calls[call].Send? && packet.payload == calls[call].encoded
         && packet.timestamp == Clock(s, Sends(calls[..call])) % TWO32 && !packet.synthesized
       else packet.synthesized && packet.payload == []
  }

  /** What the ticks have played so far: number by number what is due, each once and in order; the stand-ins
      counted as lost; and a tick plays nothing exactly when nothing is left, or when nothing has been played yet
      and it comes less than the configured delay after the first frame. */
  ghost predicate PlaysFrames(s: Sender, calls: seq<Call>, r: R.Receiver, from: Address, arrivals: seq<Arrival>, j: nat)
    requires Valid(s) && RR.Valid(r) && j <= |arrivals|
  {
    var datagrams, tags, c := Datagrams(s, calls), Tags(s, calls), SentCount(arrivals[..j]);
    var now, heard := Hearing(r, datagrams, from, arrivals[..j]), HandedOut(r, datagrams, from, arrivals[..j]);
    c <= |tags| &&
    var due := Lineup(AudioOf(tags[..c]), J.Discontinuity(r.jitter.config));
    && |heard| <= |due| && (forall i :: 0 <= i < |heard| ==> IsFrameOrStandIn(s, calls, due[i], heard[i]))
    && now.jitter.stats.lost == StandIns(heard)
    && (j < |arrivals| && arrivals[j].Tick? ==>
          (HandedOutBy(now, arrivals[j]) == [] <==>
             || |heard| == |due|
             || (heard == [] && TooEarly(FirstFrame(tags, arrivals[..j]), r.jitter.config.mode, arrivals[j].now))))
  }

  lemma HeardIsFrame(s: Sender, calls: seq<Call>, from: Address, k: nat, packet: J.BufferedPacket)
    requires Valid(s) && IsHeard(SendingOf(s, calls, from), k, packet)
    requires |Tags(s, calls)| == |Origins(s, calls)| == |Packets(s, calls)|
    requires Tags(s, calls)[k].None? ==> IsFrame(s, calls, Origins(s, calls)[k], Packets(s, calls)[k])
    ensures IsFrameOrStandIn(s, calls, k, packet)
  {
    hide Presses, Packets, Tags, Datagrams, StreamSender.Valid, Origins, Clock, Seq, Sends, After;
  }

  lemma AudioIsFrame(s: Sender, calls: seq<Call>, k: nat)
    requires FreshSender(s) && k < |Packets(s, calls)|
    ensures Valid(s) && |Tags(s, calls)| == |Origins(s, calls)| == |Packets(s, calls)|
    ensures Tags(s, calls)[k].None? ==> IsFrame(s, calls, Origins(s, calls)[k], Packets(s, calls)[k])
  {
    hide Presses, Packets, Tags, StreamSender.Valid, FreshSender, Origins, After, IsFrame, Plain;
    ValidIfFresh(s);
    RunFits(s, calls);
    assert calls[..|calls|] == calls;
    FramesGoOut(s, calls, |calls|);
    assert Fits(s, Presses(s, calls), Packets(s, calls)[k], Tags(s, calls)[k]);
  }

  lemma HeardIsPacket(x: Sending, k: nat, packet: J.BufferedPacket)
    requires IsHeard(x, k, packet)
    ensures k < |x.packets|
  {
  }

  /** Audio in order, for any mix of frames and digits, any strays and ticks between them and any delays of the
      decoder's. */
  lemma FramesArePlayed(s: Sender, calls: seq<Call>, r: R.Receiver, from: Address, arrivals: seq<Arrival>, j: nat)
    requires FreshSender(s) && RR.Valid(r) && Brings(s, calls, r, from, arrivals) && WithinBounds(s, calls, r, from, arrivals)
    requires j <= |arrivals|
    ensures PlaysFrames(s, calls, r, from, arrivals, j)
  {
    hide Presses, Packets, Tags, Datagrams, StreamSender.Valid, FreshSender, Brings, WithinBounds, RR.Valid, Setting, Lineup,
         AudioOf, HandedOut, HandedOutBy, Hearing, IsHeard, IsFrameOrStandIn, SentCount, J.Discontinuity, TooEarly,
         FirstFrame, StandIns;
    ValidIfFresh(s);
    var x := SendingOf(s, calls, from);
    BringsASetting(s, calls, r, from, arrivals);
    NumbersArePlayed(x, r, arrivals, j);
    LostAreStandIns(x, r, arrivals, j);
    if j < |arrivals| && arrivals[j].Tick? { TickPlaysNothingIff(x, r, arrivals, j); }
    var heard, due := HandedOut(r, x.datagrams, from, arrivals[..j]), Due(x, r.jitter.config, arrivals[..j]);
    forall i | 0 <= i < |heard| ensures IsFrameOrStandIn(s, calls, due[i], heard[i]) {
      HeardIsPacket(x, due[i], heard[i]);
      AudioIsFrame(s, calls, due[i]);
      HeardIsFrame(s, calls, from, due[i], heard[i]);
    }
  }

  /** Over plain RTP. */
  lemma PlainAudioInOrder(s: Sender, calls: seq<Call>, r: R.Receiver, from: Address, arrivals: seq<Arrival>, j: nat)
    requires PlainEnds(s, r, from) && SameSource(s, r) && r.jitter == J.New(r.jitter.config)
    requires Comes(r, Datagrams(s, calls), from, arrivals) && InSequence(arrivals)
    requires WithinBounds(s, calls, r, from, arrivals) && j <= |arrivals|
    ensures PlaysFrames(s, calls, r, from, arrivals, j)
  {
    hide Packets, Tags, Datagrams, Agree, AllCarried, AllRecovered, RR.Valid, FreshSender, Comes, StreamSender.Valid,
         InSequence, WithinBounds, PlaysFrames, J.New;
    ValidIfFresh(s);
    PlainNetwork(s, calls, r, from, arrivals);
    FramesArePlayed(s, calls, r, from, arrivals, j);
  }

  /** Over SRTP, keyed alike at both ends. */
  lemma SrtpAudioInOrder(s: Sender, calls: seq<Call>, keys: S.Keys, r: R.Receiver, rx: seq<T.Source<S.RecvState>>,
                         from: Address, arrivals: seq<Arrival>, j: nat)
    requires SrtpEnds(s, calls, keys, r, rx, from) && T.HasRoom(rx, s.ssrc)
    requires SameSource(s, r) && r.jitter == J.New(r.jitter.config)
    requires Comes(r, Datagrams(s, calls), from, arrivals) && InSequence(arrivals)
    requires WithinBounds(s, calls, r, from, arrivals) && j <= |arrivals|
    ensures PlaysFrames(s, calls, r, from, arrivals, j)
  {
    hide Packets, Tags, Datagrams, Agree, AllCarried, AllRecovered, RR.Valid, FreshSender, Comes, StreamSender.Valid,
         InSequence, WithinBounds, PlaysFrames, J.New, T.Lookup, T.HasRoom, SrtpTimely;
    ValidIfFresh(s);
    SrtpSequence(s, calls, keys, r, rx, from, arrivals);
    SrtpNetwork(s, calls, keys, r, rx, from, arrivals);
    FramesArePlayed(s, calls, r, from, arrivals, j);
  }

  // ----- When only frames are played

  /** None of the packets handed out is a stand-in exactly when they are the first so many frames; and that is
      when, between no two of those, there is a digit of no more packets than a full buffer. */
  lemma OnlyFramesIff(s: Sender, calls: seq<Call>, r: R.Receiver, from: Address, arrivals: seq<Arrival>, j: nat)
    requires Valid(s) && RR.Valid(r) && j <= |arrivals| && PlaysFrames(s, calls, r, from, arrivals, j)
    ensures var heard := HandedOut(r, Datagrams(s, calls), from, arrivals[..j]);
            var idx, d := AudioOf(Tags(s, calls)[..SentCount(arrivals[..j])]), J.Discontinuity(r.jitter.config);
            && ((forall i :: 0 <= i < |heard| ==> !heard[i].synthesized) <==>
                  |heard| <= |idx| && forall i :: 0 <= i < |heard| ==> Silent(idx, d, i))
            && ((forall i :: 0 <= i < |heard| ==> !heard[i].synthesized) ==>
                  forall i :: 0 <= i < |heard| ==> IsFrameOrStandIn(s, calls, idx[i], heard[i]))
  {
    hide Packets, Tags, Datagrams, StreamSender.Valid, RR.Valid, Lineup, AudioOf, HandedOut, HandedOutBy, Hearing, SentCount,
         J.Discontinuity, TooEarly, FirstFrame, StandIns, Silent, Clock, Seq, Origins;
    var heard, tags := HandedOut(r, Datagrams(s, calls), from, arrivals[..j]), Tags(s, calls)[..SentCount(arrivals[..j])];
    var idx, d := AudioOf(tags), J.Discontinuity(r.jitter.config);
    NoStandInsIff(tags, d, |heard|);
    var due := Lineup(idx, d);
    assert tags[..|tags|] == tags;
    AudioIsAscending(tags, |tags|);
    DueIsBelow(tags, d);
    forall i | 0 <= i < |heard| ensures AudioAt(tags, due[i]) <==> !heard[i].synthesized {
      assert IsFrameOrStandIn(s, calls, due[i], heard[i]) && due[i] in due;
    }
    if forall i :: 0 <= i < |heard| ==> !heard[i].synthesized {
      forall i | 0 <= i < |heard| ensures IsFrameOrStandIn(s, calls, idx[i], heard[i]) {
        assert due[..|heard|][i] == idx[..|heard|][i];
      }
    }
  }

  lemma DueIsBelow(tags: seq<Option<nat>>, d: nat)
    ensures forall k :: k in Lineup(AudioOf(tags), d) ==> k < |tags|
  {
    hide Lineup, AudioOf;
    var idx := AudioOf(tags);
    assert tags[..|tags|] == tags && idx[..|idx|] == idx;
    AudioIsAscending(tags, |tags|);
    LineupAscends(idx, d, |idx|);
  }
}
