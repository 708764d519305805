/** Digits: what a run of the sender presses, packet by packet, and what a receiver that hears those
    packets in any order heeds of them. */
module StreamDtmf {
  import opened Bytes
  import opened StreamConfig
  import opened StreamSender
  import opened StreamSenderRuns
  import opened StreamDtmfClock
  import R = StreamReceiver
  import H = RtpHeader

  // ----- The presses of a sender's run

  /** A digit's event: its code, and the call that started it. */
  datatype PressEvent = PressEvent(code: byte, call: nat)

  function StartsIn(s: Sender, c: Call, call: nat): seq<PressEvent> {
    if c.Send? && s.dtmfSending.None? && s.dtmf != [] then [PressEvent(s.dtmf[0], call)] else []
  }

  function Presses(s: Sender, calls: seq<Call>): seq<PressEvent>
    requires Valid(s)
  {
    if calls == [] then []
    else
      var n := |calls| - 1;
      Presses(s, calls[..n]) + StartsIn(After(s, calls[..n]), calls[n], Sends(calls[..n]))
  }

  /** The codes of the digits queued, in order; those that are none are refused. */
  function QueuedIn(config: Config, c: Call): seq<byte> {
    if c.Queue? && DtmfEventCode(c.digit).Some? && config.dtmfPayloadType.Some?
    then [DtmfEventCode(c.digit).value] else []
  }

  function QueuedCodes(config: Config, calls: seq<Call>): seq<byte> {
    if calls == [] then []
    else QueuedCodes(config, calls[..|calls| - 1]) + QueuedIn(config, calls[|calls| - 1])
  }

  function Codes(presses: seq<PressEvent>): (codes: seq<byte>)
    ensures |codes| == |presses|
  {
    seq<byte>(|presses|, i requires 0 <= i < |presses| => presses[i].code)
  }

  lemma CodesSum(a: seq<PressEvent>, b: seq<PressEvent>)
    ensures Codes(a + b) == Codes(a) + Codes(b)
  {
  }

  /** A call takes from the front of the queue what it starts, and adds at the back what it queues. */
  lemma StepQueues(s: Sender, c: Call, call: nat)
    requires Valid(s)
    ensures Codes(StartsIn(s, c, call)) + Step(s, c).dtmf == s.dtmf + QueuedIn(s.config, c)
  {
    hide PacketsOf, ProtectedAll, DtmfTimestamp, StreamSender.Valid, DtmfEventCode;
    if StartsIn(s, c, call) == [] {
      assert Codes([]) + Step(s, c).dtmf == Step(s, c).dtmf;
    } else {
      assert s.dtmf == [s.dtmf[0]] + s.dtmf[1..];
      assert s.dtmf + QueuedIn(s.config, c) == s.dtmf;
    }
  }

  /** Every digit queued is pressed in turn or still waiting; none is lost or made up. */
  lemma {:induction false} QueuedArePressed(s: Sender, calls: seq<Call>, n: nat)
    requires Valid(s) && s.dtmf == [] && n <= |calls|
    ensures Codes(Presses(s, calls[..n])) + After(s, calls[..n]).dtmf == QueuedCodes(s.config, calls[..n])
  {
    hide Step, StartsIn, QueuedIn, Codes, StreamSender.Valid;
    if n > 0 {
      assert calls[..n][..n - 1] == calls[..n - 1];
      QueuedArePressed(s, calls, n - 1);
      var before, c, presses := After(s, calls[..n - 1]), calls[n - 1], Presses(s, calls[..n - 1]);
      var starts := StartsIn(before, c, Sends(calls[..n - 1]));
      StepQueues(before, c, Sends(calls[..n - 1]));
      CodesSum(presses, starts);
      assert (Codes(presses) + Codes(starts)) + Step(before, c).dtmf
          == Codes(presses) + (Codes(starts) + Step(before, c).dtmf);
      assert Codes(presses) + (before.dtmf + QueuedIn(s.config, c))
          == (Codes(presses) + before.dtmf) + QueuedIn(s.config, c);
    } else {
      assert calls[..0] == [];
    }
  }

  // ----- Which packet is of which press

  /** The press each packet of a call belongs to, `None` for audio; `count` presses started so far,
      this call's included. */
  function TagOf(s: Sender, count: nat): Option<nat> {
    if WithNextDigit(s).dtmfSending.None? || count == 0 then None else Some(count - 1)
  }

  function TagsIn(s: Sender, c: Call, count: nat): seq<Option<nat>>
    requires Valid(s)
  {
    seq(|PacketsIn(s, c)|, i => TagOf(s, count))
  }

  function Tags(s: Sender, calls: seq<Call>): seq<Option<nat>>
    requires Valid(s)
  {
    if calls == [] then []
    else
      var n := |calls| - 1;
      Tags(s, calls[..n]) + TagsIn(After(s, calls[..n]), calls[n], |Presses(s, calls)|)
  }

  /** The event timestamp of a press, as it goes out. */
  function Stamp(s: Sender, press: PressEvent): u32 {
    DtmfTimestamp(s.config, Clock(s, press.call) % TWO32)
  }

  /** A packet is what its tag says: audio, or of a press, with its timestamp and code. */
  ghost predicate Fits(s: Sender, presses: seq<PressEvent>, p: H.Packet, tag: Option<nat>) {
    && Plain(p.header)
    && match tag
       case None => p.header.payloadType == s.config.payloadType
       case Some(m) =>
         && m < |presses|
         && Some(p.header.payloadType) == s.config.dtmfPayloadType
         && p.header.timestamp == Stamp(s, presses[m])
         && |p.payload| == 4 && p.payload[0] == presses[m].code
  }

  ghost predicate AllFit(s: Sender, presses: seq<PressEvent>, packets: seq<H.Packet>, tags: seq<Option<nat>>) {
    |tags| == |packets| && forall i :: 0 <= i < |packets| ==> Fits(s, presses, packets[i], tags[i])
  }

  /** The digit under way is the last press. */
  ghost predicate UnderWay(s: Sender, now: Sender, presses: seq<PressEvent>) {
    now.dtmfSending.Some? ==>
      && presses != []
      && now.dtmfSending.value.event == presses[|presses| - 1].code
      && now.dtmfSending.value.timestamp == Stamp(s, presses[|presses| - 1])
  }

  /** Taking the next digit starts a press; any other call starts none. */
  lemma TakingStarts(s: Sender, now: Sender, c: Call, presses: seq<PressEvent>, call: nat)
    requires now.config == s.config && c.Send?
    requires now.timestamp == Clock(s, call) % TWO32 && UnderWay(s, now, presses)
    ensures UnderWay(s, WithNextDigit(now), presses + StartsIn(now, c, call))
  {
    hide Clock, DtmfTimestamp;
    if StartsIn(now, c, call) == [] { assert presses + [] == presses; }
  }

  /** The packets of one call, and what is under way after it. */
  lemma CallFits(s: Sender, now: Sender, c: Call, presses: seq<PressEvent>, call: nat)
    requires Valid(s) && Valid(now) && now.config == s.config
    requires now.timestamp == Clock(s, call) % TWO32 && UnderWay(s, now, presses)
    ensures var all := presses + StartsIn(now, c, call);
            AllFit(s, all, PacketsIn(now, c), TagsIn(now, c, |all|)) && UnderWay(s, Step(now, c), all)
  {
    hide ProtectedAll, Duration, WithNextDigit, ValidConfig, Stamp, StartsIn;
    if c.Send? {
      PacketizedKeepsValid(now, c.encoded);
      TakingStarts(s, now, c, presses, call);
      TakingKeepsConfig(now);
    } else {
      StartsNothing(now, c, call);
      assert presses + [] == presses;
    }
  }

  lemma StartsNothing(s: Sender, c: Call, call: nat)
    requires c.Queue?
    ensures StartsIn(s, c, call) == []
  {
  }

  lemma TakingKeepsConfig(s: Sender)
    ensures WithNextDigit(s).config == s.config
  {
  }

  lemma FitsLonger(s: Sender, presses: seq<PressEvent>, more: seq<PressEvent>, packets: seq<H.Packet>, tags: seq<Option<nat>>)
    requires AllFit(s, presses, packets, tags)
    ensures AllFit(s, presses + more, packets, tags)
  {
    hide Stamp, Plain;
    forall i | 0 <= i < |packets| ensures Fits(s, presses + more, packets[i], tags[i]) {
      assert Fits(s, presses, packets[i], tags[i]);
    }
  }

  lemma {:induction false} TagsAreRight(s: Sender, calls: seq<Call>, n: nat)
    requires Valid(s) && s.dtmfSending.None? && n <= |calls|
    ensures AllFit(s, Presses(s, calls[..n]), Packets(s, calls[..n]), Tags(s, calls[..n]))
    ensures UnderWay(s, After(s, calls[..n]), Presses(s, calls[..n]))
  {
    hide Step, PacketsIn, TagsIn, StartsIn, Fits, UnderWay;
    if n > 0 {
      assert calls[..n][..n - 1] == calls[..n - 1];
      TagsAreRight(s, calls, n - 1);
      AudioClock(s, calls, n - 1);
      var now, c, presses := After(s, calls[..n - 1]), calls[n - 1], Presses(s, calls[..n - 1]);
      CallFits(s, now, c, presses, Sends(calls[..n - 1]));
      FitsLonger(s, presses, StartsIn(now, c, Sends(calls[..n - 1])), Packets(s, calls[..n - 1]), Tags(s, calls[..n - 1]));
    } else {
      assert calls[..0] == [];
      NothingUnderWay(s);
    }
  }

  lemma NothingUnderWay(s: Sender)
    requires s.dtmfSending.None?
    ensures UnderWay(s, s, [])
  {
  }

  /** Presses start at ever later calls, and are of digits. */
  ghost predicate InOrder(presses: seq<PressEvent>) {
    && (forall i :: 0 <= i < |presses| ==> presses[i].code <= 15)
    && forall i, j :: 0 <= i < j < |presses| ==> presses[i].call < presses[j].call
  }

  ghost predicate AllBefore(presses: seq<PressEvent>, call: nat) {
    forall i :: 0 <= i < |presses| ==> presses[i].call < call
  }

  ghost predicate CodesAreDigits(codes: seq<byte>) {
    forall i :: 0 <= i < |codes| ==> codes[i] <= 15
  }

  lemma StepKeepsDigits(s: Sender, c: Call)
    requires Valid(s) && CodesAreDigits(s.dtmf)
    ensures CodesAreDigits(Step(s, c).dtmf)
    ensures c.Send? && s.dtmf != [] ==> s.dtmf[0] <= 15
  {
    hide PacketsOf, ProtectedAll, DtmfTimestamp, StreamSender.Valid;
  }

  lemma {:induction false} PressesAscend(s: Sender, calls: seq<Call>, n: nat)
    requires Valid(s) && s.dtmf == [] && n <= |calls|
    ensures InOrder(Presses(s, calls[..n])) && AllBefore(Presses(s, calls[..n]), Sends(calls[..n]))
    ensures CodesAreDigits(After(s, calls[..n]).dtmf)
  {
    hide Step, StreamSender.Valid;
    if n > 0 {
      assert calls[..n][..n - 1] == calls[..n - 1];
      PressesAscend(s, calls, n - 1);
      StepKeepsDigits(After(s, calls[..n - 1]), calls[n - 1]);
    } else {
      assert calls[..0] == [];
    }
  }

  // ----- A run from the start

  /** A sender that has queued nothing yet and has no digit under way. The clocks are any. */
  ghost predicate FreshSender(s: Sender) {
    Valid(s) && s.dtmf == [] && s.dtmfSending.None?
  }

  lemma ValidIfFresh(s: Sender)
    requires FreshSender(s)
    ensures Valid(s)
  {
  }

  lemma RunFits(s: Sender, calls: seq<Call>)
    requires FreshSender(s)
    ensures InOrder(Presses(s, calls))
    ensures AllFit(s, Presses(s, calls), Packets(s, calls), Tags(s, calls)) && SameSsrc(Packets(s, calls), s.ssrc)
  {
    hide Presses, Packets, Tags, Fits;
    assert calls[..|calls|] == calls;
    PressesAscend(s, calls, |calls|);
    TagsAreRight(s, calls, |calls|);
    Numbering(s, calls, |calls|);
    var packets := Packets(s, calls);
    forall i | 0 <= i < |packets| ensures packets[i].header.ssrc == s.ssrc {}
  }

  lemma FitsIsPlain(s: Sender, presses: seq<PressEvent>, p: H.Packet, tag: Option<nat>)
    requires Fits(s, presses, p, tag)
    ensures Plain(p.header)
  {
  }

  ghost predicate SameSsrc(packets: seq<H.Packet>, ssrc: u32) {
    forall i :: 0 <= i < |packets| ==> packets[i].header.ssrc == ssrc
  }

  // ----- What is heeded

  function EventFor(press: PressEvent): R.DtmfEvent
    requires press.code <= 15
  {
    R.DtmfEvent(DtmfDigit(press.code).value, press.code)
  }

  /** Nothing has been reported yet, or this is newer than the last that was. */
  predicate Heeds(last: Option<u32>, stamp: u32) {
    last.None? || R.IsNewer(stamp, last.value)
  }

  ghost predicate AllBelow(ms: seq<nat>, n: nat) {
    forall i :: 0 <= i < |ms| ==> ms[i] < n
  }

  function LastStamp(s: Sender, presses: seq<PressEvent>, picks: seq<nat>): Option<u32> {
    if picks == [] || picks[|picks| - 1] >= |presses| then None else Some(Stamp(s, presses[picks[|picks| - 1]]))
  }

  /** Of these packets, one after the other, the presses that are heeded: each that is newer than the
      one heeded before it. */
  ghost function Heeded(s: Sender, presses: seq<PressEvent>, ms: seq<nat>): (picks: seq<nat>)
    requires AllBelow(ms, |presses|)
    ensures AllBelow(picks, |presses|)
  {
    if ms == [] then []
    else
      var n := |ms| - 1;
      var before := Heeded(s, presses, ms[..n]);
      if Heeds(LastStamp(s, presses, before), Stamp(s, presses[ms[n]])) then before + [ms[n]] else before
  }

  ghost function EventsAt(presses: seq<PressEvent>, picks: seq<nat>): (events: seq<R.DtmfEvent>)
    requires InOrder(presses) && AllBelow(picks, |presses|)
    ensures |events| == |picks|
  {
    seq<R.DtmfEvent>(|picks|, i requires 0 <= i < |picks| => EventFor(presses[picks[i]]))
  }

  lemma OneMoreHeeded(s: Sender, presses: seq<PressEvent>, ms: seq<nat>, m: nat)
    requires InOrder(presses) && AllBelow(ms, |presses|) && m < |presses|
    ensures AllBelow(ms + [m], |presses|)
    ensures var before, after := Heeded(s, presses, ms), Heeded(s, presses, ms + [m]);
            && after == (if Heeds(LastStamp(s, presses, before), Stamp(s, presses[m])) then before + [m] else before)
            && EventsAt(presses, before + [m]) == EventsAt(presses, before) + [EventFor(presses[m])]
  {
    hide Stamp, Heeds, EventFor;
    assert (ms + [m])[..|ms|] == ms;
  }

  lemma NothingHeeded(s: Sender, presses: seq<PressEvent>)
    requires InOrder(presses)
    ensures AllBelow([], |presses|) && Heeded(s, presses, []) == [] && EventsAt(presses, []) == []
  {
  }

  // ----- When everything is heeded

  /** How many presses have had a packet, each before any of a later press. */
  function Reach(ms: seq<nat>): nat {
    if ms == [] then 0
    else
      var k := Reach(ms[..|ms| - 1]);
      if ms[|ms| - 1] == k then k + 1 else k
  }

  /** The receiver can tell which of two presses is the later, by the clocks alone. */
  predicate Tell(s: Sender, first: PressEvent, later: PressEvent) {
    var x, y := Clock(s, first.call), Clock(s, later.call);
    x < y && ClockTells(s.config, x, y)
  }

  /** After `k` presses a packet may come of the last of them; of the next, or of an earlier one, if
      the clocks tell it from the last. */
  predicate InTurnAt(s: Sender, presses: seq<PressEvent>, k: nat, m: nat) {
    && m <= k && m < |presses| && k <= |presses|
    && (k > 0 && m == k ==> Tell(s, presses[k - 1], presses[m]))
    && (m + 1 < k ==> Tell(s, presses[m], presses[k - 1]))
  }

  ghost predicate InTurn(s: Sender, presses: seq<PressEvent>, ms: seq<nat>) {
    forall i :: 0 <= i < |ms| ==> InTurnAt(s, presses, Reach(ms[..i]), ms[i])
  }

  function UpTo(k: nat): (ms: seq<nat>)
    ensures |ms| == k
  {
    seq(k, i => i)
  }

  lemma TellIff(s: Sender, first: PressEvent, later: PressEvent)
    requires Clock(s, first.call) < Clock(s, later.call)
    ensures R.IsNewer(Stamp(s, later), Stamp(s, first)) <==> Tell(s, first, later)
    ensures Tell(s, first, later) ==> !R.IsNewer(Stamp(s, first), Stamp(s, later))
  {
    hide DtmfTimestamp, R.IsNewer, Clock;
    ClockTellsIff(s.config, Clock(s, first.call), Clock(s, later.call));
    NewerIsOneWay(Stamp(s, later), Stamp(s, first));
  }

  /** A packet in turn is heeded exactly when it is of the next press. */
  lemma HeedsInTurn(s: Sender, presses: seq<PressEvent>, k: nat, m: nat)
    requires InTurnAt(s, presses, k, m)
    ensures Heeds(LastStamp(s, presses, UpTo(k)), Stamp(s, presses[m])) <==> m == k
  {
    hide Stamp, R.IsNewer, Clock, ClockTells;
    if k > 0 {
      NewerIsOneWay(Stamp(s, presses[k - 1]), Stamp(s, presses[k - 1]));
      if m == k {
        TellIff(s, presses[k - 1], presses[m]);
      } else if m + 1 < k {
        TellIff(s, presses[m], presses[k - 1]);
      }
    }
  }

  lemma OneMoreInTurn(s: Sender, presses: seq<PressEvent>, before: seq<nat>, m: nat)
    requires InOrder(presses) && AllBelow(before, |presses|) && InTurnAt(s, presses, Reach(before), m)
    requires Heeded(s, presses, before) == UpTo(Reach(before))
    ensures AllBelow(before + [m], |presses|) && Reach(before + [m]) <= |presses|
    ensures Heeded(s, presses, before + [m]) == UpTo(Reach(before + [m]))
  {
    hide InTurnAt, Heeds, LastStamp, Stamp, Heeded, InOrder, UpTo;
    var k := Reach(before);
    assert (before + [m])[..|before|] == before;
    InTurnIsBelow(s, presses, k, m);
    HeedsInTurn(s, presses, k, m);
    OneMoreHeeded(s, presses, before, m);
    UpToLonger(k);
  }

  lemma UpToLonger(k: nat)
    ensures UpTo(k) + [k] == UpTo(k + 1)
  {
  }

  /** Packets in turn: what is heeded is the presses reached, each once and in order. */
  lemma {:induction false} HeededInTurn(s: Sender, presses: seq<PressEvent>, ms: seq<nat>, n: nat)
    requires InOrder(presses) && InTurn(s, presses, ms) && n <= |ms|
    ensures AllBelow(ms[..n], |presses|) && Reach(ms[..n]) <= |presses|
    ensures Heeded(s, presses, ms[..n]) == UpTo(Reach(ms[..n]))
  {
    hide InTurnAt, Heeded, InOrder, Reach, AllBelow, UpTo;
    if n == 0 {
      assert ms[..0] == [];
      NothingHeeded(s, presses);
      NothingReached();
    } else {
      HeededInTurn(s, presses, ms, n - 1);
      assert ms[..n] == ms[..n - 1] + [ms[n - 1]] && InTurnAt(s, presses, Reach(ms[..n - 1]), ms[n - 1]);
      OneMoreInTurn(s, presses, ms[..n - 1], ms[n - 1]);
    }
  }

  lemma NothingReached()
    ensures Reach([]) == 0 && UpTo(0) == []
  {
  }

  lemma InTurnIsBelow(s: Sender, presses: seq<PressEvent>, k: nat, m: nat)
    requires InTurnAt(s, presses, k, m)
    ensures m < |presses| && m <= k <= |presses|
  {
  }

  lemma {:induction false} ReachGrows(ms: seq<nat>, n: nat)
    requires n <= |ms|
    ensures Reach(ms[..n]) <= Reach(ms)
    decreases |ms|
  {
    if n == |ms| {
      assert ms[..n] == ms;
    } else {
      var last := |ms| - 1;
      assert ms[..last][..n] == ms[..n];
      ReachGrows(ms[..last], n);
    }
  }

  /** A press with a packet among those in turn has been reached. */
  lemma ReachedBeyond(s: Sender, presses: seq<PressEvent>, ms: seq<nat>, i: nat)
    requires InTurn(s, presses, ms) && i < |ms|
    ensures ms[i] < Reach(ms)
  {
    assert InTurnAt(s, presses, Reach(ms[..i]), ms[i]);
    assert ms[..i + 1][..i] == ms[..i];
    ReachGrows(ms, i + 1);
  }

  /** When every press has, all have. */
  lemma AllReached(s: Sender, presses: seq<PressEvent>, ms: seq<nat>)
    requires InOrder(presses) && InTurn(s, presses, ms)
    requires forall m :: 0 <= m < |presses| ==> m in ms
    ensures Reach(ms) == |presses|
  {
    hide InTurn, Heeded, Reach;
    assert ms[..|ms|] == ms;
    HeededInTurn(s, presses, ms, |ms|);
    if presses != [] {
      assert |presses| - 1 in ms;
      var i :| 0 <= i < |ms| && ms[i] == |presses| - 1;
      ReachedBeyond(s, presses, ms, i);
    }
  }

  /** Packets are in turn when none comes before one of every press before its own, as far as the order
      of arrival goes, and when the clocks tell every two presses apart. */
  lemma {:induction false} InTurnIf(s: Sender, presses: seq<PressEvent>, ms: seq<nat>, n: nat)
    requires n <= |ms| && AllBelow(ms, |presses|) && forall i :: 0 <= i < |ms| ==> NotAhead(ms, i)
    requires forall i, j :: 0 <= i < j < |presses| ==> Tell(s, presses[i], presses[j])
    ensures Reach(ms[..n]) <= |presses| && InTurn(s, presses, ms[..n])
  {
    hide Tell;
    if n == 0 {
      assert ms[..0] == [];
    } else {
      InTurnIf(s, presses, ms, n - 1);
      assert ms[..n][..n - 1] == ms[..n - 1] && NotAhead(ms, n - 1);
      forall i | 0 <= i < n ensures InTurnAt(s, presses, Reach(ms[..n][..i]), ms[..n][i]) {
        assert ms[..n][..i] == ms[..i];
        if i < n - 1 {
          assert ms[..n - 1][..i] == ms[..i];
          assert InTurnAt(s, presses, Reach(ms[..n - 1][..i]), ms[..n - 1][i]);
        }
      }
    }
  }

  /** The i-th packet is of a press reached, or of the next. */
  predicate NotAhead(ms: seq<nat>, i: nat)
    requires i < |ms|
  {
    ms[i] <= Reach(ms[..i])
  }

  /** The audio clock moves at least a packet's ticks from call to call. */
  lemma ClockAscends(s: Sender, i: nat, j: nat)
    requires i < j
    ensures Clock(s, j) - Clock(s, i) >= s.config.codec.TicksPerPacket()
  {
    var ticks: int := s.config.codec.TicksPerPacket();
    assert j * ticks - i * ticks == (j - i) * ticks;
    ProductGrows(1, j - i, ticks);
  }

  /** With an event clock that is the audio clock or a multiple of it, presses less than 2^31 event ticks
      apart are told apart. */
  lemma WholeClocksTellPresses(s: Sender, first: PressEvent, later: PressEvent)
    requires WholeClocks(s.config) && first.call < later.call
    requires Near(s.config, Clock(s, first.call), Clock(s, later.call))
    ensures Tell(s, first, later)
  {
    hide Near, ClockTells, Clock, WholeClocks;
    ClockAscends(s, first.call, later.call);
    WholeClocksTell(s.config, Clock(s, first.call), Clock(s, later.call));
  }

  /** From one call to the next passes an event tick, at 50 Hz or more. */
  lemma TickBetween(s: Sender, i: nat, j: nat)
    requires i < j && s.config.dtmfClockRate >= 50
    ensures Clock(s, i) < Clock(s, j)
    ensures (Clock(s, j) - Clock(s, i)) * s.config.dtmfClockRate >= s.config.codec.ClockRate()
  {
    hide Clock;
    ClockAscends(s, i, j);
    var elapsed, ticks: int, event: int := Clock(s, j) - Clock(s, i), s.config.codec.TicksPerPacket(), s.config.dtmfClockRate;
    assert ticks * 50 == s.config.codec.ClockRate();
    ProductGrows(ticks, elapsed, event);
    ProductGrows(50, event, ticks);
  }

  /** With any event clock of 50 Hz or more, so are those between which the audio timestamp does not wrap. */
  lemma OneCycleTellsPresses(s: Sender, first: PressEvent, later: PressEvent)
    requires s.config.dtmfClockRate >= 50 && first.call < later.call && CycleOf(s, first) == CycleOf(s, later)
    requires Near(s.config, Clock(s, first.call), Clock(s, later.call))
    ensures Tell(s, first, later)
  {
    hide Near, ClockTells, Clock;
    TickBetween(s, first.call, later.call);
    OneCycleTells(s.config, Clock(s, first.call), Clock(s, later.call));
  }

  function CycleOf(s: Sender, press: PressEvent): nat {
    Clock(s, press.call) / TWO32
  }
}
