/** Digits in sequence, clock by clock: every digit pressed is reported exactly when the clocks tell each
    press from the one before; none is after the audio timestamp wraps, on a slow event clock, and none
    after a long enough pause on any. */
module StreamDtmfWrap {
  import opened Bytes
  import opened StreamConfig
  import opened StreamSender
  import opened StreamSenderRuns
  import opened StreamDtmf
  import opened StreamDtmfClock
  import opened StreamDtmfEndToEnd
  import opened StreamDtmfInOrder
  import opened StreamNetwork
  import R = StreamReceiver
  import RR = StreamReceiverRuns

  // ----- When that is every digit

  /** The clocks tell each press from the one before. */
  ghost predicate AllTold(s: Sender, presses: seq<PressEvent>) {
    forall i :: 0 < i < |presses| ==> Tell(s, presses[i - 1], presses[i])
  }

  predicate NewerThan(s: Sender, presses: seq<PressEvent>, i: nat, last: nat)
    requires i < |presses| && last < |presses|
  {
    R.IsNewer(Stamp(s, presses[i]), Stamp(s, presses[last]))
  }

  predicate NewerNext(s: Sender, presses: seq<PressEvent>, i: nat)
    requires 0 < i < |presses|
  {
    NewerThan(s, presses, i, i - 1)
  }

  /** While each press is newer than the one before, up to `last`, all are heeded; after that none is,
      if none is newer than `last`. */
  lemma {:induction false} HeededUntil(s: Sender, presses: seq<PressEvent>, last: nat, n: nat)
    requires StreamDtmf.InOrder(presses) && n <= |presses| && last < |presses|
    requires forall i :: 0 < i <= last ==> NewerNext(s, presses, i)
    requires forall i :: last < i < n ==> !NewerThan(s, presses, i, last)
    ensures AllBelow(UpTo(n), |presses|)
    ensures Heeded(s, presses, UpTo(n)) == UpTo(if n <= last then n else last + 1)
  {
    hide NewerThan, NewerNext, Heeded, AllBelow;
    UpToIsBelow(n);
    UpToIsBelow(|presses|);
    if n == 0 {
      assert UpTo(0) == [];
      NothingHeeded(s, presses);
      NoneIsBelow(|presses|);
    } else {
      HeededUntil(s, presses, last, n - 1);
      HeededNext(s, presses, if n - 1 <= last then n - 1 else last + 1, n - 1);
      if 0 < n - 1 <= last {
        assert NewerNext(s, presses, n - 1);
        NextIsThan(s, presses, n - 1);
      }
    }
  }

  lemma NoneIsBelow(n: nat)
    ensures AllBelow([], n)
  {
  }

  /** One more press after the first `k`, of which the last was the last heeded. */
  lemma HeededNext(s: Sender, presses: seq<PressEvent>, k: nat, n: nat)
    requires StreamDtmf.InOrder(presses) && k <= n < |presses| && AllBelow(UpTo(n), |presses|) && (k == 0 ==> n == 0)
    requires Heeded(s, presses, UpTo(n)) == UpTo(k)
    ensures AllBelow(UpTo(n + 1), |presses|)
    ensures Heeded(s, presses, UpTo(n + 1))
         == if k == 0 || NewerThan(s, presses, n, k - 1) then UpTo(k) + [n] else UpTo(k)
    ensures UpTo(n) + [n] == UpTo(n + 1)
  {
    hide Stamp, R.IsNewer, Heeded;
    assert UpTo(n + 1) == UpTo(n) + [n];
    OneMoreHeeded(s, presses, UpTo(n), n);
  }

  lemma NextIsThan(s: Sender, presses: seq<PressEvent>, i: nat)
    requires 0 < i < |presses|
    ensures NewerNext(s, presses, i) <==> NewerThan(s, presses, i, i - 1)
  {
  }

  /** When all are heeded, each was newer than the one before. */
  lemma {:induction false} HeededAll(s: Sender, presses: seq<PressEvent>, n: nat)
    requires StreamDtmf.InOrder(presses) && n <= |presses|
    ensures AllBelow(UpTo(n), |presses|)
    ensures |Heeded(s, presses, UpTo(n))| <= n
    ensures |Heeded(s, presses, UpTo(n))| == n ==>
              Heeded(s, presses, UpTo(n)) == UpTo(n) && forall i :: 0 < i < n ==> NewerNext(s, presses, i)
  {
    hide NewerThan, NewerNext, Heeded, AllBelow;
    UpToIsBelow(n);
    if n == 0 {
      NothingPressed(s, presses);
    } else {
      HeededAll(s, presses, n - 1);
      HeededGrows(s, presses, n - 1);
      if |Heeded(s, presses, UpTo(n - 1))| == n - 1 {
        HeededNext(s, presses, n - 1, n - 1);
        if n > 1 { NextIsThan(s, presses, n - 1); }
      }
    }
  }

  lemma NothingPressed(s: Sender, presses: seq<PressEvent>)
    requires StreamDtmf.InOrder(presses)
    ensures AllBelow(UpTo(0), |presses|) && Heeded(s, presses, UpTo(0)) == UpTo(0)
  {
    assert UpTo(0) == [];
    NothingHeeded(s, presses);
  }

  /** One more press is at most one more heeded. */
  lemma HeededGrows(s: Sender, presses: seq<PressEvent>, n: nat)
    requires StreamDtmf.InOrder(presses) && n < |presses| && AllBelow(UpTo(n), |presses|)
    ensures AllBelow(UpTo(n + 1), |presses|)
    ensures |Heeded(s, presses, UpTo(n + 1))| <= |Heeded(s, presses, UpTo(n))| + 1
  {
    hide Heeded, Stamp, Heeds;
    assert UpTo(n + 1) == UpTo(n) + [n];
    OneMoreHeeded(s, presses, UpTo(n), n);
  }

  lemma ToldIsNewer(s: Sender, presses: seq<PressEvent>, i: nat)
    requires StreamDtmf.InOrder(presses) && 0 < i < |presses|
    ensures NewerNext(s, presses, i) <==> Tell(s, presses[i - 1], presses[i])
  {
    hide Stamp, R.IsNewer, Tell, Clock;
    ClockAscends(s, presses[i - 1].call, presses[i].call);
    TellIff(s, presses[i - 1], presses[i]);
  }

  /** In sequence, every digit pressed is reported exactly when the clocks tell each press from the
      one before, whatever the mix of audio and digits. */
  lemma EveryDigitIff(s: Sender, calls: seq<Call>)
    requires FreshSender(s)
    ensures SaysUpTo(s, calls, InSequenceReports(s, calls), |Presses(s, calls)|) <==> AllTold(s, Presses(s, calls))
  {
    hide Presses, Heeded, Tell, Stamp, R.IsNewer, StreamSender.Valid, QueuedDigits, DtmfDigit;
    ValidIfFresh(s);
    PressesAreInOrder(s, calls);
    var presses := Presses(s, calls);
    var n := |presses|;
    forall i | 0 < i < n ensures NewerNext(s, presses, i) <==> Tell(s, presses[i - 1], presses[i]) {
      ToldIsNewer(s, presses, i);
    }
    HeededAll(s, presses, n);
    EventsSayDigits(s, calls, n);
    if AllTold(s, presses) && n > 0 {
      HeededUntil(s, presses, n - 1, n);
    }
    if SaysUpTo(s, calls, InSequenceReports(s, calls), n) {
      assert |InSequenceReports(s, calls)| == |Said(InSequenceReports(s, calls))| == n;
      forall i | 0 < i < n ensures Tell(s, presses[i - 1], presses[i]) {
        assert NewerNext(s, presses, i);
      }
    }
  }

  /** Each press is less than 2^31 event ticks after the one before. */
  ghost predicate CloseTogether(s: Sender, presses: seq<PressEvent>) {
    forall i :: 0 < i < |presses| ==> Near(s.config, Clock(s, presses[i - 1].call), Clock(s, presses[i].call))
  }

  /** So every digit is reported, over a network in sequence, of presses each less than 2^31 event ticks
      after the one before, with whole clocks or within a cycle. */
  lemma EveryDigitOn(s: Sender, calls: seq<Call>)
    requires FreshSender(s) && CloseTogether(s, Presses(s, calls))
    requires WholeClocks(s.config) || (s.config.dtmfClockRate >= 50 && OneCycle(s, Presses(s, calls)))
    ensures SaysUpTo(s, calls, InSequenceReports(s, calls), |Presses(s, calls)|)
  {
    hide Presses, Tell, Near, Clock, StreamSender.Valid, WholeClocks, InSequenceReports, SaysUpTo, FreshSender;
    ValidIfFresh(s);
    var presses := Presses(s, calls);
    PressesAreInOrder(s, calls);
    forall i | 0 < i < |presses| ensures Tell(s, presses[i - 1], presses[i]) {
      if WholeClocks(s.config) {
        WholeClocksTellPresses(s, presses[i - 1], presses[i]);
      } else {
        OneCycleTellsPresses(s, presses[i - 1], presses[i]);
      }
    }
    EveryDigitIff(s, calls);
  }

  ghost predicate OneCycle(s: Sender, presses: seq<PressEvent>) {
    forall i :: 0 < i < |presses| ==> CycleOf(s, presses[i - 1]) == CycleOf(s, presses[i])
  }

  // ----- When it is not

  /** The presses up to `last` are told each from the one before, and none of the others from `last`:
      then those are all that is reported. */
  lemma UntoldAreSilent(s: Sender, calls: seq<Call>, last: nat)
    requires FreshSender(s) && last < |Presses(s, calls)|
    requires forall i :: 0 < i <= last ==> NewerNext(s, Presses(s, calls), i)
    requires forall i :: last < i < |Presses(s, calls)| ==> Unheard(s, Presses(s, calls), last, i)
    ensures SaysUpTo(s, calls, InSequenceReports(s, calls), last + 1)
  {
    hide Presses, Heeded, Stamp, R.IsNewer, NewerNext, StreamSender.Valid, QueuedDigits, DtmfDigit, SaysUpTo;
    ValidIfFresh(s);
    PressesAreInOrder(s, calls);
    var presses := Presses(s, calls);
    forall i | last < i < |presses| ensures !NewerThan(s, presses, i, last) {
      assert Unheard(s, presses, last, i);
    }
    HeededUntil(s, presses, last, |presses|);
    EventsSayDigits(s, calls, last + 1);
  }

  predicate Unheard(s: Sender, presses: seq<PressEvent>, last: nat, i: nat)
    requires i < |presses| && last < |presses|
  {
    !NewerThan(s, presses, i, last)
  }

  // ----- After the wrap, on a slow event clock

  /** The first `c` presses are in one cycle of the audio timestamp, the others in later ones but less
      than 2^32 audio ticks after the last of those. */
  ghost predicate WrapsAt(s: Sender, presses: seq<PressEvent>, c: nat) {
    && 0 < c <= |presses|
    && (forall i :: 0 < i < c ==> CycleOf(s, presses[i - 1]) == CycleOf(s, presses[i]))
    && forall i :: c <= i < |presses| ==>
         && CycleOf(s, presses[i]) != CycleOf(s, presses[c - 1])
         && Clock(s, presses[i].call) < Clock(s, presses[c - 1].call) + TWO32
  }

  lemma SlowIsNewerIff(s: Sender, first: PressEvent, later: PressEvent)
    requires 50 <= s.config.dtmfClockRate && 2 * s.config.dtmfClockRate <= s.config.codec.ClockRate()
    requires first.call < later.call && Clock(s, later.call) < Clock(s, first.call) + TWO32
    ensures R.IsNewer(Stamp(s, later), Stamp(s, first)) <==> CycleOf(s, first) == CycleOf(s, later)
  {
    hide Clock, R.IsNewer, DtmfTimestamp;
    TickBetween(s, first.call, later.call);
    SlowEventClockIff(s.config, Clock(s, first.call), Clock(s, later.call));
  }

  lemma OneCycleIsShort(x: nat, y: nat)
    requires x / TWO32 == y / TWO32
    ensures y < x + TWO32
  {
  }

  /** With an event clock of at most half the audio clock, the digits pressed before the wrap are
      reported and none of those after it. */
  lemma WrapSilences(s: Sender, calls: seq<Call>, c: nat)
    requires FreshSender(s) && 50 <= s.config.dtmfClockRate && 2 * s.config.dtmfClockRate <= s.config.codec.ClockRate()
    requires WrapsAt(s, Presses(s, calls), c)
    ensures SaysUpTo(s, calls, InSequenceReports(s, calls), c)
  {
    hide Presses, Stamp, R.IsNewer, StreamSender.Valid, SaysUpTo, Clock;
    ValidIfFresh(s);
    PressesAreInOrder(s, calls);
    var presses, last := Presses(s, calls), c - 1;
    forall i | 0 < i <= last ensures NewerNext(s, presses, i) {
      OneCycleIsShort(Clock(s, presses[i - 1].call), Clock(s, presses[i].call));
      SlowIsNewerIff(s, presses[i - 1], presses[i]);
    }
    forall i | last < i < |presses| ensures Unheard(s, presses, last, i) {
      SlowIsNewerIff(s, presses[last], presses[i]);
    }
    UntoldAreSilent(s, calls, last);
  }

  // ----- After a long pause, on any clock

  /** The first `c` presses are told each from the one before; the event ticks from the last of them to
      any other are, modulo 2^32, none or 2^31 and more. */
  ghost predicate PausesAt(s: Sender, presses: seq<PressEvent>, c: nat) {
    && 0 < c <= |presses|
    && (forall i :: 0 < i < c ==> Tell(s, presses[i - 1], presses[i]))
    && forall i :: c <= i < |presses| ==> LongAfter(s, presses[c - 1], presses[i])
  }

  predicate LongAfter(s: Sender, first: PressEvent, later: PressEvent) {
    var ticks := Ratio(s.config) * (Clock(s, later.call) - Clock(s, first.call)) % TWO32;
    ticks == 0 || HALF_RANGE <= ticks
  }

  /** On whole clocks too the digits after a pause of 2^31 to 2^32 event ticks are not reported. */
  lemma PauseSilences(s: Sender, calls: seq<Call>, c: nat)
    requires FreshSender(s) && WholeClocks(s.config) && PausesAt(s, Presses(s, calls), c)
    ensures SaysUpTo(s, calls, InSequenceReports(s, calls), c)
  {
    hide Presses, Stamp, R.IsNewer, StreamSender.Valid, SaysUpTo, Clock, Tell, WholeClocks, FreshSender;
    ValidIfFresh(s);
    PressesAreInOrder(s, calls);
    var presses, last := Presses(s, calls), c - 1;
    forall i | 0 < i <= last ensures NewerNext(s, presses, i) {
      ToldIsNewer(s, presses, i);
    }
    forall i | last < i < |presses| ensures Unheard(s, presses, last, i) {
      PauseIsUnheard(s, presses, last, i);
    }
    UntoldAreSilent(s, calls, last);
  }

  lemma PauseIsUnheard(s: Sender, presses: seq<PressEvent>, last: nat, i: nat)
    requires StreamDtmf.InOrder(presses) && WholeClocks(s.config) && last < i < |presses|
    requires LongAfter(s, presses[last], presses[i])
    ensures Unheard(s, presses, last, i)
  {
    hide Stamp, R.IsNewer, Clock, WholeClocks, Ratio;
    ClockAscends(s, presses[last].call, presses[i].call);
    TellIff(s, presses[last], presses[i]);
    WholeClocksTellIff(s.config, Clock(s, presses[last].call), Clock(s, presses[i].call));
  }

  /** A '5', then `k` calls later a '6'. */
  function Apart(k: nat): seq<Call> {
    Idle(k) + [Queue('6'), Send([])]
  }

  function Idle(k: nat): (calls: seq<Call>)
    ensures |calls| == k + 1
  {
    [Queue('5')] + seq<Call>(k, i => Send([]))
  }

  lemma FrameSent(s: Sender, encoded: seq<byte>)
    requires Valid(s) && s.dtmfSending.None? && s.dtmf == []
    ensures var after := Step(s, Send(encoded)); after.dtmf == [] && after.dtmfSending.None?
  {
    hide PacketsOf, ProtectedAll, DtmfTimestamp, Sizes;
    PacketizedKeepsValid(s, encoded);
  }

  /** One call more of a run, with any end. */
  lemma OneMoreOf(s: Sender, calls: seq<Call>, c: Call)
    requires Valid(s)
    ensures After(s, calls + [c]) == Step(After(s, calls), c)
    ensures Presses(s, calls + [c]) == Presses(s, calls) + StartsIn(After(s, calls), c, Sends(calls))
    ensures Sends(calls + [c]) == Sends(calls) + (if c.Send? then 1 else 0)
    ensures QueuedDigits(s.config, calls + [c]) == QueuedDigits(s.config, calls) + QueuedDigit(s.config, c)
  {
    hide Step, StartsIn, QueuedDigit;
    assert (calls + [c])[..|calls|] == calls;
  }

  /** What a digit queued and a frame sent make of the state, of the presses and of the queue. */
  ghost predicate IsIdle(s: Sender, calls: seq<Call>, presses: seq<PressEvent>, waiting: seq<byte>, digits: seq<char>, k: nat)
    requires Valid(s)
  {
    && Presses(s, calls) == presses && QueuedDigits(s.config, calls) == digits && Sends(calls) == k
    && After(s, calls).dtmfSending.None? && After(s, calls).dtmf == waiting
  }

  lemma QueuesOne(s: Sender, calls: seq<Call>, presses: seq<PressEvent>, digits: seq<char>, k: nat, digit: char, event: byte)
    requires Valid(s) && s.config.dtmfPayloadType.Some? && IsIdle(s, calls, presses, [], digits, k)
    requires DtmfEventCode(digit) == Some(event) && Upper(digit) == digit
    ensures IsIdle(s, calls + [Queue(digit)], presses, [event], digits + [digit], k)
  {
    hide Step, DtmfEventCode, Upper, StreamSender.Valid, Presses, After, Sends, QueuedDigits;
    OneMoreOf(s, calls, Queue(digit));
    DigitQueued(After(s, calls), digit, event);
    assert presses + [] == presses;
  }

  lemma SendsOne(s: Sender, calls: seq<Call>, presses: seq<PressEvent>, waiting: seq<byte>, digits: seq<char>, k: nat)
    requires Valid(s) && s.config.dtmfPackets <= 1 && |waiting| <= 1 && IsIdle(s, calls, presses, waiting, digits, k)
    ensures IsIdle(s, calls + [Send([])], PressedBy(presses, waiting, k), [], digits, k + 1)
  {
    hide Step, StreamSender.Valid, Presses, After, Sends, QueuedDigits;
    OneMoreOf(s, calls, Send([]));
    if waiting == [] {
      FrameSent(After(s, calls), []);
      assert presses + [] == presses;
    } else {
      DigitSent(After(s, calls), []);
    }
    assert digits + [] == digits;
  }

  function PressedBy(presses: seq<PressEvent>, waiting: seq<byte>, k: nat): seq<PressEvent> {
    if waiting == [] then presses else presses + [PressEvent(waiting[0], k)]
  }

  function IdlePresses(k: nat): seq<PressEvent> {
    if k == 0 then [] else [PressEvent(5, 0)]
  }

  function IdleWaiting(k: nat): (waiting: seq<byte>)
    ensures |waiting| <= 1
  {
    if k == 0 then [5] else []
  }

  lemma IdlePressesGrow(k: nat)
    ensures PressedBy(IdlePresses(k), IdleWaiting(k), k) == IdlePresses(k + 1)
    ensures IdleWaiting(k + 1) == []
  {
  }

  /** The '5' goes out with the first call, and then frames. */
  lemma {:induction false} Idles(s: Sender, k: nat)
    requires FreshSender(s) && s.config.dtmfPayloadType.Some? && s.config.dtmfPackets <= 1
    ensures Valid(s)
    ensures IsIdle(s, Idle(k), IdlePresses(k), IdleWaiting(k), ['5'], k)
  {
    hide IsIdle, Idle, IdlePresses, IdleWaiting, PressedBy, StreamSender.Valid, FreshSender;
    ValidIfFresh(s);
    if k == 0 {
      IdlesAtFirst(s);
    } else {
      Idles(s, k - 1);
      IdleGrows(k);
      IdlePressesGrow(k - 1);
      SendsOne(s, Idle(k - 1), IdlePresses(k - 1), IdleWaiting(k - 1), ['5'], k - 1);
    }
  }

  lemma IdlesAtFirst(s: Sender)
    requires FreshSender(s) && s.config.dtmfPayloadType.Some?
    ensures Valid(s)
    ensures IsIdle(s, Idle(0), IdlePresses(0), IdleWaiting(0), ['5'], 0)
  {
    ValidIfFresh(s);
    FiveAndSix();
    hide IsIdle, DtmfEventCode, Upper, Idle, StreamSender.Valid;
    IdleGrows(0);
    IdleAtFirst(s);
    QueuesOne(s, [], [], [], 0, '5', 5);
    assert [] + ['5'] == ['5'];
  }

  lemma IdleGrows(k: nat)
    ensures Idle(k) == if k == 0 then [] + [Queue('5')] else Idle(k - 1) + [Send([])]
  {
  }

  lemma ApartIs(k: nat)
    ensures Apart(k) == (Idle(k) + [Queue('6')]) + [Send([])]
  {
    hide Idle;
  }

  lemma IdleAtFirst(s: Sender)
    requires FreshSender(s)
    ensures IsIdle(s, [], [], [], [], 0)
  {
  }

  lemma PressesApart(s: Sender, k: nat)
    requires FreshSender(s) && s.config.dtmfPayloadType.Some? && s.config.dtmfPackets <= 1 && k > 0
    ensures Presses(s, Apart(k)) == [PressEvent(5, 0), PressEvent(6, k)]
    ensures QueuedDigits(s.config, Apart(k)) == ['5', '6']
  {
    ValidIfFresh(s);
    FiveAndSix();
    hide DtmfEventCode, Upper, StreamSender.Valid, IsIdle, Idle, Apart, FreshSender, Presses,
         QueuedDigits, IdlePresses, IdleWaiting, PressedBy;
    ApartPresses(k);
    Idles(s, k);
    ApartIs(k);
    QueuesOne(s, Idle(k), IdlePresses(k), ['5'], k, '6', 6);
    SendsOne(s, Idle(k) + [Queue('6')], IdlePresses(k), [6], ['5'] + ['6'], k);
    IdleIs(s, Apart(k), PressedBy(IdlePresses(k), [6], k), [], ['5'] + ['6'], k + 1);
    assert ['5'] + ['6'] == ['5', '6'];
  }

  lemma ApartPresses(k: nat)
    requires k > 0
    ensures PressedBy(IdlePresses(k), [6], k) == [PressEvent(5, 0), PressEvent(6, k)] && IdleWaiting(k) == []
  {
  }

  lemma IdleIs(s: Sender, calls: seq<Call>, presses: seq<PressEvent>, waiting: seq<byte>, digits: seq<char>, k: nat)
    requires Valid(s) && IsIdle(s, calls, presses, waiting, digits, k)
    ensures Presses(s, calls) == presses && QueuedDigits(s.config, calls) == digits
  {
    hide Presses, QueuedDigits, Sends, After;
  }

  /** From a new sender to a new receiver, on whole clocks: the second of two digits is not reported
      when the calls between them take 2^31 to 2^32 event ticks. */
  lemma DigitAfterPauseIsLost(config: Config, ssrc: u32, first: u16, start: u32, k: nat, from: Address,
                              arrivals: seq<Arrival>)
    requires ValidConfig(config) && WholeClocks(config) && config.dtmfPackets <= 1
    requires k > 0 && HALF_RANGE <= Ratio(config) * (k * config.codec.TicksPerPacket()) < TWO32
    requires GoodPayloadType(config.payloadType)
    requires config.dtmfPayloadType.Some? && GoodPayloadType(config.dtmfPayloadType.value) && from.ip == config.remote.ip
    requires RR.Valid(R.NewReceiver(config, None)) && Valid(NewSender(config, None, ssrc, first, start))
    requires AllInSequence(NewSender(config, None, ssrc, first, start), Apart(k), R.NewReceiver(config, None), from, arrivals)
    ensures var s, r := NewSender(config, None, ssrc, first, start), R.NewReceiver(config, None);
            && QueuedDigits(config, Apart(k)) == ['5', '6']
            && Said(Reported(r, Datagrams(s, Apart(k)), from, arrivals)) == ['5']
  {
    hide Presses, Datagrams, Reported, QueuedDigits, InSequenceReports, AllInSequence, Apart, Ratio, WholeClocks;
    var s, r := NewSender(config, None, ssrc, first, start), R.NewReceiver(config, None);
    PressesApart(s, k);
    PlainInSequence(s, Apart(k), r, from, arrivals);
    assert Clock(s, k) - Clock(s, 0) == k * config.codec.TicksPerPacket();
    PauseSilences(s, Apart(k), 1);
  }

  // ----- Two digits across the wrap

  /** The calls that press '5' and then '6' in the next packet. */
  function TwoDigits(a: seq<byte>, b: seq<byte>): seq<Call> {
    [Queue('5'), Queue('6'), Send(a), Send(b)]
  }

  lemma FiveAndSix()
    ensures DtmfEventCode('5') == Some(5) && Upper('5') == '5'
    ensures DtmfEventCode('6') == Some(6) && Upper('6') == '6'
  {
  }

  lemma TwoQueued(config: Config, a: seq<byte>, b: seq<byte>)
    requires config.dtmfPayloadType.Some?
    ensures QueuedDigits(config, TwoDigits(a, b)) == ['5', '6']
  {
    FiveAndSix();
    hide DtmfEventCode, Upper;
    var calls := TwoDigits(a, b);
    assert calls[..4] == calls && calls[..4][..3] == calls[..3] && calls[..3][..2] == calls[..2];
    assert calls[..2][..1] == calls[..1] && calls[..1][..0] == [];
    assert QueuedDigits(config, calls[..1]) == ['5'];
    assert QueuedDigits(config, calls[..2]) == ['5', '6'];
    assert QueuedDigits(config, calls[..3]) == ['5', '6'];
  }

  /** What a queueing and a sending make of the state that matters here. */
  lemma DigitQueued(s: Sender, digit: char, event: byte)
    requires Valid(s) && s.config.dtmfPayloadType.Some? && DtmfEventCode(digit) == Some(event)
    ensures Step(s, Queue(digit)) == s.(dtmf := s.dtmf + [event])
  {
    hide DtmfEventCode;
  }

  lemma DigitSent(s: Sender, encoded: seq<byte>)
    requires Valid(s) && s.dtmfSending.None? && s.dtmf != [] && s.config.dtmfPackets <= 1
    ensures var after := Step(s, Send(encoded)); after.dtmf == s.dtmf[1..] && after.dtmfSending.None?
  {
    hide PacketsOf, ProtectedAll, DtmfTimestamp, Sizes;
    PacketizedKeepsValid(s, encoded);
  }

  lemma TwoPresses(s: Sender, a: seq<byte>, b: seq<byte>)
    requires FreshSender(s) && s.config.dtmfPayloadType.Some? && s.config.dtmfPackets <= 1
    ensures Presses(s, TwoDigits(a, b)) == [PressEvent(5, 0), PressEvent(6, 1)]
  {
    FiveAndSix();
    hide Step, DtmfEventCode, StreamSender.Valid, Presses, After;
    ValidIfFresh(s);
    var calls := TwoDigits(a, b);
    NoCalls(s, calls);
    OneMoreCall(s, calls, 0);
    DigitQueued(s, '5', 5);
    OneMoreCall(s, calls, 1);
    DigitQueued(After(s, calls[..1]), '6', 6);
    OneMoreCall(s, calls, 2);
    DigitSent(After(s, calls[..2]), a);
    OneMoreCall(s, calls, 3);
    assert calls[..4] == calls;
    TwoSends(calls);
  }

  lemma NoCalls(s: Sender, calls: seq<Call>)
    requires Valid(s)
    ensures After(s, calls[..0]) == s && Presses(s, calls[..0]) == []
  {
  }

  lemma OneMoreCall(s: Sender, calls: seq<Call>, n: nat)
    requires Valid(s) && n < |calls|
    ensures After(s, calls[..n + 1]) == Step(After(s, calls[..n]), calls[n])
    ensures Presses(s, calls[..n + 1])
         == Presses(s, calls[..n]) + StartsIn(After(s, calls[..n]), calls[n], Sends(calls[..n]))
  {
    hide Step, StartsIn;
    assert calls[..n + 1][..n] == calls[..n];
  }

  lemma TwoSends(calls: seq<Call>)
    requires |calls| == 4 && calls[0].Queue? && calls[1].Queue? && calls[2].Send?
    ensures Sends(calls[..2]) == 0 && Sends(calls[..3]) == 1
  {
    assert calls[..3][..2] == calls[..2] && calls[..2][..1] == calls[..1] && calls[..1][..0] == [];
    assert Sends(calls[..1]) == 0 && Sends(calls[..2]) == 0;
  }

  /** From a new sender to a new receiver, with Opus at 48 kHz and events at 8 kHz, over a network that
      loses nothing: the audio timestamp wraps between two digits, and the second is not reported. */
  lemma SecondDigitIsLost(config: Config, ssrc: u32, first: u16, a: seq<byte>, b: seq<byte>, from: Address,
                          arrivals: seq<Arrival>)
    requires ValidConfig(config) && config.codec == Opus && config.dtmfClockRate == 8000 && config.dtmfPackets <= 1
    requires GoodPayloadType(config.payloadType)
    requires config.dtmfPayloadType.Some? && GoodPayloadType(config.dtmfPayloadType.value) && from.ip == config.remote.ip
    requires RR.Valid(R.NewReceiver(config, None)) && Valid(NewSender(config, None, ssrc, first, 0xFFFF_FC40))
    requires AllInSequence(NewSender(config, None, ssrc, first, 0xFFFF_FC40), TwoDigits(a, b),
                           R.NewReceiver(config, None), from, arrivals)
    ensures var s, r := NewSender(config, None, ssrc, first, 0xFFFF_FC40), R.NewReceiver(config, None);
            && QueuedDigits(config, TwoDigits(a, b)) == ['5', '6']
            && Said(Reported(r, Datagrams(s, TwoDigits(a, b)), from, arrivals)) == ['5']
  {
    hide Presses, Datagrams, Reported, QueuedDigits, InSequenceReports, AllInSequence;
    var s, r, calls := NewSender(config, None, ssrc, first, 0xFFFF_FC40), R.NewReceiver(config, None), TwoDigits(a, b);
    TwoPresses(s, a, b);
    TwoQueued(config, a, b);
    PlainInSequence(s, calls, r, from, arrivals);
    WrapSilences(s, calls, 1);
  }
}
