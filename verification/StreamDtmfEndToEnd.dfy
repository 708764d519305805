/** The two cases in which digits provably arrive: plain RTP, and SRTP with both ends keyed alike. */
module StreamDtmfEndToEnd {
  import opened Bytes
  import opened StreamConfig
  import opened StreamSender
  import opened StreamSenderRuns
  import opened StreamDtmf
  import opened StreamDtmfClock
  import opened StreamNetwork
  import R = StreamReceiver
  import RR = StreamReceiverRuns
  import S = Srtp
  import T = SourceTable

  /** The digits, in upper case, of the presses a receiver has reached. */
  function Digits(codes: seq<byte>): seq<char>
    requires CodesAreDigits(codes)
  {
    seq<char>(|codes|, i requires 0 <= i < |codes| => DtmfDigit(codes[i]).value)
  }

  /** The digits queued, in upper case; what is no digit, or not negotiated, is refused. */
  function QueuedDigit(config: Config, c: Call): seq<char> {
    if c.Queue? && DtmfEventCode(c.digit).Some? && config.dtmfPayloadType.Some? then [Upper(c.digit)] else []
  }

  function QueuedDigits(config: Config, calls: seq<Call>): seq<char> {
    if calls == [] then []
    else QueuedDigits(config, calls[..|calls| - 1]) + QueuedDigit(config, calls[|calls| - 1])
  }

  lemma {:induction false} QueuedCodesAreDigits(config: Config, calls: seq<Call>, n: nat)
    requires n <= |calls|
    ensures CodesAreDigits(QueuedCodes(config, calls[..n]))
    ensures Digits(QueuedCodes(config, calls[..n])) == QueuedDigits(config, calls[..n])
  {
    if n > 0 {
      assert calls[..n][..n - 1] == calls[..n - 1];
      QueuedCodesAreDigits(config, calls, n - 1);
      var c := calls[n - 1];
      if c.Queue? && DtmfEventCode(c.digit).Some? {
        DigitsRoundTrip(c.digit, DtmfEventCode(c.digit).value);
      }
      hide DtmfEventCode, DtmfDigit;
    } else {
      assert calls[..0] == [];
    }
  }

  /** What a run of reports says. */
  function Said(events: seq<R.DtmfEvent>): seq<char> {
    seq<char>(|events|, i requires 0 <= i < |events| => events[i].digit)
  }

  /** What is said is the first `k` digits queued; all of them, once all have been pressed and `k`
      is all the presses. */
  ghost predicate SaysUpTo(s: Sender, calls: seq<Call>, events: seq<R.DtmfEvent>, k: nat)
    requires Valid(s)
  {
    && k <= |Presses(s, calls)| <= |QueuedDigits(s.config, calls)|
    && Said(events) == QueuedDigits(s.config, calls)[..k]
    && (After(s, calls).dtmf == [] && k == |Presses(s, calls)| ==> Said(events) == QueuedDigits(s.config, calls))
  }

  /** Every press has a packet among these. */
  ghost predicate Complete(presses: seq<PressEvent>, ms: seq<nat>) {
    forall m :: 0 <= m < |presses| ==> m in ms
  }

  lemma EventsSayDigits(s: Sender, calls: seq<Call>, k: nat)
    requires FreshSender(s) && k <= |Presses(s, calls)|
    ensures InOrder(Presses(s, calls))
    ensures SaysUpTo(s, calls, EventsAt(Presses(s, calls), UpTo(k)), k)
  {
    hide DtmfEventCode, DtmfDigit, Presses, QueuedCodes, QueuedDigits, StreamSender.Valid, After;
    assert calls[..|calls|] == calls;
    PressesAscend(s, calls, |calls|);
    QueuedArePressed(s, calls, |calls|);
    QueuedCodesAreDigits(s.config, calls, |calls|);
    var presses, codes := Presses(s, calls), QueuedCodes(s.config, calls);
    var events := EventsAt(presses, UpTo(k));
    assert |Digits(codes)| == |codes|;
    forall i | 0 <= i < k ensures Said(events)[i] == Digits(codes)[i] {
      assert codes[i] == Codes(presses)[i];
    }
    assert Said(events) == Digits(codes)[..k];
    if After(s, calls).dtmf == [] && k == |presses| {
      assert Codes(presses) == codes;
    }
  }

  /** Packets in turn say the digits reached; when every press has one, every digit pressed. */
  lemma InTurnSaysDigits(s: Sender, calls: seq<Call>, ms: seq<nat>)
    requires FreshSender(s) && InOrder(Presses(s, calls)) && InTurn(s, Presses(s, calls), ms)
    ensures AllBelow(ms, |Presses(s, calls)|)
    ensures SaysUpTo(s, calls, EventsAt(Presses(s, calls), Heeded(s, Presses(s, calls), ms)), Reach(ms))
    ensures Complete(Presses(s, calls), ms) ==> Reach(ms) == |Presses(s, calls)|
  {
    hide Presses, InTurn, Heeded, Reach, SaysUpTo, FreshSender, AllBelow;
    ValidIfFresh(s);
    var presses := Presses(s, calls);
    assert ms[..|ms|] == ms;
    HeededInTurn(s, presses, ms, |ms|);
    EventsSayDigits(s, calls, Reach(ms));
    if Complete(presses, ms) {
      AllReached(s, presses, ms);
    }
  }

  /** Every two presses are less than 2^31 event ticks apart. */
  ghost predicate AllNear(s: Sender, presses: seq<PressEvent>) {
    forall i, j :: 0 <= i < j < |presses| ==> Near(s.config, Clock(s, presses[i].call), Clock(s, presses[j].call))
  }

  /** No packet comes before one of every press before its own. */
  ghost predicate NoneAhead(presses: seq<PressEvent>, ms: seq<nat>) {
    AllBelow(ms, |presses|) && forall i :: 0 <= i < |ms| ==> NotAhead(ms, i)
  }

  /** On an event clock that is the audio clock or a multiple of it, the order of arrival is all it takes. */
  lemma InTurnOnWholeClocks(s: Sender, presses: seq<PressEvent>, ms: seq<nat>)
    requires InOrder(presses) && WholeClocks(s.config) && AllNear(s, presses) && NoneAhead(presses, ms)
    ensures InTurn(s, presses, ms)
  {
    hide Near, WholeClocks, Clock, Tell, InTurn, NotAhead;
    forall i, j | 0 <= i < j < |presses| ensures Tell(s, presses[i], presses[j]) {
      WholeClocksTellPresses(s, presses[i], presses[j]);
    }
    InTurnIf(s, presses, ms, |ms|);
    assert ms[..|ms|] == ms;
  }

  // ----- Plain RTP

  /** The presses whose packets arrive, packet by packet. */
  function Arrived(tags: seq<Option<nat>>, arrivals: seq<Arrival>): seq<nat> {
    if arrivals == [] then []
    else
      var a := arrivals[|arrivals| - 1];
      Arrived(tags, arrivals[..|arrivals| - 1])
      + if a.Sent? && a.n < |tags| && tags[a.n].Some? then [tags[a.n].value] else []
  }

  /** When all that arrives is recovered, the packets recovered are those that arrive. */
  lemma {:induction false} RecoversWhatArrives(r: R.Receiver, datagrams: seq<seq<byte>>, from: Address,
                                               tags: seq<Option<nat>>, arrivals: seq<Arrival>, j: nat)
    requires RR.Valid(r) && |tags| == |datagrams| && AllRecovered(r, datagrams, from, arrivals) && j <= |arrivals|
    ensures Recovered(r, datagrams, from, tags, arrivals[..j]) == Arrived(tags, arrivals[..j])
  {
    hide Hearing, Recovers, RR.Valid;
    if j > 0 {
      assert arrivals[..j][..j - 1] == arrivals[..j - 1];
      RecoversWhatArrives(r, datagrams, from, tags, arrivals, j - 1);
      assert RecoversAt(r, datagrams, from, arrivals, j - 1);
    } else {
      assert arrivals[..0] == [];
    }
  }

  /** A run whose arrivals are carried reports what is heeded of the packets recovered. */
  lemma CarriedReports(s: Sender, calls: seq<Call>, r: R.Receiver, from: Address, arrivals: seq<Arrival>)
    requires FreshSender(s) && RR.Valid(r) && Agree(s, r, from) && Memory(s, r).None?
    requires |Packets(s, calls)| == |Datagrams(s, calls)| == |Tags(s, calls)|
    requires AllCarried(Packets(s, calls), r, Datagrams(s, calls), from, arrivals)
    ensures var ms := Recovered(r, Datagrams(s, calls), from, Tags(s, calls), arrivals);
            && InOrder(Presses(s, calls)) && AllBelow(ms, |Presses(s, calls)|)
            && Reported(r, Datagrams(s, calls), from, arrivals)
               == EventsAt(Presses(s, calls), Heeded(s, Presses(s, calls), ms))
  {
    hide Presses, Packets, Tags, Datagrams, AllFit, SameSsrc, Agree, Heeded, Recovered, Reported, AllCarried, RR.Valid,
         FreshSender, StreamSender.Valid, InOrder;
    ValidIfFresh(s);
    assert arrivals[..|arrivals|] == arrivals;
    RunFits(s, calls);
    ReportsHeeded(s, Presses(s, calls), Packets(s, calls), Tags(s, calls), r, Datagrams(s, calls), from, arrivals, |arrivals|);
  }

  /** Over plain RTP, whatever the network and the clocks: what is reported is what is heeded of the
      packets that arrive. */
  lemma PlainReports(s: Sender, calls: seq<Call>, r: R.Receiver, from: Address, arrivals: seq<Arrival>)
    requires PlainEnds(s, r, from) && Memory(s, r).None? && Comes(r, Datagrams(s, calls), from, arrivals)
    ensures InOrder(Presses(s, calls)) && AllBelow(Arrived(Tags(s, calls), arrivals), |Presses(s, calls)|)
    ensures Reported(r, Datagrams(s, calls), from, arrivals)
         == EventsAt(Presses(s, calls), Heeded(s, Presses(s, calls), Arrived(Tags(s, calls), arrivals)))
  {
    hide Presses, Packets, Tags, Datagrams, Agree, Heeded, Recovered, Reported, AllCarried, AllRecovered, RR.Valid,
         FreshSender, StreamSender.Valid, InOrder, AllBelow, Arrived, Comes;
    ValidIfFresh(s);
    PlainNetwork(s, calls, r, from, arrivals);
    CarriedReports(s, calls, r, from, arrivals);
    RecoversWhatArrives(r, Datagrams(s, calls), from, Tags(s, calls), arrivals, |arrivals|);
    assert arrivals[..|arrivals|] == arrivals;
  }

  /** Digits over plain RTP. Over any network that brings the presses in turn, what is reported is the
      digits reached, once each and in order; every digit pressed, when each gets a packet in. */
  lemma PlainDigitsArrive(s: Sender, calls: seq<Call>, r: R.Receiver, from: Address, arrivals: seq<Arrival>)
    requires PlainEnds(s, r, from) && Memory(s, r).None? && Comes(r, Datagrams(s, calls), from, arrivals)
    requires InTurn(s, Presses(s, calls), Arrived(Tags(s, calls), arrivals))
    ensures var events, ms := Reported(r, Datagrams(s, calls), from, arrivals), Arrived(Tags(s, calls), arrivals);
            && SaysUpTo(s, calls, events, Reach(ms))
            && (Complete(Presses(s, calls), ms) ==> SaysUpTo(s, calls, events, |Presses(s, calls)|))
  {
    hide Presses, Tags, Datagrams, InTurn, Heeded, Reach, SaysUpTo, FreshSender, AllBelow, Reported, Arrived, Complete,
         Agree, RR.Valid, Comes, StreamSender.Valid;
    ValidIfFresh(s);
    PlainReports(s, calls, r, from, arrivals);
    InTurnSaysDigits(s, calls, Arrived(Tags(s, calls), arrivals));
  }

  /** On whole clocks, for presses less than 2^31 event ticks apart: every digit queued is reported, once
      all are pressed and each has had a packet in before any of a later one. */
  lemma PlainEveryDigit(s: Sender, calls: seq<Call>, r: R.Receiver, from: Address, arrivals: seq<Arrival>)
    requires PlainEnds(s, r, from) && Memory(s, r).None? && Comes(r, Datagrams(s, calls), from, arrivals)
    requires WholeClocks(s.config) && AllNear(s, Presses(s, calls)) && After(s, calls).dtmf == []
    requires var ms := Arrived(Tags(s, calls), arrivals);
             NoneAhead(Presses(s, calls), ms) && Complete(Presses(s, calls), ms)
    ensures Said(Reported(r, Datagrams(s, calls), from, arrivals)) == QueuedDigits(s.config, calls)
  {
    hide Presses, Tags, Datagrams, InTurn, Reach, FreshSender, Reported, Arrived, Complete, AllNear, NoneAhead,
         Agree, RR.Valid, Comes, StreamSender.Valid, WholeClocks, QueuedDigits, Said, After;
    ValidIfFresh(s);
    PressesAreInOrder(s, calls);
    InTurnOnWholeClocks(s, Presses(s, calls), Arrived(Tags(s, calls), arrivals));
    PlainDigitsArrive(s, calls, r, from, arrivals);
  }

  lemma PressesAreInOrder(s: Sender, calls: seq<Call>)
    requires FreshSender(s)
    ensures InOrder(Presses(s, calls))
  {
    hide Presses;
    assert calls[..|calls|] == calls;
    PressesAscend(s, calls, |calls|);
  }

  // ----- SRTP

  /** Over SRTP, for every schedule it can follow and whatever the clocks: what is reported is what is
      heeded of the packets recovered. Replays and packets too old are refused on the way. */
  lemma SrtpReports(s: Sender, calls: seq<Call>, keys: S.Keys, r: R.Receiver,
                    rx: seq<T.Source<S.RecvState>>, from: Address, arrivals: seq<Arrival>)
    requires SrtpRun(s, calls, keys, r, rx, from, arrivals) && Memory(s, r).None?
    ensures var ms := Recovered(r, Datagrams(s, calls), from, Tags(s, calls), arrivals);
            && InOrder(Presses(s, calls)) && AllBelow(ms, |Presses(s, calls)|)
            && Reported(r, Datagrams(s, calls), from, arrivals)
               == EventsAt(Presses(s, calls), Heeded(s, Presses(s, calls), ms))
  {
    hide Presses, Packets, Tags, Datagrams, Agree, Heeded, Recovered, Reported, AllCarried, RR.Valid, SrtpTimely,
         FreshSender, StreamSender.Valid, InOrder, AllBelow, Comes, T.Lookup;
    ValidIfFresh(s);
    SrtpNetwork(s, calls, keys, r, rx, from, arrivals);
    CarriedReports(s, calls, r, from, arrivals);
  }

  /** Digits over SRTP. When the packets recovered are in turn, what is reported is the digits reached,
      once each and in order; every digit pressed, when each has a packet recovered. */
  lemma SrtpDigitsArrive(s: Sender, calls: seq<Call>, keys: S.Keys, r: R.Receiver,
                         rx: seq<T.Source<S.RecvState>>, from: Address, arrivals: seq<Arrival>)
    requires SrtpRun(s, calls, keys, r, rx, from, arrivals) && Memory(s, r).None?
    requires InTurn(s, Presses(s, calls), Recovered(r, Datagrams(s, calls), from, Tags(s, calls), arrivals))
    ensures var ms := Recovered(r, Datagrams(s, calls), from, Tags(s, calls), arrivals);
            var events := Reported(r, Datagrams(s, calls), from, arrivals);
            && SaysUpTo(s, calls, events, Reach(ms))
            && (Complete(Presses(s, calls), ms) ==> SaysUpTo(s, calls, events, |Presses(s, calls)|))
  {
    hide Presses, Packets, Tags, Datagrams, InTurn, Heeded, Reach, SaysUpTo, FreshSender, AllBelow, Reported, Recovered,
         Complete, Agree, SrtpTimely, T.Lookup, RR.Valid, Comes, StreamSender.Valid;
    ValidIfFresh(s);
    SrtpReports(s, calls, keys, r, rx, from, arrivals);
    InTurnSaysDigits(s, calls, Recovered(r, Datagrams(s, calls), from, Tags(s, calls), arrivals));
  }

  /** Every digit queued, over SRTP on whole clocks. */
  lemma SrtpEveryDigit(s: Sender, calls: seq<Call>, keys: S.Keys, r: R.Receiver,
                       rx: seq<T.Source<S.RecvState>>, from: Address, arrivals: seq<Arrival>)
    requires SrtpRun(s, calls, keys, r, rx, from, arrivals) && Memory(s, r).None?
    requires WholeClocks(s.config) && AllNear(s, Presses(s, calls)) && After(s, calls).dtmf == []
    requires var ms := Recovered(r, Datagrams(s, calls), from, Tags(s, calls), arrivals);
             NoneAhead(Presses(s, calls), ms) && Complete(Presses(s, calls), ms)
    ensures Said(Reported(r, Datagrams(s, calls), from, arrivals)) == QueuedDigits(s.config, calls)
  {
    hide Presses, Packets, Tags, Datagrams, InTurn, Reach, FreshSender, Reported, Recovered, Complete, AllNear, NoneAhead,
         Agree, RR.Valid, Comes, StreamSender.Valid, WholeClocks, QueuedDigits, Said, After, SrtpTimely, T.Lookup;
    ValidIfFresh(s);
    PressesAreInOrder(s, calls);
    InTurnOnWholeClocks(s, Presses(s, calls), Recovered(r, Datagrams(s, calls), from, Tags(s, calls), arrivals));
    SrtpDigitsArrive(s, calls, keys, r, rx, from, arrivals);
  }
}
