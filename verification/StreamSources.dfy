/** Digits from one source after another: a new SSRC starts from nothing, whatever was heard before. */
module StreamSources {
  import opened Bytes
  import opened StreamConfig
  import opened StreamSender
  import opened StreamSenderRuns
  import opened StreamDtmf
  import opened StreamNetwork
  import opened StreamDtmfEndToEnd
  import R = StreamReceiver
  import RR = StreamReceiverRuns
  import H = RtpHeader
  import S = Srtp
  import J = Jitter

  // ----- One datagram, from anywhere

  /** What a datagram that is taken carries. */
  ghost function Carried(r: R.Receiver, e: RR.Event): R.Content
    requires RR.Takes(r, e)
  {
    TakenIsClear(r, e);
    R.ContentOf(r.config, R.Decrypted(r, e.bytes).1.value)
  }

  lemma TakenIsClear(r: R.Receiver, e: RR.Event)
    requires RR.Takes(r, e)
    ensures R.Decrypted(r, e.bytes).1.Ok? && R.Decrypted(r, e.bytes).1.value != []
    ensures !R.ContentOf(r.config, R.Decrypted(r, e.bytes).1.value).Bad?
  {
    hide R.IsRtcp, R.Trusts, R.IsNewer, DtmfDigit, S.UnprotectRtp, R.ContentOf, J.Pushed;
  }

  ghost function SsrcOf(r: R.Receiver, e: RR.Event): u32
    requires RR.Takes(r, e)
  {
    var content := Carried(r, e);
    match content
    case Audio(header, _) => header.ssrc
    case Event(header, _) => header.ssrc
    case Bad(_) => 0
  }

  /** A telephone event with the code of a digit. */
  ghost predicate IsDigit(r: R.Receiver, e: RR.Event) {
    RR.Takes(r, e) && Carried(r, e).Event? && Carried(r, e).payload[0] <= 15
  }

  ghost predicate Reports(r: R.Receiver, e: RR.Event) {
    RR.Takes(r, e) && RR.VerdictOn(r, e).digit.Some?
  }

  /** When an event is of a digit, its time. */
  ghost function TimeOf(r: R.Receiver, e: RR.Event): u32
    requires IsDigit(r, e)
  {
    Carried(r, e).header.timestamp
  }

  /** One event and the memory of digits: what is taken from another source than the last starts from nothing. */
  lemma StepHears(r: R.Receiver, e: RR.Event)
    requires RR.Valid(r)
    ensures Reports(r, e) ==> IsDigit(r, e) && RR.Takes(r, e)
    ensures var after := RR.Step(r, e);
            if !RR.Takes(r, e) then after.remoteSsrc == r.remoteSsrc && after.lastDtmfTimestamp == r.lastDtmfTimestamp
            else
              && after.remoteSsrc == Some(SsrcOf(r, e))
              && var memory := if r.remoteSsrc.Some? && r.remoteSsrc != after.remoteSsrc then None else r.lastDtmfTimestamp;
              && (Reports(r, e) <==> IsDigit(r, e) && (memory.None? || R.IsNewer(TimeOf(r, e), memory.value)))
              && after.lastDtmfTimestamp == if Reports(r, e) then Some(TimeOf(r, e)) else memory
  {
    if e.Tick? {
      TickHears(r, e);
    } else if RR.Takes(r, e) {
      TakenHears(r, e);
    } else {
      RefusedHears(r, e);
    }
    hide RR.Takes, Reports, RR.Step, IsDigit;
  }

  lemma TickHears(r: R.Receiver, e: RR.Event)
    requires RR.Valid(r) && e.Tick?
    ensures var after := RR.Step(r, e);
            !RR.Takes(r, e) && after.remoteSsrc == r.remoteSsrc && after.lastDtmfTimestamp == r.lastDtmfTimestamp
  {
    hide J.Popped, R.TimesOut, J.Valid, RR.Valid;
  }

  lemma RefusedHears(r: R.Receiver, e: RR.Event)
    requires RR.Valid(r) && e.Datagram? && !RR.Takes(r, e)
    ensures var after := RR.Step(r, e);
            after.remoteSsrc == r.remoteSsrc && after.lastDtmfTimestamp == r.lastDtmfTimestamp
  {
    hide R.IsRtcp, R.Trusts, R.IsNewer, S.UnprotectRtp, R.ContentOf, J.Pushed, J.Valid, RR.Valid;
  }

  lemma TakenHears(r: R.Receiver, e: RR.Event)
    requires RR.Valid(r) && RR.Takes(r, e)
    ensures var after := RR.Step(r, e);
            && after.remoteSsrc == Some(SsrcOf(r, e))
            && var memory := if r.remoteSsrc.Some? && r.remoteSsrc != after.remoteSsrc then None else r.lastDtmfTimestamp;
            && (Reports(r, e) <==> IsDigit(r, e) && (memory.None? || R.IsNewer(TimeOf(r, e), memory.value)))
            && after.lastDtmfTimestamp == if Reports(r, e) then Some(TimeOf(r, e)) else memory
  {
    hide R.IsRtcp, R.Trusts, R.IsNewer, S.UnprotectRtp, R.ContentOf, J.Pushed, J.Valid, RR.Valid;
    TakenIsClear(r, e);
    DigitCodes();
  }

  lemma DigitCodes()
    ensures forall code: byte :: DtmfDigit(code).Some? <==> code <= 15
  {
  }

  /** A digit from another source than the last is reported, whatever its timestamp. */
  lemma NewSourceIsHeard(r: R.Receiver, e: RR.Event)
    requires RR.Valid(r) && IsDigit(r, e) && r.remoteSsrc.Some? && r.remoteSsrc.value != SsrcOf(r, e)
    ensures RR.VerdictOn(r, e).digit == Some(R.DtmfEvent(DtmfDigit(Carried(r, e).payload[0]).value, Carried(r, e).payload[0]))
  {
    hide R.IsRtcp, R.Trusts, R.IsNewer, S.UnprotectRtp, R.ContentOf, J.Pushed, J.Valid, RR.Valid;
    TakenIsClear(r, e);
    DigitCodes();
  }

  /** So does everything else: playout stops, the jitter buffer is as new but for the packet itself, and the change is
      counted. */
  lemma NewSourceStartsOver(r: R.Receiver, e: RR.Event)
    requires RR.Valid(r) && RR.Takes(r, e) && r.remoteSsrc.Some? && r.remoteSsrc.value != SsrcOf(r, e)
    ensures var after, content := RR.Step(r, e), Carried(r, e);
            && !after.playing && after.stats.ssrcChanges == r.stats.ssrcChanges + 1
            && after.jitter == if content.Audio?
                               then J.Pushed(J.New(r.jitter.config), content.header.sequence, content.header.timestamp,
                                             content.payload, e.now).0
                               else J.New(r.jitter.config)
  {
    hide R.IsRtcp, R.Trusts, R.IsNewer, S.UnprotectRtp, R.ContentOf, J.Pushed, J.Valid, RR.Valid, J.New;
    TakenIsClear(r, e);
  }

  // ----- Any run

  ghost predicate ReportsAt(r: R.Receiver, events: seq<RR.Event>, n: nat)
    requires RR.Valid(r) && n < |events|
  {
    Reports(RR.After(r, events[..n]), events[n])
  }

  ghost predicate IsDigitAt(r: R.Receiver, events: seq<RR.Event>, n: nat)
    requires RR.Valid(r) && n < |events|
  {
    IsDigit(RR.After(r, events[..n]), events[n])
  }

  ghost function TimeAt(r: R.Receiver, events: seq<RR.Event>, n: nat): u32
    requires RR.Valid(r) && n < |events| && IsDigitAt(r, events, n)
  {
    TimeOf(RR.After(r, events[..n]), events[n])
  }

  /** The event is refused, or comes from this source. */
  ghost predicate Stays(r: R.Receiver, events: seq<RR.Event>, n: nat, ssrc: u32)
    requires RR.Valid(r) && n < |events|
  {
    RR.TakenAt(r, events, n) ==> SsrcOf(RR.After(r, events[..n]), events[n]) == ssrc
  }

  /** Event `m` is the last report before `n`, and of the same source as everything taken since. */
  ghost predicate IsLastReport(r: R.Receiver, events: seq<RR.Event>, m: nat, n: nat, ssrc: u32)
    requires RR.Valid(r) && m < n <= |events|
  {
    && ReportsAt(r, events, m) && (forall i :: m <= i < n ==> Stays(r, events, i, ssrc))
    && forall i :: m < i < n ==> !ReportsAt(r, events, i)
  }

  /** So it is, and its digit was pressed at `t`. */
  ghost predicate IsLastAt(r: R.Receiver, events: seq<RR.Event>, m: nat, n: nat, ssrc: u32, t: u32)
    requires RR.Valid(r) && n <= |events|
  {
    m < n && IsLastReport(r, events, m, n, ssrc) && IsDigitAt(r, events, m) && TimeAt(r, events, m) == t
  }

  ghost predicate NoLastReport(r: R.Receiver, events: seq<RR.Event>, n: nat, ssrc: u32)
    requires RR.Valid(r) && n <= |events|
  {
    forall m :: 0 <= m < n ==> !IsLastReport(r, events, m, n, ssrc)
  }

  ghost predicate LastIs(r: R.Receiver, events: seq<RR.Event>, n: nat, ssrc: u32, last: Option<u32>)
    requires RR.Valid(r) && n <= |events|
  {
    match last
    case None => NoLastReport(r, events, n, ssrc)
    case Some(t) => exists m: nat :: IsLastAt(r, events, m, n, ssrc, t)
  }

  /** The receiver remembers the last report of its source, and nothing of any other. */
  ghost predicate Recalls(r: R.Receiver, events: seq<RR.Event>, n: nat)
    requires RR.Valid(r) && n <= |events|
  {
    var now := RR.After(r, events[..n]);
    match now.remoteSsrc
    case None => now.lastDtmfTimestamp.None? && forall m :: 0 <= m < n ==> !RR.TakenAt(r, events, m)
    case Some(ssrc) => LastIs(r, events, n, ssrc, now.lastDtmfTimestamp)
  }

  /** The source is whoever all that was taken since some time is of. */
  lemma {:induction false} SourceIs(r: R.Receiver, events: seq<RR.Event>, m: nat, n: nat, ssrc: u32)
    requires RR.Valid(r) && m < n <= |events| && RR.TakenAt(r, events, m)
    requires forall i :: m <= i < n ==> Stays(r, events, i, ssrc)
    ensures RR.After(r, events[..n]).remoteSsrc == Some(ssrc)
    decreases n
  {
    hide RR.After, RR.Step, IsDigit, RR.Valid, Reports, TimeOf, SsrcOf, RR.Takes;
    var k := n - 1;
    RR.OneMore(r, events, k);
    StepHears(RR.After(r, events[..k]), events[k]);
    assert Stays(r, events, k, ssrc);
    if m < k { SourceIs(r, events, m, k, ssrc); }
  }

  lemma ReportsAreDigits(r: R.Receiver, events: seq<RR.Event>, n: nat)
    requires RR.Valid(r) && n < |events| && ReportsAt(r, events, n)
    ensures IsDigitAt(r, events, n) && RR.TakenAt(r, events, n)
  {
    hide RR.After, RR.Valid;
    StepHears(RR.After(r, events[..n]), events[n]);
  }

  /** A report is the last. */
  lemma ReportsNow(r: R.Receiver, events: seq<RR.Event>, n: nat, ssrc: u32, t: u32)
    requires RR.Valid(r) && n < |events| && ReportsAt(r, events, n) && Stays(r, events, n, ssrc)
    requires IsDigitAt(r, events, n) && TimeAt(r, events, n) == t
    ensures LastIs(r, events, n + 1, ssrc, Some(t))
  {
    hide RR.After, RR.Valid, TimeAt, IsDigitAt, ReportsAt, Stays;
    assert IsLastAt(r, events, n, n + 1, ssrc, t);
  }

  lemma LastWasLast(r: R.Receiver, events: seq<RR.Event>, m: nat, n: nat, ssrc: u32)
    requires RR.Valid(r) && m < n < |events| && Stays(r, events, n, ssrc) && !ReportsAt(r, events, n)
    ensures IsLastReport(r, events, m, n + 1, ssrc) <==> IsLastReport(r, events, m, n, ssrc)
  {
    hide RR.After, RR.Valid, ReportsAt, Stays;
  }

  /** What is no report, and of the same source or refused, leaves the last as it was. */
  lemma LastStays(r: R.Receiver, events: seq<RR.Event>, n: nat, ssrc: u32, last: Option<u32>)
    requires RR.Valid(r) && n < |events| && Stays(r, events, n, ssrc) && !ReportsAt(r, events, n)
    requires LastIs(r, events, n, ssrc, last)
    ensures LastIs(r, events, n + 1, ssrc, last)
  {
    hide RR.After, RR.Valid, TimeAt, IsDigitAt, ReportsAt, Stays, IsLastReport;
    var next := n + 1;
    match last
    case None =>
      forall m | 0 <= m < next ensures !IsLastReport(r, events, m, next, ssrc) {
        if m < n { LastWasLast(r, events, m, n, ssrc); } else { NotLast(r, events, n, ssrc); }
      }
    case Some(t) =>
      var m: nat :| IsLastAt(r, events, m, n, ssrc, t);
      LastWasLast(r, events, m, n, ssrc);
      assert IsLastAt(r, events, m, next, ssrc, t);
  }

  lemma NotLast(r: R.Receiver, events: seq<RR.Event>, n: nat, ssrc: u32)
    requires RR.Valid(r) && n < |events| && !ReportsAt(r, events, n)
    ensures !IsLastReport(r, events, n, n + 1, ssrc)
  {
  }

  lemma NoneOfAnother(r: R.Receiver, events: seq<RR.Event>, m: nat, n: nat, ssrc: u32)
    requires RR.Valid(r) && m < n <= |events| && RR.After(r, events[..n]).remoteSsrc != Some(ssrc)
    ensures !(ReportsAt(r, events, m) && forall i :: m <= i < n ==> Stays(r, events, i, ssrc))
  {
    hide RR.After, RR.Valid, ReportsAt, Stays, RR.TakenAt;
    if ReportsAt(r, events, m) && forall i :: m <= i < n ==> Stays(r, events, i, ssrc) {
      ReportsAreDigits(r, events, m);
      SourceIs(r, events, m, n, ssrc);
    }
  }

  /** When the source changes, nothing that was reported is of the new one. */
  lemma NoneFromBefore(r: R.Receiver, events: seq<RR.Event>, n: nat, ssrc: u32)
    requires RR.Valid(r) && n < |events| && !ReportsAt(r, events, n)
    requires RR.After(r, events[..n]).remoteSsrc != Some(ssrc)
    ensures LastIs(r, events, n + 1, ssrc, None)
  {
    hide RR.After, RR.Valid, ReportsAt, Stays, RR.TakenAt;
    var next := n + 1;
    forall m | 0 <= m < next ensures !IsLastReport(r, events, m, next, ssrc) {
      if m < n { NoneOfAnother(r, events, m, n, ssrc); }
    }
  }

  lemma RecallsNext(r: R.Receiver, events: seq<RR.Event>, n: nat)
    requires RR.Valid(r) && n < |events| && Recalls(r, events, n)
    ensures Recalls(r, events, n + 1)
  {
    hide RR.After, RR.Step, IsDigit, RR.Valid, Reports, TimeOf, SsrcOf, LastIs, RR.Takes;
    var before, e := RR.After(r, events[..n]), events[n];
    RR.OneMore(r, events, n);
    StepHears(before, e);
    var after := RR.Step(before, e);
    if after.remoteSsrc.Some? {
      var ssrc := after.remoteSsrc.value;
      if ReportsAt(r, events, n) {
        ReportsAreDigits(r, events, n);
        ReportsNow(r, events, n, ssrc, after.lastDtmfTimestamp.value);
      } else if before.remoteSsrc == after.remoteSsrc {
        LastStays(r, events, n, ssrc, before.lastDtmfTimestamp);
      } else {
        NoneFromBefore(r, events, n, ssrc);
      }
    }
  }

  lemma RunRecalls(config: Config, srtp: Option<R.Inbound>, events: seq<RR.Event>, n: nat)
    requires ValidConfig(config) && n <= |events|
    ensures RR.Valid(R.NewReceiver(config, srtp)) && Recalls(R.NewReceiver(config, srtp), events, n)
  {
    RR.NewIsValid(config, srtp);
    RunRecallsFrom(R.NewReceiver(config, srtp), events, n);
  }

  lemma {:induction false} RunRecallsFrom(r: R.Receiver, events: seq<RR.Event>, n: nat)
    requires RR.Valid(r) && r.remoteSsrc.None? && r.lastDtmfTimestamp.None? && n <= |events|
    ensures Recalls(r, events, n)
  {
    hide RR.Valid, Recalls;
    if n == 0 {
      RecallsAtFirst(r, events);
    } else {
      RunRecallsFrom(r, events, n - 1);
      RecallsNext(r, events, n - 1);
    }
  }

  lemma RecallsAtFirst(r: R.Receiver, events: seq<RR.Event>)
    requires RR.Valid(r) && r.remoteSsrc.None? && r.lastDtmfTimestamp.None?
    ensures Recalls(r, events, 0)
  {
    RR.AtFirst(r, events);
    hide RR.After;
  }

  /** Over any datagrams from anywhere: a digit taken is reported exactly when it is newer than the last report of its
      source, if there is one and nothing from another source was taken since. */
  lemma ReportedIff(config: Config, srtp: Option<R.Inbound>, events: seq<RR.Event>, n: nat)
    requires ValidConfig(config) && n < |events|
    ensures RR.Valid(R.NewReceiver(config, srtp))
    ensures var r := R.NewReceiver(config, srtp);
            IsDigitAt(r, events, n) ==>
              var ssrc := SsrcOf(RR.After(r, events[..n]), events[n]);
              (ReportsAt(r, events, n) <==>
                 forall m :: 0 <= m < n && IsLastReport(r, events, m, n, ssrc) ==>
                   IsDigitAt(r, events, m) && R.IsNewer(TimeAt(r, events, n), TimeAt(r, events, m)))
  {
    RunRecalls(config, srtp, events, n);
    hide RR.After, RR.Valid, R.IsNewer, R.NewReceiver, IsLastReport;
    var r := R.NewReceiver(config, srtp);
    if IsDigitAt(r, events, n) {
      DigitIsHeard(r, events, n);
    }
  }

  lemma DigitIsHeard(r: R.Receiver, events: seq<RR.Event>, n: nat)
    requires RR.Valid(r) && n < |events| && IsDigitAt(r, events, n) && Recalls(r, events, n)
    ensures var ssrc := SsrcOf(RR.After(r, events[..n]), events[n]);
            (ReportsAt(r, events, n) <==>
               forall m :: 0 <= m < n && IsLastReport(r, events, m, n, ssrc) ==>
                 IsDigitAt(r, events, m) && R.IsNewer(TimeAt(r, events, n), TimeAt(r, events, m)))
  {
    hide RR.After, RR.Step, RR.Valid, R.IsNewer, SsrcOf, TimeOf;
    var now, ssrc := RR.After(r, events[..n]), SsrcOf(RR.After(r, events[..n]), events[n]);
    StepHears(now, events[n]);
    if now.remoteSsrc == Some(ssrc) {
      OnlyOneIsLast(r, events, n, ssrc);
    } else {
      forall m | 0 <= m < n ensures !IsLastReport(r, events, m, n, ssrc) {
        NoneOfAnother(r, events, m, n, ssrc);
      }
    }
  }

  lemma OnlyOneIsLast(r: R.Receiver, events: seq<RR.Event>, n: nat, ssrc: u32)
    requires RR.Valid(r) && n <= |events|
    ensures forall i, j :: 0 <= i < n && 0 <= j < n ==>
              IsLastReport(r, events, i, n, ssrc) && IsLastReport(r, events, j, n, ssrc) ==> i == j
  {
    hide RR.After, RR.Valid, ReportsAt, Stays;
  }

  // ----- One sender after another

  /** A stretch of a run: the packets of one sender, in any order, among strays and ticks. */
  datatype Segment = Segment(s: Sender, calls: seq<Call>, from: Address, arrivals: seq<Arrival>)

  ghost function HearingOne(r: R.Receiver, g: Segment): (after: R.Receiver)
    requires RR.Valid(r) && Valid(g.s)
    ensures RR.Valid(after) && after.config == r.config
  {
    Hearing(r, Datagrams(g.s, g.calls), g.from, g.arrivals)
  }

  ghost predicate AllSound(segments: seq<Segment>) {
    forall i :: 0 <= i < |segments| ==> FreshSender(segments[i].s)
  }

  ghost function HearingAll(r: R.Receiver, segments: seq<Segment>): (after: R.Receiver)
    requires RR.Valid(r) && AllSound(segments)
    ensures RR.Valid(after) && after.config == r.config
  {
    if segments == [] then r
    else
      var n := |segments| - 1;
      HearingOne(HearingAll(r, segments[..n]), segments[n])
  }

  /** What is reported in a stretch, and in all of them. */
  ghost function ReportedIn(r: R.Receiver, g: Segment): seq<R.DtmfEvent>
    requires RR.Valid(r) && Valid(g.s)
  {
    Reported(r, Datagrams(g.s, g.calls), g.from, g.arrivals)
  }

  ghost function ReportedAll(r: R.Receiver, segments: seq<Segment>): seq<R.DtmfEvent>
    requires RR.Valid(r) && AllSound(segments)
  {
    if segments == [] then []
    else
      var n := |segments| - 1;
      ReportedAll(r, segments[..n]) + ReportedIn(HearingAll(r, segments[..n]), segments[n])
  }

  /** The presses a stretch brings, packet by packet. */
  ghost function BroughtIn(r: R.Receiver, g: Segment): seq<nat>
    requires RR.Valid(r) && Valid(g.s)
  {
    Recovered(r, Datagrams(g.s, g.calls), g.from, Tags(g.s, g.calls), g.arrivals)
  }

  /** The network carries this stretch to a receiver that has negotiated the same. */
  ghost predicate Reaches(r: R.Receiver, g: Segment)
    requires RR.Valid(r) && Valid(g.s)
  {
    && Agree(g.s, r, g.from) && |Packets(g.s, g.calls)| == |Datagrams(g.s, g.calls)|
    && AllCarried(Packets(g.s, g.calls), r, Datagrams(g.s, g.calls), g.from, g.arrivals)
  }

  /** Some packet of it is recovered. */
  ghost predicate IsHeardAt(r: R.Receiver, g: Segment, j: nat)
    requires RR.Valid(r) && Valid(g.s) && j < |g.arrivals|
  {
    && g.arrivals[j].Sent? && g.arrivals[j].n < |Datagrams(g.s, g.calls)|
    && Recovers(Hearing(r, Datagrams(g.s, g.calls), g.from, g.arrivals[..j]), Datagrams(g.s, g.calls)[g.arrivals[j].n])
  }

  ghost predicate IsHeard(r: R.Receiver, g: Segment)
    requires RR.Valid(r) && Valid(g.s)
  {
    exists j :: 0 <= j < |g.arrivals| && IsHeardAt(r, g, j)
  }

  /** Every stretch reaches the receiver, and is of another source than the one before, of which something was
      heard. */
  ghost predicate InStretches(r: R.Receiver, segments: seq<Segment>, n: nat)
    requires RR.Valid(r) && AllSound(segments) && n < |segments|
  {
    && Reaches(HearingAll(r, segments[..n]), segments[n])
    && (n > 0 ==> segments[n].s.ssrc != segments[n - 1].s.ssrc && IsHeard(HearingAll(r, segments[..n - 1]), segments[n - 1]))
  }

  /** Once a packet of a stretch is recovered, the source is its sender. */
  ghost predicate FromSender(r: R.Receiver, g: Segment, j: nat)
    requires RR.Valid(r) && Valid(g.s) && j <= |g.arrivals|
  {
    var now := Hearing(r, Datagrams(g.s, g.calls), g.from, g.arrivals[..j]);
    && Agree(g.s, now, g.from)
    && ((exists i :: 0 <= i < j && IsHeardAt(r, g, i)) ==> now.remoteSsrc == Some(g.s.ssrc))
  }

  lemma {:induction false} SourceIsSender(r: R.Receiver, g: Segment, j: nat)
    requires RR.Valid(r) && Valid(g.s) && FreshSender(g.s) && Reaches(r, g) && j <= |g.arrivals|
    ensures FromSender(r, g, j)
  {
    hide FromSender, Reaches, RR.Valid, StreamSender.Valid, FreshSender;
    if j == 0 {
      FromSenderAtFirst(r, g);
    } else {
      SourceIsSender(r, g, j - 1);
      FromSenderNext(r, g, j - 1);
    }
  }

  lemma FromSenderAtFirst(r: R.Receiver, g: Segment)
    requires RR.Valid(r) && Valid(g.s) && Reaches(r, g)
    ensures FromSender(r, g, 0)
  {
    hide Packets, Datagrams, Agree, RR.Valid, StreamSender.Valid, AllCarried, Tags;
    NothingHeard(r, Datagrams(g.s, g.calls), g.from, Tags(g.s, g.calls));
    assert g.arrivals[..0] == [];
  }

  lemma FromSenderNext(r: R.Receiver, g: Segment, j: nat)
    requires RR.Valid(r) && Valid(g.s) && FreshSender(g.s) && Reaches(r, g) && j < |g.arrivals| && FromSender(r, g, j)
    ensures FromSender(r, g, j + 1)
  {
    hide Datagrams, Agree, RR.Valid, StreamSender.Valid, FreshSender, Hearing, IsHeardAt, Reaches;
    SenderNext(r, g, j);
  }

  lemma SenderNext(r: R.Receiver, g: Segment, j: nat)
    requires RR.Valid(r) && FreshSender(g.s) && Reaches(r, g) && j < |g.arrivals|
    requires Agree(g.s, Hearing(r, Datagrams(g.s, g.calls), g.from, g.arrivals[..j]), g.from)
    ensures var datagrams := Datagrams(g.s, g.calls);
            var before := Hearing(r, datagrams, g.from, g.arrivals[..j]);
            var after := Hearing(r, datagrams, g.from, g.arrivals[..j + 1]);
            && Agree(g.s, after, g.from)
            && after.remoteSsrc == if IsHeardAt(r, g, j) then Some(g.s.ssrc) else before.remoteSsrc
  {
    hide Presses, Packets, Tags, Datagrams, Agree, RR.Valid, RR.Step, StreamSender.Valid, FreshSender, Hearing, Brought, AllFit,
         InOrder, SameSsrc, AsEvent, ReportOf, TagNow, Heeds, Stamp, EventFor, Recovers, R.Decrypted;
    ValidIfFresh(g.s);
    var presses, packets := Presses(g.s, g.calls), Packets(g.s, g.calls);
    var tags, datagrams := Tags(g.s, g.calls), Datagrams(g.s, g.calls);
    var before := Hearing(r, datagrams, g.from, g.arrivals[..j]);
    RunFits(g.s, g.calls);
    OneMoreArrival(r, datagrams, g.from, tags, g.arrivals, j);
    assert CarriesAt(packets, r, datagrams, g.from, g.arrivals, j);
    SentIsBelow(packets, before, datagrams, g.arrivals[j]);
    HearsArrival(g.s, presses, packets, tags, before, datagrams, g.from, g.arrivals[j]);
  }

  lemma SentIsBelow(packets: seq<H.Packet>, r: R.Receiver, datagrams: seq<seq<byte>>, a: Arrival)
    requires |packets| == |datagrams| && Brought(packets, r, datagrams, a)
    ensures a.Sent? ==> a.n < |datagrams|
  {
  }

  /** Stretch by stretch, what is reported is what is heeded of that stretch alone, as by a receiver that has heard
      nothing before. */
  lemma StretchByStretch(r: R.Receiver, segments: seq<Segment>, n: nat)
    requires RR.Valid(r) && AllSound(segments) && n < |segments| && Memory(segments[0].s, r).None?
    requires forall i :: 0 <= i < |segments| ==> InStretches(r, segments, i)
    ensures var now, g := HearingAll(r, segments[..n]), segments[n];
            var presses, ms := Presses(g.s, g.calls), BroughtIn(now, g);
            && InOrder(presses) && AllBelow(ms, |presses|)
            && ReportedIn(now, g) == EventsAt(presses, Heeded(g.s, presses, ms))
  {
    hide Reaches, RR.Valid, IsHeard, HearingOne, Memory, FreshSender;
    assert InStretches(r, segments, n);
    if n > 0 {
      assert InStretches(r, segments, n - 1);
      assert segments[..n][..n - 1] == segments[..n - 1];
      ForgetsTheOther(HearingAll(r, segments[..n - 1]), segments[n - 1], segments[n].s);
    } else {
      assert segments[..0] == [];
    }
    StretchReports(HearingAll(r, segments[..n]), segments[n]);
  }

  lemma ForgetsTheOther(r: R.Receiver, g: Segment, s: Sender)
    requires RR.Valid(r) && FreshSender(g.s) && Reaches(r, g) && IsHeard(r, g) && s.ssrc != g.s.ssrc
    ensures Memory(s, HearingOne(r, g)).None?
  {
    hide Reaches, RR.Valid, FreshSender, IsHeardAt, Datagrams, StreamSender.Valid, Hearing, Agree;
    ValidIfFresh(g.s);
    SourceIsSender(r, g, |g.arrivals|);
    assert g.arrivals[..|g.arrivals|] == g.arrivals;
  }

  lemma StretchReports(r: R.Receiver, g: Segment)
    requires RR.Valid(r) && FreshSender(g.s) && Reaches(r, g) && Memory(g.s, r).None?
    ensures var presses, ms := Presses(g.s, g.calls), BroughtIn(r, g);
            && InOrder(presses) && AllBelow(ms, |presses|)
            && ReportedIn(r, g) == EventsAt(presses, Heeded(g.s, presses, ms))
  {
    hide Presses, Packets, Tags, Datagrams, Agree, RR.Valid, StreamSender.Valid, FreshSender, AllCarried, Recovered, Reported,
         Heeded, AllBelow, InOrder, Memory;
    ValidIfFresh(g.s);
    TaggedAll(g.s, g.calls);
    CarriedReports(g.s, g.calls, r, g.from, g.arrivals);
  }
}
