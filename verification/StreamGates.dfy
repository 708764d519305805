/** Which datagrams a stream refuses and as what, by their bytes and by what it has accepted before; and the counters
    that go by size and by source. */
module StreamGates {
  import opened Bytes
  import opened StreamConfig
  import opened StreamSources
  import R = StreamReceiver
  import RR = StreamReceiverRuns
  import S = Srtp
  import J = Jitter

  // ----- Gate by gate

  /** Twelve bytes of version 2. */
  predicate LooksLikeRtp(datagram: seq<byte>) {
    |datagram| >= 12 && 128 <= datagram[0] < 192
  }

  /** RTCP packet types 200 to 204, whose second byte RTP would read as a payload type of 72 to 76 (section 4 of
      RFC 5761). */
  predicate LooksLikeRtcp(datagram: seq<byte>)
    requires |datagram| >= 2
  {
    200 <= datagram[1] <= 204 || 72 <= datagram[1] <= 76
  }

  ghost function SrtpError(r: R.Receiver, datagram: seq<byte>): Option<S.Error> {
    match r.srtp
    case None => None
    case Some(inbound) =>
      match S.UnprotectRtp(inbound.keys, inbound.rx, datagram).1
      case Ok(_) => None
      case Err(error) => Some(error)
  }

  /** Each gate refuses what it does whatever the later ones would say. */
  lemma Gates(r: R.Receiver, datagram: seq<byte>, from: Address, now: int)
    ensures var verdict := R.Ingested(r, datagram, from, now).1;
            if !LooksLikeRtp(datagram) then verdict == R.Refused(R.Malformed)
            else if LooksLikeRtcp(datagram) then verdict == R.Refused(R.OtherPayload)
            else if !R.Trusts(r, from) then verdict == R.Refused(R.UnexpectedSource)
            else match SrtpError(r, datagram)
                 case Some(Replay) => verdict == R.Refused(R.Replayed)
                 case Some(_) => verdict == R.Refused(R.Unauthenticated)
                 case None => verdict.Taken? || verdict.why.Malformed? || verdict.why.OtherPayload?
  {
    hide S.UnprotectRtp, R.Consume, R.ContentOf, R.IsRtcp, LooksLikeRtp, LooksLikeRtcp;
    assert R.Decrypted(R.Started(r, now), datagram) == R.Decrypted(r, datagram);
    SecondByte(datagram);
    ConsumeTells(r, datagram, from, now);
  }

  lemma SecondByte(datagram: seq<byte>)
    ensures |datagram| >= 12 ==> (R.IsRtcp(datagram[1]) <==> LooksLikeRtcp(datagram))
    ensures LooksLikeRtp(datagram) <==> |datagram| >= 12 && datagram[0] / 0x40 == 2
  {
  }

  lemma ConsumeTells(r: R.Receiver, datagram: seq<byte>, from: Address, now: int)
    ensures forall q: R.Receiver, content: R.Content, size: nat :: (content.Event? ==> |content.payload| >= 4) ==>
              var verdict := R.Consume(q, content, size, from, now).1;
              if content.Bad? then verdict == R.Refused(content.why) else verdict.Taken?
  {
    hide R.IsNewer, DtmfDigit, J.Pushed;
  }

  /** Over any run: past the first two gates, a datagram is refused for its source exactly when another has been
      accepted before, or, without SRTP and before any is accepted, when it is not from the signalled host. */
  lemma SourceGate(config: Config, srtp: Option<R.Inbound>, events: seq<RR.Event>, n: nat)
    requires ValidConfig(config) && n < |events| && events[n].Datagram?
    requires LooksLikeRtp(events[n].bytes) && !LooksLikeRtcp(events[n].bytes)
    ensures RR.Valid(R.NewReceiver(config, srtp))
    ensures var r, e := R.NewReceiver(config, srtp), events[n];
            RR.VerdictOn(RR.After(r, events[..n]), e) == R.Refused(R.UnexpectedSource) <==>
              if exists m :: 0 <= m < n && RR.TakenAt(r, events, m)
              then exists m :: 0 <= m < n && RR.TakenAt(r, events, m) && events[m].from != e.from
              else srtp.None? && e.from.ip != config.remote.ip
  {
    RR.LatchIsTheSource(config, srtp, events, n);
    var r, e := R.NewReceiver(config, srtp), events[n];
    RR.SrtpStays(r, events, n);
    Gates(RR.After(r, events[..n]), e.bytes, e.from, e.now);
    hide R.Ingested, RR.Valid, RR.TakenAt, S.UnprotectRtp;
  }

  // ----- Sizes and sources

  lemma StepSizes(r: R.Receiver, e: RR.Event)
    requires RR.Valid(r)
    ensures var before, after := r.stats, RR.Step(r, e).stats;
            if RR.Takes(r, e) then
              && after.bytesReceived == before.bytesReceived + |e.bytes|
              && after.ssrcChanges == before.ssrcChanges
                 + if r.remoteSsrc.Some? && r.remoteSsrc.value != SsrcOf(r, e) then 1 else 0
            else after.bytesReceived == before.bytesReceived && after.ssrcChanges == before.ssrcChanges
  {
    if e.Tick? {
      TickSizes(r, e);
    } else if RR.Takes(r, e) {
      TakenSizes(r, e);
    } else {
      RefusedSizes(r, e);
    }
    hide RR.Takes, RR.Step;
  }

  lemma TickSizes(r: R.Receiver, e: RR.Event)
    requires RR.Valid(r) && e.Tick?
    ensures RR.Step(r, e).stats == r.stats && !RR.Takes(r, e)
  {
    hide J.Popped, R.TimesOut, J.Valid, RR.Valid;
  }

  lemma RefusedSizes(r: R.Receiver, e: RR.Event)
    requires RR.Valid(r) && e.Datagram? && !RR.Takes(r, e)
    ensures RR.Step(r, e).stats.bytesReceived == r.stats.bytesReceived
    ensures RR.Step(r, e).stats.ssrcChanges == r.stats.ssrcChanges
  {
    hide R.IsRtcp, R.Trusts, R.IsNewer, S.UnprotectRtp, R.ContentOf, J.Pushed, J.Valid, RR.Valid;
  }

  lemma TakenSizes(r: R.Receiver, e: RR.Event)
    requires RR.Valid(r) && RR.Takes(r, e)
    ensures RR.Step(r, e).stats.bytesReceived == r.stats.bytesReceived + |e.bytes|
    ensures RR.Step(r, e).stats.ssrcChanges == r.stats.ssrcChanges
            + if r.remoteSsrc.Some? && r.remoteSsrc.value != SsrcOf(r, e) then 1 else 0
  {
    hide R.IsRtcp, R.Trusts, R.IsNewer, S.UnprotectRtp, R.ContentOf, J.Pushed, J.Valid, RR.Valid;
    TakenIsClear(r, e);
  }

  /** The bytes of all that was taken. */
  ghost function BytesTaken(r: R.Receiver, events: seq<RR.Event>): nat
    requires RR.Valid(r)
  {
    if events == [] then 0
    else
      var n := |events| - 1;
      BytesTaken(r, events[..n]) + if RR.Takes(RR.After(r, events[..n]), events[n]) then |events[n].bytes| else 0
  }

  /** The source of the last datagram taken. */
  ghost function LastSource(r: R.Receiver, events: seq<RR.Event>): Option<u32>
    requires RR.Valid(r)
  {
    if events == [] then None
    else
      var n := |events| - 1;
      var before := RR.After(r, events[..n]);
      if RR.Takes(before, events[n]) then Some(SsrcOf(before, events[n])) else LastSource(r, events[..n])
  }

  /** How often that was not the source of the one before. */
  ghost function Changes(r: R.Receiver, events: seq<RR.Event>): nat
    requires RR.Valid(r)
  {
    if events == [] then 0
    else
      var n := |events| - 1;
      var earlier, later := LastSource(r, events[..n]), LastSource(r, events);
      Changes(r, events[..n]) + if earlier.Some? && earlier != later then 1 else 0
  }

  /** The counters of bytes and of changes of source are exact. */
  lemma {:induction false} SizesAreExact(r: R.Receiver, events: seq<RR.Event>, n: nat)
    requires RR.Valid(r) && r.remoteSsrc.None? && n <= |events|
    ensures var now, run := RR.After(r, events[..n]), events[..n];
            && now.remoteSsrc == LastSource(r, run)
            && now.stats.bytesReceived == r.stats.bytesReceived + BytesTaken(r, run)
            && now.stats.ssrcChanges == r.stats.ssrcChanges + Changes(r, run)
  {
    hide RR.Step, RR.Valid, RR.Takes, SsrcOf, RR.After, IsDigit, Reports;
    if n > 0 {
      assert events[..n][..n - 1] == events[..n - 1];
      SizesAreExact(r, events, n - 1);
      RR.OneMore(r, events, n - 1);
      StepSizes(RR.After(r, events[..n - 1]), events[n - 1]);
      StepHears(RR.After(r, events[..n - 1]), events[n - 1]);
    } else {
      RR.AtFirst(r, events);
    }
  }
}
