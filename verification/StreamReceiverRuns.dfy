/** Whole runs of a receiver: any datagrams from anywhere, and playout ticks, in any order. */
module StreamReceiverRuns {
  import opened Bytes
  import opened StreamConfig
  import opened StreamReceiver
  import J = Jitter
  import JR = JitterRuns
  import S = Srtp
  import P = SrtpReplay
  import E = SrtpEndToEnd

  datatype Event =
    | Datagram(bytes: seq<byte>, from: Address, now: int)
    | Tick(now: int, wanted: u32, decoded: seq<int>)

  ghost predicate Valid(r: Receiver) {
    ValidConfig(r.config) && r.jitter.config == JitterConfig(r.config) && J.Valid(r.jitter)
  }

  lemma IngestKeepsValid(r: Receiver, datagram: seq<byte>, from: Address, now: int)
    requires Valid(r)
    ensures var after := Ingested(r, datagram, from, now).0; Valid(after) && after.config == r.config
  {
    hide J.Valid, J.Pushed, IsRtcp, Trusts, Decrypted, IsNewer, DtmfDigit;
    J.NewIsValid(r.jitter.config);
    forall b: J.Buffer, s: u16, timestamp: u32, payload: seq<byte> | J.Valid(b)
      ensures J.Valid(J.Pushed(b, s, timestamp, payload, now).0)
              && J.Pushed(b, s, timestamp, payload, now).0.config == b.config
    {
      J.PushKeepsValid(b, s, timestamp, payload, now);
      PushKeepsConfig(b, s, timestamp, payload, now);
    }
  }

  lemma PushKeepsConfig(b: J.Buffer, s: u16, timestamp: u32, payload: seq<byte>, now: int)
    ensures J.Pushed(b, s, timestamp, payload, now).0.config == b.config
  {
    hide J.NextCycles, J.Extended;
  }

  lemma PlayKeepsValid(r: Receiver, now: int, wanted: u32, decoded: seq<int>)
    requires Valid(r)
    ensures var after := Played(r, now, wanted, decoded).0; Valid(after) && after.config == r.config
  {
    hide J.Valid, J.Target, J.Adapted, TimesOut;
    assert J.ValidMode(r.jitter.config.mode);
    J.PopKeepsValid(r.jitter, now, wanted);
  }

  ghost function Step(r: Receiver, e: Event): (after: Receiver)
    requires Valid(r)
    ensures Valid(after) && after.config == r.config
  {
    match e
    case Datagram(bytes, from, now) =>
      IngestKeepsValid(r, bytes, from, now);
      Ingested(r, bytes, from, now).0
    case Tick(now, wanted, decoded) =>
      PlayKeepsValid(r, now, wanted, decoded);
      Played(r, now, wanted, decoded).0
  }

  /** A stream is valid from the start and stays so: its jitter buffer never holds more than its
      bound, nor anything behind the playout position. */
  ghost function After(r: Receiver, events: seq<Event>): (after: Receiver)
    requires Valid(r)
    ensures Valid(after) && after.config == r.config
  {
    if events == [] then r else Step(After(r, events[..|events| - 1]), events[|events| - 1])
  }

  lemma OneMore(r: Receiver, events: seq<Event>, n: nat)
    requires Valid(r) && n < |events|
    ensures After(r, events[..n + 1]) == Step(After(r, events[..n]), events[n])
  {
    assert events[..n + 1][..n] == events[..n];
  }

  lemma AtFirst(r: Receiver, events: seq<Event>)
    requires Valid(r)
    ensures After(r, events[..0]) == r
  {
  }

  lemma NewIsValid(config: Config, srtp: Option<Inbound>)
    requires ValidConfig(config)
    ensures Valid(NewReceiver(config, srtp))
  {
  }

  /** What came of a datagram. */
  ghost function VerdictOn(r: Receiver, e: Event): Verdict
    requires e.Datagram?
  {
    Ingested(r, e.bytes, e.from, e.now).1
  }

  ghost predicate Takes(r: Receiver, e: Event) {
    e.Datagram? && VerdictOn(r, e).Taken?
  }

  ghost predicate TakenAt(r: Receiver, events: seq<Event>, n: nat)
    requires Valid(r) && n < |events|
  {
    Takes(After(r, events[..n]), events[n])
  }

  /** What admission does beside the jitter buffer and the digits: nothing when it refuses; and when
      it takes the datagram, it latches, counts and notes the time. */
  ghost predicate Effects(r: Receiver, after: Receiver, verdict: Verdict, from: Address, now: int) {
    if verdict.Refused? then after == r.(srtp := after.srtp) && after.srtp.Some? == r.srtp.Some?
    else
      && Trusts(r, from) && after.srtp.Some? == r.srtp.Some?
      && after.stats == r.stats.(latched := Some(from), packetsReceived := r.stats.packetsReceived + 1,
                                 bytesReceived := after.stats.bytesReceived, ssrcChanges := after.stats.ssrcChanges)
      && after.started == r.started && after.lastPacket == Some(now) && after.lastTimeout == r.lastTimeout
      && r.stats.ssrcChanges <= after.stats.ssrcChanges
      && (r.stats.ssrcChanges == after.stats.ssrcChanges ==> after.playing == r.playing)
  }

  lemma AdmitEffects(r: Receiver, datagram: seq<byte>, from: Address, now: int)
    ensures var (after, verdict) := Admitted(r, datagram, from, now); Effects(r, after, verdict, from, now)
  {
    hide J.Pushed, IsRtcp, S.UnprotectRtp, IsNewer, DtmfDigit, ContentOf;
  }

  // ----- Counting

  /** The counter a verdict moves: a reason, or acceptance. */
  function Kind(v: Verdict): Option<Dropped> {
    if v.Refused? then Some(v.why) else None
  }

  function Counter(stats: Stats, kind: Option<Dropped>): nat {
    match kind
    case None => stats.packetsReceived
    case Some(Malformed) => stats.malformed
    case Some(Unauthenticated) => stats.unauthenticated
    case Some(Replayed) => stats.replayed
    case Some(UnexpectedSource) => stats.source
    case Some(OtherPayload) => stats.payload
  }

  ghost predicate Moves(r: Receiver, e: Event, kind: Option<Dropped>) {
    e.Datagram? && Kind(VerdictOn(r, e)) == kind
  }

  lemma StepCounts(r: Receiver, e: Event, kind: Option<Dropped>)
    requires Valid(r)
    ensures Counter(Step(r, e).stats, kind) == Counter(r.stats, kind) + if Moves(r, e, kind) then 1 else 0
  {
    hide J.Valid, J.Popped, Trusts, TimesOut, Admitted;
    if e.Datagram? { AdmitEffects(Started(r, e.now), e.bytes, e.from, e.now); }
  }

  /** How many datagrams came to that. */
  ghost function Times(r: Receiver, events: seq<Event>, kind: Option<Dropped>): nat
    requires Valid(r)
  {
    if events == [] then 0
    else
      var n := |events| - 1;
      Times(r, events[..n], kind) + if Moves(After(r, events[..n]), events[n], kind) then 1 else 0
  }

  function Datagrams(events: seq<Event>): nat {
    if events == [] then 0
    else Datagrams(events[..|events| - 1]) + if events[|events| - 1].Datagram? then 1 else 0
  }

  function Total(stats: Stats): nat {
    stats.packetsReceived + stats.malformed + stats.unauthenticated + stats.replayed + stats.source + stats.payload
  }

  /** Each counter has counted exactly the datagrams of its kind, and between them all of them. */
  lemma {:induction false} CountersAreExact(r: Receiver, events: seq<Event>, kind: Option<Dropped>, n: nat)
    requires Valid(r) && n <= |events|
    ensures Counter(After(r, events[..n]).stats, kind) == Counter(r.stats, kind) + Times(r, events[..n], kind)
    ensures Total(After(r, events[..n]).stats) == Total(r.stats) + Datagrams(events[..n])
  {
    hide Step, Moves;
    if n > 0 {
      assert events[..n][..n - 1] == events[..n - 1];
      CountersAreExact(r, events, kind, n - 1);
      StepCounts(After(r, events[..n - 1]), events[n - 1], kind);
      StepTotals(After(r, events[..n - 1]), events[n - 1]);
    } else {
      assert events[..0] == [];
    }
  }

  lemma StepTotals(r: Receiver, e: Event)
    requires Valid(r)
    ensures Total(Step(r, e).stats) == Total(r.stats) + if e.Datagram? then 1 else 0
  {
    hide J.Valid, J.Popped, Trusts, TimesOut, Admitted;
    if e.Datagram? { AdmitEffects(Started(r, e.now), e.bytes, e.from, e.now); }
  }

  // ----- What a refused datagram leaves alone

  /** The datagram gets as far as SRTP. */
  predicate Presented(r: Receiver, datagram: seq<byte>, from: Address) {
    |datagram| >= 12 && datagram[0] / 0x40 == 2 && !IsRtcp(datagram[1]) && Trusts(r, from)
  }

  /** SRTP opens it. */
  predicate Opens(r: Receiver, datagram: seq<byte>, from: Address) {
    r.srtp.Some? && Presented(r, datagram, from) && Decrypted(r, datagram).1.Ok?
  }

  /** A refused datagram is counted, and starts the clock if it is the first. Nothing else moves,
      except that SRTP remembers a packet it opened before the stream refused it; and then it always
      does. */
  lemma RefusedChangesNothing(r: Receiver, datagram: seq<byte>, from: Address, now: int)
    requires Ingested(r, datagram, from, now).1.Refused?
    ensures var (after, verdict) := Ingested(r, datagram, from, now);
            && after == Started(r, now).(stats := Counted(r.stats, verdict.why), srtp := after.srtp)
            && (after.srtp == r.srtp <==> !Opens(r, datagram, from))
            && (Opens(r, datagram, from) ==> verdict.why.Malformed? || verdict.why.OtherPayload?)
  {
    hide J.Pushed, IsRtcp, IsNewer, DtmfDigit, ContentOf, S.UnprotectRtp;
    if r.srtp.Some? {
      P.RefusedChangesNothing(r.srtp.value.keys, r.srtp.value.rx, datagram);
    }
    if Opens(r, datagram, from) {
      P.OpensOnce(r.srtp.value.keys, r.srtp.value.rx, datagram);
    }
  }

  /** The datagram gets nowhere: it is malformed, RTCP, from a source not trusted, not opened by SRTP, or,
      in the clear, nothing this stream has negotiated. */
  predicate Harmless(r: Receiver, datagram: seq<byte>, from: Address) {
    || !Presented(r, datagram, from) || Decrypted(r, datagram).1.Err?
    || (r.srtp.None? && ContentOf(r.config, datagram).Bad?)
  }

  /** Those, and no others, are refused and leave not even a trace in SRTP. */
  lemma HarmlessIff(r: Receiver, datagram: seq<byte>, from: Address, now: int)
    ensures Harmless(r, datagram, from) <==>
              Ingested(r, datagram, from, now).1.Refused? && !Opens(r, datagram, from)
  {
    hide J.Pushed, IsRtcp, IsNewer, DtmfDigit, ContentOf, S.UnprotectRtp;
  }

  lemma HarmlessChangesNothing(r: Receiver, datagram: seq<byte>, from: Address, now: int)
    requires Harmless(r, datagram, from)
    ensures var (after, verdict) := Ingested(r, datagram, from, now);
            && verdict.Refused?
            && after == Started(r, now).(stats := Counted(r.stats, verdict.why))
  {
    hide Ingested, Opens;
    HarmlessIff(r, datagram, from, now);
    RefusedChangesNothing(r, datagram, from, now);
  }

  /** Opened and then refused, a datagram cannot come again: SRTP takes its repeat for a replay. */
  lemma RefusedIsSpent(r: Receiver, datagram: seq<byte>, from: Address, now: int, later: int)
    requires Opens(r, datagram, from) && Ingested(r, datagram, from, now).1.Refused?
    ensures Ingested(Ingested(r, datagram, from, now).0, datagram, from, later).1 == Refused(Replayed)
  {
    hide J.Pushed, IsRtcp, IsNewer, DtmfDigit, ContentOf, S.UnprotectRtp;
    P.OpensOnce(r.srtp.value.keys, r.srtp.value.rx, datagram);
  }

  /** A comfort-noise packet without a payload: 12 bytes, payload type 13, number 7, SSRC 9. */
  const COMFORT_NOISE: seq<byte> := [0x80, 13, 0, 7] + [0, 0, 0, 0] + [0, 0, 0, 9]

  /** So a refused datagram may change the state: a new stream that has not negotiated comfort noise
      opens a sealed packet of it, refuses it, and from then on takes its repeat for a replay. */
  lemma RefusedLeavesATrace(config: Config, keys: S.Keys, from: Address, now: int, later: int)
    requires config.payloadType != 13 && config.dtmfPayloadType != Some(13)
    ensures |COMFORT_NOISE| >= 12 && S.RtpHeaderLen(COMFORT_NOISE).Some?
    ensures var r, datagram := NewReceiver(config, Some(Inbound(keys, []))), S.Sealed(keys, COMFORT_NOISE, 0);
            var (after, verdict) := Ingested(r, datagram, from, now);
            && verdict == Refused(OtherPayload) && after.srtp != r.srtp
            && Ingested(after, datagram, from, later).1 == Refused(Replayed)
  {
    var r := NewReceiver(config, Some(Inbound(keys, [])));
    assert S.RtpHeaderLen(COMFORT_NOISE) == Some(12);
    var datagram := S.Sealed(keys, COMFORT_NOISE, 0);
    ComfortNoiseOpens(keys, datagram);
    ComfortNoiseIsRefused(config);
    hide S.UnprotectRtp, S.Sealed, ContentOf;
    RefusedChangesNothing(r, datagram, from, now);
    RefusedIsSpent(r, datagram, from, now, later);
  }

  lemma ComfortNoiseOpens(keys: S.Keys, datagram: seq<byte>)
    requires |COMFORT_NOISE| >= 12 && S.RtpHeaderLen(COMFORT_NOISE) == Some(12)
    requires datagram == S.Sealed(keys, COMFORT_NOISE, 0)
    ensures |datagram| >= 12 && datagram[0] / 0x40 == 2 && !IsRtcp(datagram[1])
    ensures S.UnprotectRtp(keys, [], datagram).1 == S.Ok(COMFORT_NOISE)
  {
    E.SealedOpens(keys, COMFORT_NOISE, 0);
    assert datagram[..12] == COMFORT_NOISE[..12];
    assert datagram[0] == datagram[..12][0] && datagram[1] == datagram[..12][1];
  }

  lemma ComfortNoiseIsRefused(config: Config)
    requires config.payloadType != 13 && config.dtmfPayloadType != Some(13)
    ensures ContentOf(config, COMFORT_NOISE) == Bad(OtherPayload)
  {
  }

  // ----- The latch

  lemma StepLatches(r: Receiver, e: Event)
    requires Valid(r)
    ensures var after := Step(r, e);
            && after.srtp.Some? == r.srtp.Some?
            && (Takes(r, e) ==> Trusts(r, e.from) && after.stats.latched == Some(e.from))
            && (!Takes(r, e) ==> after.stats.latched == r.stats.latched)
  {
    hide J.Valid, J.Popped, TimesOut, Admitted;
    if e.Datagram? { AdmitEffects(Started(r, e.now), e.bytes, e.from, e.now); }
  }

  /** The latch is set at most once and never moves. */
  lemma {:induction false} LatchNeverMoves(r: Receiver, events: seq<Event>, i: nat, j: nat)
    requires Valid(r) && i <= j <= |events|
    requires After(r, events[..i]).stats.latched.Some?
    ensures After(r, events[..j]).stats.latched == After(r, events[..i]).stats.latched
    decreases j
  {
    hide Step, Takes, After, Valid;
    if i < j {
      OneMore(r, events, j - 1);
      LatchNeverMoves(r, events, i, j - 1);
      StepLatches(After(r, events[..j - 1]), events[j - 1]);
    }
  }

  lemma {:induction false} SrtpStays(r: Receiver, events: seq<Event>, n: nat)
    requires Valid(r) && n <= |events|
    ensures After(r, events[..n]).srtp.Some? == r.srtp.Some?
  {
    hide Step, Takes, After, Valid;
    if n > 0 {
      OneMore(r, events, n - 1);
      SrtpStays(r, events, n - 1);
      StepLatches(After(r, events[..n - 1]), events[n - 1]);
    } else {
      AtFirst(r, events);
    }
  }

  /** The latch is whoever sent any datagram accepted so far; there is none before the first. */
  lemma {:induction false} LatchIsTheSource(config: Config, srtp: Option<Inbound>, events: seq<Event>, n: nat)
    requires ValidConfig(config) && n <= |events|
    ensures Valid(NewReceiver(config, srtp))
    ensures var r := NewReceiver(config, srtp);
            var latched := After(r, events[..n]).stats.latched;
            && (forall m :: 0 <= m < n && TakenAt(r, events, m) ==> latched == Some(events[m].from))
            && (latched.Some? ==> exists m :: 0 <= m < n && TakenAt(r, events, m))
            && (latched.Some? && srtp.None? ==> latched.value.ip == config.remote.ip)
  {
    hide Step, Takes, After, Valid, ValidConfig;
    NewIsValid(config, srtp);
    var r := NewReceiver(config, srtp);
    if n > 0 {
      OneMore(r, events, n - 1);
      LatchIsTheSource(config, srtp, events, n - 1);
      SrtpStays(r, events, n - 1);
      StepLatches(After(r, events[..n - 1]), events[n - 1]);
      assert TakenAt(r, events, n - 1) == Takes(After(r, events[..n - 1]), events[n - 1]);
    } else {
      AtFirst(r, events);
    }
  }

  /** Whatever arrives from anywhere, everything accepted came from one address. */
  lemma OneSource(config: Config, srtp: Option<Inbound>, events: seq<Event>, i: nat, j: nat)
    requires ValidConfig(config) && i < |events| && j < |events|
    ensures Valid(NewReceiver(config, srtp))
    ensures var r := NewReceiver(config, srtp);
            TakenAt(r, events, i) && TakenAt(r, events, j) ==>
              events[i].from == events[j].from && (srtp.None? ==> events[i].from.ip == config.remote.ip)
  {
    LatchIsTheSource(config, srtp, events, |events|);
  }

  /** Packets go to the signalled address until the first datagram is accepted, and from then on to
      where every accepted datagram comes from. */
  lemma DestinationIsTheSource(config: Config, srtp: Option<Inbound>, events: seq<Event>, n: nat)
    requires ValidConfig(config) && n <= |events|
    ensures Valid(NewReceiver(config, srtp))
    ensures var r := NewReceiver(config, srtp);
            var destination := Destination(After(r, events[..n]));
            && ((forall m :: 0 <= m < n ==> !TakenAt(r, events, m)) ==> destination == config.remote)
            && (forall m :: 0 <= m < n && TakenAt(r, events, m) ==> destination == events[m].from)
            && (srtp.None? ==> destination.ip == config.remote.ip)
  {
    hide After, TakenAt, Valid, ValidConfig;
    LatchIsTheSource(config, srtp, events, n);
    assert After(NewReceiver(config, srtp), events[..n]).config == config;
  }

  // ----- Timeouts

  ghost predicate Reports(r: Receiver, e: Event) {
    e.Tick? && TimesOut(Started(r, e.now), e.now)
  }

  ghost predicate ReportsAt(r: Receiver, events: seq<Event>, n: nat)
    requires Valid(r) && n < |events|
  {
    Reports(After(r, events[..n]), events[n])
  }

  /** The clock does not go back. */
  ghost predicate Ascending(events: seq<Event>) {
    forall i, j :: 0 <= i < j < |events| ==> events[i].now <= events[j].now
  }

  /** Something happened that starts the wait over: an accepted datagram, or a report. */
  ghost predicate Restarts(r: Receiver, events: seq<Event>, n: nat)
    requires Valid(r) && n < |events|
  {
    TakenAt(r, events, n) || ReportsAt(r, events, n)
  }

  /** What one step does to the times. */
  lemma StepTimes(r: Receiver, e: Event)
    requires Valid(r)
    ensures var r0, after := Started(r, e.now), Step(r, e);
            && after.started == r0.started
            && after.lastPacket == (if Takes(r, e) then Some(e.now) else r.lastPacket)
            && after.lastTimeout == (if Reports(r, e) then Some(e.now) else r.lastTimeout)
  {
    hide J.Valid, J.Popped, Trusts, TimesOut, Admitted;
    if e.Datagram? { AdmitEffects(Started(r, e.now), e.bytes, e.from, e.now); }
  }

  /** Since the first `n` events, `t` is the last time the wait started over. */
  ghost predicate WaitsSince(r: Receiver, events: seq<Event>, n: nat, t: int)
    requires Valid(r) && 0 < n <= |events|
  {
    && (t == events[0].now || exists m :: 0 <= m < n && Restarts(r, events, m) && t == events[m].now)
    && events[0].now <= t
    && forall m :: 0 <= m < n && Restarts(r, events, m) ==> events[m].now <= t
  }

  lemma WaitsOn(r: Receiver, events: seq<Event>, n: nat, t: int, now: int)
    requires Valid(r) && 0 < n < |events| && Ascending(events)
    requires WaitsSince(r, events, n, t) && now == events[n].now
    ensures t <= now
    ensures WaitsSince(r, events, n + 1, if Restarts(r, events, n) then now else t)
  {
    hide Restarts;
  }

  lemma {:induction false} WaitIsRemembered(config: Config, srtp: Option<Inbound>, events: seq<Event>, n: nat)
    requires ValidConfig(config) && 0 < n <= |events| && Ascending(events)
    ensures Valid(NewReceiver(config, srtp))
    ensures var r := NewReceiver(config, srtp);
            var now := After(r, events[..n]);
            && now.started == Some(events[0].now)
            && (now.lastPacket.Some? ==> events[0].now <= now.lastPacket.value)
            && WaitsSince(r, events, n, Reported(now))
  {
    hide Step, Takes, TimesOut, J.Valid;
    NewIsValid(config, srtp);
    var r, m := NewReceiver(config, srtp), n - 1;
    assert events[..n][..m] == events[..m];
    var before, e := After(r, events[..m]), events[m];
    StepTimes(before, e);
    assert Restarts(r, events, m) == (Takes(before, e) || Reports(before, e));
    if m == 0 {
      assert events[..0] == [];
    } else {
      WaitIsRemembered(config, srtp, events, m);
      WaitsOn(r, events, m, Reported(before), e.now);
      assert Reported(Step(before, e)) == if Restarts(r, events, m) then e.now else Reported(before);
    }
  }

  /** A tick reports a timeout exactly when nothing was accepted, nothing reported and the stream
      not begun within the timeout before it. */
  lemma TimeoutIff(config: Config, srtp: Option<Inbound>, events: seq<Event>, n: nat)
    requires ValidConfig(config) && n < |events| && events[n].Tick? && Ascending(events)
    ensures Valid(NewReceiver(config, srtp))
    ensures var r, wait := NewReceiver(config, srtp), config.rtpTimeout;
            ReportsAt(r, events, n) <==>
              && events[n].now - events[0].now >= wait
              && forall m :: 0 <= m < n && Restarts(r, events, m) ==> events[n].now - events[m].now >= wait
  {
    hide Step, Restarts, J.Valid;
    NewIsValid(config, srtp);
    var r := NewReceiver(config, srtp);
    if n == 0 {
      assert events[..0] == [];
    } else {
      WaitIsRemembered(config, srtp, events, n);
      WaitsOn(r, events, n, Reported(After(r, events[..n])), events[n].now);
    }
  }

  /** Timeouts are at least the configured time apart. */
  lemma TimeoutsAreApart(config: Config, srtp: Option<Inbound>, events: seq<Event>, i: nat, j: nat)
    requires ValidConfig(config) && i < j < |events| && Ascending(events)
    ensures Valid(NewReceiver(config, srtp))
    ensures var r := NewReceiver(config, srtp);
            ReportsAt(r, events, i) && ReportsAt(r, events, j) ==> events[j].now - events[i].now >= config.rtpTimeout
  {
    NewIsValid(config, srtp);
    if ReportsAt(NewReceiver(config, srtp), events, j) {
      TimeoutIff(config, srtp, events, j);
    }
  }

  // ----- Frames

  /** What a tick yields: at most one timeout, then a frame of the codec's size if audio is playing. */
  ghost predicate Regular(events: seq<StreamEvent>, timesOut: bool, plays: bool, samples: nat) {
    && |events| == (if timesOut then 1 else 0) + (if plays then 1 else 0)
    && (timesOut ==> events[0].Timeout?)
    && (plays ==> events[|events| - 1].Frame? && |events[|events| - 1].pcm| == samples)
  }

  /** What a frame says of the packet popped: received audio as decoded, cut or followed by silence when that is
      not 20 ms, concealment for a packet that is missing or empty, silence when there is none. */
  ghost predicate Tells(frame: StreamEvent, packet: Option<J.BufferedPacket>, decoded: seq<int>)
    requires frame.Frame?
  {
    match packet
    case Some(p) =>
      && frame.kind == (if p.payload == [] then Concealed else Received)
      && forall i :: 0 <= i < |frame.pcm| ==> frame.pcm[i] == if i < |decoded| then decoded[i] else 0
    case None => frame.kind == Silence && forall i :: 0 <= i < |frame.pcm| ==> frame.pcm[i] == 0
  }

  lemma TicksAreRegular(r: Receiver, now: int, wanted: u32, decoded: seq<int>)
    requires Valid(r)
    ensures var (after, events) := Played(r, now, wanted, decoded);
            var popped := J.Popped(r.jitter, now, wanted).1;
            && Regular(events, TimesOut(Started(r, now), now), after.playing, r.config.codec.SamplesPerPacket())
            && after.playing == (r.playing || popped.Some?)
            && (after.playing ==> Tells(events[|events| - 1], popped, decoded))
            && (TimesOut(Started(r, now), now) ==> events[0].silentFor == Elapsed(now, Since(Started(r, now))))
            && after.stats == r.stats
  {
    hide J.Valid, J.Target, J.Adapted, TimesOut;
  }

  lemma StepKeepsPlaying(r: Receiver, e: Event)
    requires Valid(r)
    ensures var after := Step(r, e);
            && r.stats.ssrcChanges <= after.stats.ssrcChanges
            && (r.playing && r.stats.ssrcChanges == after.stats.ssrcChanges ==> after.playing)
  {
    hide J.Valid, J.Popped, Trusts, TimesOut, Admitted;
    if e.Datagram? { AdmitEffects(Started(r, e.now), e.bytes, e.from, e.now); }
  }

  lemma {:induction false} PlayingLasts(r: Receiver, events: seq<Event>, i: nat, j: nat)
    requires Valid(r) && i <= j <= |events|
    ensures var a, b := After(r, events[..i]), After(r, events[..j]);
            && a.stats.ssrcChanges <= b.stats.ssrcChanges
            && (a.playing && a.stats.ssrcChanges == b.stats.ssrcChanges ==> b.playing)
    decreases j
  {
    hide Step, After, Valid;
    if i < j {
      OneMore(r, events, j - 1);
      PlayingLasts(r, events, i, j - 1);
      StepKeepsPlaying(After(r, events[..j - 1]), events[j - 1]);
    }
  }

  /** Once a tick has played, every later tick yields exactly one frame of the codec's size, until
      the remote SSRC changes. */
  lemma FramesNeverStop(r: Receiver, events: seq<Event>, i: nat, j: nat)
    requires Valid(r) && i <= j < |events| && events[j].Tick?
    requires After(r, events[..i]).playing
    requires After(r, events[..i]).stats.ssrcChanges == After(r, events[..j]).stats.ssrcChanges
    ensures var now, tick := After(r, events[..j]), events[j];
            Regular(Played(now, tick.now, tick.wanted, tick.decoded).1, ReportsAt(r, events, j), true,
                    r.config.codec.SamplesPerPacket())
  {
    hide Step, Played, Regular, TimesOut;
    PlayingLasts(r, events, i, j);
    TicksAreRegular(After(r, events[..j]), events[j].now, events[j].wanted, events[j].decoded);
  }

  // ----- The jitter buffer inside

  /** What an event does to the jitter buffer: a new SSRC clears it, audio is pushed, a tick pops. */
  ghost function OnJitter(r: Receiver, e: Event): seq<JR.Event> {
    if e.Tick? then [JR.Pop(e.now, e.wanted)]
    else if !Takes(r, e) then []
    else
      var content := ContentOf(r.config, Decrypted(r, e.bytes).1.value);
      var audio := if content.Audio?
                   then [JR.Push(content.header.sequence, content.header.timestamp, content.payload, e.now)] else [];
      if r.remoteSsrc.Some? && r.remoteSsrc.value != content.header.ssrc then [JR.Clear] + audio else audio
  }

  /** The buffer a packet of this SSRC finds. */
  function Found(r: Receiver, ssrc: u32): J.Buffer {
    if r.remoteSsrc.Some? && r.remoteSsrc.value != ssrc then J.Reset(r.jitter) else r.jitter
  }

  lemma IngestOnJitter(r: Receiver, datagram: seq<byte>, from: Address, now: int)
    ensures var (after, verdict) := Ingested(r, datagram, from, now);
            if verdict.Refused? then after.jitter == r.jitter
            else
              && Decrypted(r, datagram).1.Ok? && Decrypted(r, datagram).1.value != []
              && var content := ContentOf(r.config, Decrypted(r, datagram).1.value);
              && !content.Bad?
              && after.jitter == if content.Event? then Found(r, content.header.ssrc)
                                 else J.Pushed(Found(r, content.header.ssrc), content.header.sequence,
                                               content.header.timestamp, content.payload, now).0
  {
    hide J.Pushed, IsRtcp, Trusts, IsNewer, DtmfDigit, S.UnprotectRtp, ContentOf, J.Reset;
  }

  lemma PlayOnJitter(r: Receiver, now: int, wanted: u32, decoded: seq<int>)
    requires J.ValidMode(r.jitter.config.mode)
    ensures Played(r, now, wanted, decoded).0.jitter == J.Popped(r.jitter, now, wanted).0
  {
    hide J.Popped, TimesOut;
  }

  lemma StepOnJitter(r: Receiver, e: Event)
    requires Valid(r)
    ensures Step(r, e).jitter == JR.After(r.jitter, OnJitter(r, e))
  {
    assert J.ValidMode(r.jitter.config.mode);
    hide Valid, J.Popped, Ingested, Played, JR.After;
    if e.Datagram? {
      DatagramOnJitter(r, e);
    } else {
      RunOfOne(r.jitter, OnJitter(r, e));
      PlayOnJitter(r, e.now, e.wanted, e.decoded);
    }
  }

  lemma DatagramOnJitter(r: Receiver, e: Event)
    requires J.ValidMode(r.jitter.config.mode) && e.Datagram?
    ensures Ingested(r, e.bytes, e.from, e.now).0.jitter == JR.After(r.jitter, OnJitter(r, e))
  {
    hide J.Pushed, J.Reset, Ingested, Decrypted, ContentOf, JR.After;
    IngestOnJitter(r, e.bytes, e.from, e.now);
    var run := OnJitter(r, e);
    RunOfOne(r.jitter, run);
    RunOfTwo(r.jitter, run);
  }

  lemma RunOfOne(b: J.Buffer, run: seq<JR.Event>)
    requires J.ValidMode(b.config.mode)
    ensures run == [] ==> JR.After(b, run) == b
    ensures |run| == 1 ==> JR.After(b, run) == JR.Step(b, run[0])
  {
    hide JR.Step;
    if |run| == 1 { assert run[..0] == []; }
  }

  lemma RunOfTwo(b: J.Buffer, run: seq<JR.Event>)
    requires J.ValidMode(b.config.mode)
    ensures |run| == 2 ==>
      JR.Step(b, run[0]).config == b.config && JR.After(b, run) == JR.Step(JR.Step(b, run[0]), run[1])
  {
    hide JR.Step;
    if |run| == 2 {
      RunOfOne(b, run[..1]);
      assert JR.After(b, run[..1]).config == b.config;
    }
  }

  /** What the jitter buffer sees of a run. */
  ghost function JitterRun(r: Receiver, events: seq<Event>): seq<JR.Event>
    requires Valid(r)
  {
    if events == [] then []
    else
      var n := |events| - 1;
      JitterRun(r, events[..n]) + OnJitter(After(r, events[..n]), events[n])
  }

  lemma JitterRunOneMore(r: Receiver, events: seq<Event>, n: nat)
    requires Valid(r) && n < |events|
    ensures J.ValidMode(r.jitter.config.mode)
    ensures JitterRun(r, events[..n + 1]) == JitterRun(r, events[..n]) + OnJitter(After(r, events[..n]), events[n])
  {
    hide OnJitter, After;
    assert events[..n + 1][..n] == events[..n];
  }

  lemma {:induction false} RunsJoin(b: J.Buffer, xs: seq<JR.Event>, ys: seq<JR.Event>, n: nat)
    requires J.ValidMode(b.config.mode) && n <= |ys|
    ensures JR.After(JR.After(b, xs), ys[..n]) == JR.After(b, xs + ys[..n])
  {
    hide JR.Step;
    if n > 0 {
      RunsJoin(b, xs, ys, n - 1);
      assert ys[..n][..n - 1] == ys[..n - 1] && (xs + ys[..n])[..|xs| + n - 1] == xs + ys[..n - 1];
    } else {
      assert ys[..0] == [] && xs + ys[..0] == xs;
    }
  }

  /** The stream's jitter buffer is one that has lived through that run, so everything that holds
      over runs of a jitter buffer holds of the stream's. */
  lemma {:induction false} JitterSeesARun(r: Receiver, events: seq<Event>, n: nat)
    requires Valid(r) && n <= |events|
    ensures After(r, events[..n]).jitter == JR.After(r.jitter, JitterRun(r, events[..n]))
  {
    hide Step, OnJitter, After, Valid, JitterRun;
    if n > 0 {
      JitterRunOneMore(r, events, n - 1);
      JitterSeesARun(r, events, n - 1);
      var before := After(r, events[..n - 1]);
      OneMore(r, events, n - 1);
      StepOnJitter(before, events[n - 1]);
      var more := OnJitter(before, events[n - 1]);
      RunsJoin(r.jitter, JitterRun(r, events[..n - 1]), more, |more|);
      assert more[..|more|] == more;
    } else {
      AtFirst(r, events);
      NothingSeen(r, events);
    }
  }

  lemma NothingSeen(r: Receiver, events: seq<Event>)
    requires Valid(r)
    ensures J.ValidMode(r.jitter.config.mode) && JitterRun(r, events[..0]) == [] && SrtpRun(r, events[..0]) == []
    ensures JR.After(r.jitter, []) == r.jitter
  {
  }

  lemma {:induction false} JitterRunGrows(r: Receiver, events: seq<Event>, i: nat, j: nat)
    requires Valid(r) && i <= j <= |events|
    ensures JitterRun(r, events[..i]) <= JitterRun(r, events[..j])
    decreases j
  {
    hide OnJitter, After, Valid;
    if i < j {
      assert events[..j][..j - 1] == events[..j - 1];
      JitterRunGrows(r, events, i, j - 1);
    }
  }

  /** Where a tick is in the run that the jitter buffer sees. */
  lemma TickInRun(r: Receiver, events: seq<Event>, i: nat, j: nat)
    requires Valid(r) && i < j <= |events| && events[i].Tick?
    ensures var run, at := JitterRun(r, events[..j]), |JitterRun(r, events[..i])|;
            && at < |run| && |JitterRun(r, events[..i + 1])| == at + 1
            && run[at] == JR.Pop(events[i].now, events[i].wanted)
            && JR.After(r.jitter, run[..at]) == After(r, events[..i]).jitter
  {
    hide After, Valid, JR.After, JitterRun;
    JitterRunOneMore(r, events, i);
    JitterRunGrows(r, events, i, j);
    JitterRunGrows(r, events, i + 1, j);
    JitterSeesARun(r, events, i);
    assert JitterRun(r, events[..j])[..|JitterRun(r, events[..i])|] == JitterRun(r, events[..i]);
  }

  /** The extended number a tick plays, if it plays one. */
  ghost function NumberAt(r: Receiver, events: seq<Event>, i: nat): Option<u32>
    requires Valid(r) && i < |events| && events[i].Tick?
  {
    J.Target(After(r, events[..i]).jitter, events[i].now)
  }

  /** Between restarts of the sender's sequence, what successive ticks play is strictly ascending:
      the stream plays nothing twice and nothing out of order. */
  lemma TicksPlayInOrder(r: Receiver, events: seq<Event>, i: nat, j: nat)
    requires Valid(r) && i < j < |events| && events[i].Tick? && events[j].Tick?
    requires JR.Undisturbed(r.jitter, JitterRun(r, events[..j + 1]), |JitterRun(r, events[..i])|,
                            |JitterRun(r, events[..j + 1])|)
    requires NumberAt(r, events, i).Some? && NumberAt(r, events, j).Some?
    ensures NumberAt(r, events, i).value < NumberAt(r, events, j).value
  {
    hide After, JR.After, JR.Undisturbed, J.Target, OnJitter, JitterRun, J.Valid, ValidConfig;
    TickInRun(r, events, i, j + 1);
    TickInRun(r, events, j, j + 1);
    JitterRunGrows(r, events, i + 1, j);
    JR.PlayoutOrder(r.jitter, JitterRun(r, events[..j + 1]), |JitterRun(r, events[..i])|, |JitterRun(r, events[..j])|);
  }

  // ----- SRTP inside

  /** The datagrams SRTP is asked to open. */
  ghost function OnSrtp(r: Receiver, e: Event): seq<seq<byte>> {
    if e.Datagram? && Presented(r, e.bytes, e.from) then [e.bytes] else []
  }

  lemma StepOnSrtp(r: Receiver, e: Event)
    requires Valid(r)
    ensures Step(r, e).srtp == if OnSrtp(r, e) == [] then r.srtp else Decrypted(r, e.bytes).0
    ensures Takes(r, e) ==> OnSrtp(r, e) == [e.bytes] && Decrypted(r, e.bytes).1.Ok?
  {
    hide J.Valid, J.Popped, J.Pushed, IsRtcp, IsNewer, DtmfDigit, TimesOut, S.UnprotectRtp, ContentOf;
  }

  ghost function SrtpRun(r: Receiver, events: seq<Event>): seq<seq<byte>>
    requires Valid(r)
  {
    if events == [] then []
    else
      var n := |events| - 1;
      SrtpRun(r, events[..n]) + OnSrtp(After(r, events[..n]), events[n])
  }

  /** The stream's SRTP tables are those of a context that was offered that run and nothing else. */
  lemma {:induction false} SrtpSeesARun(r: Receiver, keys: S.Keys, events: seq<Event>, n: nat)
    requires Valid(r) && n <= |events| && r.srtp == Some(Inbound(keys, []))
    ensures After(r, events[..n]).srtp == Some(Inbound(keys, P.RxAfter(keys, SrtpRun(r, events[..n]))))
  {
    hide Step, OnSrtp, After, Valid, S.UnprotectRtp, P.RxAfter, SrtpRun;
    if n > 0 {
      SrtpSeesARun(r, keys, events, n - 1);
      var before, e := After(r, events[..n - 1]), events[n - 1];
      OneMore(r, events, n - 1);
      SrtpRunOneMore(r, events, n - 1);
      StepOnSrtp(before, e);
      OnSrtpIsOne(before, e);
      RxOneMore(keys, SrtpRun(r, events[..n - 1]), if e.Datagram? then e.bytes else []);
    } else {
      AtFirst(r, events);
      NothingSeen(r, events);
      NoneReceived(keys);
    }
  }

  lemma SrtpRunOneMore(r: Receiver, events: seq<Event>, n: nat)
    requires Valid(r) && n < |events|
    ensures var more := OnSrtp(After(r, events[..n]), events[n]);
            && SrtpRun(r, events[..n + 1]) == SrtpRun(r, events[..n]) + more
            && (more == [] ==> SrtpRun(r, events[..n + 1]) == SrtpRun(r, events[..n]))
  {
    hide OnSrtp, After;
    assert events[..n + 1][..n] == events[..n];
  }

  lemma RxOneMore(keys: S.Keys, run: seq<seq<byte>>, packet: seq<byte>)
    ensures P.RxAfter(keys, run + [packet]) == S.UnprotectRtp(keys, P.RxAfter(keys, run), packet).0
  {
    assert (run + [packet])[..|run|] == run;
  }

  lemma NoneReceived(keys: S.Keys)
    ensures P.RxAfter(keys, []) == []
  {
  }

  lemma OnSrtpIsOne(r: Receiver, e: Event)
    ensures OnSrtp(r, e) == [] || (e.Datagram? && OnSrtp(r, e) == [e.bytes])
  {
  }

  lemma {:induction false} SrtpRunGrows(r: Receiver, events: seq<Event>, i: nat, j: nat)
    requires Valid(r) && i <= j <= |events|
    ensures SrtpRun(r, events[..i]) <= SrtpRun(r, events[..j])
    decreases j
  {
    hide OnSrtp, After, Valid;
    if i < j {
      assert events[..j][..j - 1] == events[..j - 1];
      SrtpRunGrows(r, events, i, j - 1);
    }
  }

  /** Where an accepted datagram is in the run that SRTP sees. */
  lemma TakenInRun(r: Receiver, keys: S.Keys, events: seq<Event>, i: nat, j: nat)
    requires Valid(r) && i < j <= |events| && r.srtp == Some(Inbound(keys, [])) && TakenAt(r, events, i)
    ensures var run, at := SrtpRun(r, events[..j]), |SrtpRun(r, events[..i])|;
            && at < |run| && |SrtpRun(r, events[..i + 1])| == at + 1 && run[at] == events[i].bytes
            && After(r, events[..i]).srtp == Some(Inbound(keys, P.RxAfter(keys, run[..at])))
            && P.Accepted(keys, run, at)
  {
    hide After, Valid, P.RxAfter, Takes, OnSrtp, S.UnprotectRtp;
    assert events[..i + 1][..i] == events[..i];
    SrtpRunGrows(r, events, i, j);
    SrtpRunGrows(r, events, i + 1, j);
    SrtpSeesARun(r, keys, events, i);
    assert Takes(After(r, events[..i]), events[i]);
    StepOnSrtp(After(r, events[..i]), events[i]);
    var run, at := SrtpRun(r, events[..j]), |SrtpRun(r, events[..i])|;
    assert run[..at] == SrtpRun(r, events[..i]);
  }

  /** The source and the ROC || SEQ that a datagram has for SRTP when it arrives. */
  ghost function IdentityAt(r: Receiver, keys: S.Keys, events: seq<Event>, i: nat): (u32, int)
    requires Valid(r) && r.srtp == Some(Inbound(keys, [])) && i < |events| && TakenAt(r, events, i)
  {
    SrtpSeesARun(r, keys, events, i);
    TakenInRun(r, keys, events, i, i + 1);
    P.Identity(After(r, events[..i]).srtp.value.rx, events[i].bytes)
  }

  /** Under SRTP the stream accepts nothing twice, whatever it is sent. */
  lemma NothingTwice(r: Receiver, keys: S.Keys, events: seq<Event>, i: nat, j: nat)
    requires Valid(r) && r.srtp == Some(Inbound(keys, [])) && i < j < |events|
    requires TakenAt(r, events, i) && TakenAt(r, events, j)
    ensures IdentityAt(r, keys, events, i) != IdentityAt(r, keys, events, j)
  {
    hide After, Valid, P.RxAfter, TakenAt, OnSrtp, S.UnprotectRtp, P.Accepted, P.Identity;
    TakenInRun(r, keys, events, i, j + 1);
    TakenInRun(r, keys, events, j, j + 1);
    SrtpRunGrows(r, events, i + 1, j);
    P.AtMostOnce(keys, SrtpRun(r, events[..j + 1]), |SrtpRun(r, events[..i])|, |SrtpRun(r, events[..j])|);
  }
}
