/** The receiving half of a headless stream: which datagrams it takes, what becomes of them, and
    what it plays at each 20 ms tick. Decoders are opaque: what one produced is an input. */
module StreamReceiver {
  import opened Bytes
  import opened StreamConfig
  import J = Jitter
  import H = RtpHeader
  import S = Srtp
  import T = SourceTable

  datatype Dropped = Malformed | Unauthenticated | Replayed | UnexpectedSource | OtherPayload

  datatype DtmfEvent = DtmfEvent(digit: char, event: byte)

  /** What `ingest` answers. */
  datatype Verdict = Taken(digit: Option<DtmfEvent>) | Refused(why: Dropped)

  datatype Stats = Stats(
    packetsReceived: nat, bytesReceived: nat,
    malformed: nat, unauthenticated: nat, replayed: nat, source: nat, payload: nat,
    ssrcChanges: nat, latched: Option<Address>)

  const NO_STATS := Stats(0, 0, 0, 0, 0, 0, 0, 0, None)

  /** SRTP for what arrives: the keys, and what is known of each source. */
  datatype Inbound = Inbound(keys: S.Keys, rx: seq<T.Source<S.RecvState>>)

  datatype Receiver = Receiver(
    config: Config, srtp: Option<Inbound>, jitter: J.Buffer, stats: Stats,
    remoteSsrc: Option<u32>, lastDtmfTimestamp: Option<u32>,
    started: Option<int>, lastPacket: Option<int>, lastTimeout: Option<int>, playing: bool)

  function NewReceiver(config: Config, srtp: Option<Inbound>): Receiver {
    Receiver(config, srtp, J.New(JitterConfig(config)), NO_STATS, None, None, None, None, None, false)
  }

  /** Where packets are sent to: whoever has been accepted, or else whom the SDP named. */
  function Destination(r: Receiver): Address {
    r.stats.latched.UnwrapOr(r.config.remote)
  }

  // ----- Admission

  /** RTCP packet types 200 to 204, on the RTP port. */
  predicate IsRtcp(secondByte: byte) {
    72 <= secondByte % 0x80 <= 76
  }

  /** Whether datagrams from here may be looked at: from the latched address; before there is one, under
      SRTP from anyone, and otherwise from the host the SDP named. */
  predicate Trusts(r: Receiver, from: Address) {
    match r.stats.latched
    case Some(latched) => latched == from
    case None => r.srtp.Some? || from.ip == r.config.remote.ip
  }

  /** The packet in the clear, and what SRTP now knows. */
  function Decrypted(r: Receiver, datagram: seq<byte>): (Option<Inbound>, S.Result<seq<byte>>) {
    match r.srtp
    case None => (None, S.Ok(datagram))
    case Some(inbound) =>
      var (rx, result) := S.UnprotectRtp(inbound.keys, inbound.rx, datagram);
      (Some(inbound.(rx := rx)), result)
  }

  /** The payload without padding, unless the padding is malformed. */
  function Payload(header: H.Header, packet: seq<byte>): Option<seq<byte>> {
    var start := header.Length();
    if start > |packet| then None
    else if !header.padding then Some(packet[start..])
    else
      var pad := packet[|packet| - 1];
      if pad == 0 || pad > |packet| - start then None else Some(packet[start..|packet| - pad])
  }

  /** Padding as section 5.1 of RFC 3550 has it: its last byte counts it. */
  predicate IsPadding(header: H.Header, tail: seq<byte>) {
    if header.padding then tail != [] && tail[|tail| - 1] == |tail| else tail == []
  }

  /** A payload is found exactly when what follows the header is that payload and then padding. */
  lemma PayloadIff(header: H.Header, packet: seq<byte>, payload: seq<byte>)
    requires header.Length() <= |packet|
    ensures Payload(header, packet) == Some(payload)
       <==> exists tail :: packet[header.Length()..] == payload + tail && IsPadding(header, tail)
  {
    var rest := packet[header.Length()..];
    if Payload(header, packet) == Some(payload) {
      var tail := rest[|payload|..];
      assert rest == payload + tail && IsPadding(header, tail);
    }
    forall tail | rest == payload + tail && IsPadding(header, tail)
      ensures Payload(header, packet) == Some(payload)
    {
      TailIsStripped(header, packet, payload, tail);
    }
  }

  lemma TailIsStripped(header: H.Header, packet: seq<byte>, payload: seq<byte>, tail: seq<byte>)
    requires header.Length() <= |packet| && packet[header.Length()..] == payload + tail && IsPadding(header, tail)
    ensures Payload(header, packet) == Some(payload)
  {
    var start := header.Length();
    var rest := packet[start..];
    if header.padding {
      assert packet[|packet| - 1] == rest[|rest| - 1] == tail[|tail| - 1];
      assert packet[start..|packet| - |tail|] == rest[..|payload|] == payload;
    } else {
      assert rest == payload;
    }
  }

  /** What a clear packet carries: its header and payload, or why it is refused. */
  datatype Content = Audio(header: H.Header, payload: seq<byte>) | Event(header: H.Header, payload: seq<byte>)
                   | Bad(why: Dropped)

  function ContentOf(config: Config, packet: seq<byte>): (content: Content)
    requires packet != []
    ensures content.Event? ==> |content.payload| >= 4
    ensures content.Bad? ==> content.why.Malformed? || content.why.OtherPayload?
  {
    match H.Parsed(packet)
    case None => Bad(Malformed)
    case Some(header) =>
      match Payload(header, packet)
      case None => Bad(Malformed)
      case Some(payload) =>
        var isDtmf := config.dtmfPayloadType == Some(header.payloadType);
        if header.payloadType != config.payloadType && !isDtmf then Bad(OtherPayload)
        else if isDtmf then (if |payload| < 4 then Bad(Malformed) else Event(header, payload))
        else Audio(header, payload)
  }

  /** Latch, follow the SSRC and count. Nothing carries over from one SSRC to another. */
  function Trusted(r: Receiver, header: H.Header, size: nat, from: Address, now: int): Receiver {
    var changed := r.remoteSsrc.Some? && r.remoteSsrc.value != header.ssrc;
    var stats := r.stats.(latched := if r.stats.latched.None? then Some(from) else r.stats.latched,
                          packetsReceived := r.stats.packetsReceived + 1,
                          bytesReceived := r.stats.bytesReceived + size,
                          ssrcChanges := r.stats.ssrcChanges + if changed then 1 else 0);
    var counted := r.(stats := stats, remoteSsrc := Some(header.ssrc), lastPacket := Some(now));
    if changed then counted.(jitter := J.Reset(r.jitter), lastDtmfTimestamp := None, playing := false) else counted
  }

  /** Later than `last`, across timestamp wrap: the difference is positive as a signed 32 bits. */
  predicate IsNewer(timestamp: u32, last: u32) {
    var ahead := (timestamp - last) % TWO32;
    0 < ahead < 0x8000_0000
  }

  /** A telephone-event packet: a new press only if its event is newer than the last. */
  function Press(r: Receiver, timestamp: u32, payload: seq<byte>): (Receiver, Option<DtmfEvent>)
    requires |payload| >= 4
  {
    if r.lastDtmfTimestamp.Some? && !IsNewer(timestamp, r.lastDtmfTimestamp.value) then (r, None)
    else match DtmfDigit(payload[0])
         case None => (r, None)
         case Some(digit) => (r.(lastDtmfTimestamp := Some(timestamp)), Some(DtmfEvent(digit, payload[0])))
  }

  /** What a trusted packet does. */
  ghost function Consume(r: Receiver, content: Content, size: nat, from: Address, now: int): (Receiver, Verdict)
    requires content.Event? ==> |content.payload| >= 4
  {
    match content
    case Bad(why) => (r, Refused(why))
    case Event(header, payload) =>
      var (after, digit) := Press(Trusted(r, header, size, from, now), header.timestamp, payload);
      (after, Taken(digit))
    case Audio(header, payload) =>
      var trusted := Trusted(r, header, size, from, now);
      (trusted.(jitter := J.Pushed(trusted.jitter, header.sequence, header.timestamp, payload, now).0), Taken(None))
  }

  ghost function Admitted(r: Receiver, datagram: seq<byte>, from: Address, now: int): (Receiver, Verdict) {
    if |datagram| < 12 || datagram[0] / 0x40 != 2 then (r, Refused(Malformed))
    else if IsRtcp(datagram[1]) then (r, Refused(OtherPayload))
    else if !Trusts(r, from) then (r, Refused(UnexpectedSource))
    else
      var (srtp, result) := Decrypted(r, datagram);
      match result
      case Err(error) => (r.(srtp := srtp), Refused(if error == S.Replay then Replayed else Unauthenticated))
      case Ok(packet) =>
        if packet == [] then (r.(srtp := srtp), Refused(Malformed))
        else Consume(r.(srtp := srtp), ContentOf(r.config, packet), |datagram|, from, now)
  }

  function Counted(stats: Stats, why: Dropped): Stats {
    match why
    case Malformed => stats.(malformed := stats.malformed + 1)
    case Unauthenticated => stats.(unauthenticated := stats.unauthenticated + 1)
    case Replayed => stats.(replayed := stats.replayed + 1)
    case UnexpectedSource => stats.(source := stats.source + 1)
    case OtherPayload => stats.(payload := stats.payload + 1)
  }

  function Started(r: Receiver, now: int): Receiver {
    if r.started.None? then r.(started := Some(now)) else r
  }

  ghost function Ingested(r: Receiver, datagram: seq<byte>, from: Address, now: int): (Receiver, Verdict) {
    var (after, verdict) := Admitted(Started(r, now), datagram, from, now);
    (if verdict.Refused? then after.(stats := Counted(after.stats, verdict.why)) else after, verdict)
  }

  // ----- Playout

  datatype FrameKind = Received | Concealed | Silence

  datatype StreamEvent = Frame(pcm: seq<int>, kind: FrameKind) | Timeout(silentFor: nat)

  /** Cut or padded with zeros to `n` samples. */
  function Resized(pcm: seq<int>, n: nat): (r: seq<int>)
    ensures |r| == n
  {
    if |pcm| >= n then pcm[..n] else pcm + seq<int>(n - |pcm|, i => 0)
  }

  function Since(r: Receiver): int
    requires r.started.Some?
  {
    r.lastPacket.UnwrapOr(r.started.value)
  }

  /** When the silence was last known of: the last packet or the last report, whichever is later. */
  function Reported(r: Receiver): int
    requires r.started.Some?
  {
    if r.lastTimeout.Some? && r.lastTimeout.value > Since(r) then r.lastTimeout.value else Since(r)
  }

  function Elapsed(now: int, then_: int): nat {
    if now < then_ then 0 else now - then_
  }

  predicate TimesOut(r: Receiver, now: int)
    requires r.started.Some?
  {
    Elapsed(now, Reported(r)) >= r.config.rtpTimeout
  }

  /** A playout tick. `wanted` is the delay the jitter estimate calls for; `decoded` is what the
      decoder makes of the packet popped, or of its loss. */
  ghost function Played(r: Receiver, now: int, wanted: u32, decoded: seq<int>): (Receiver, seq<StreamEvent>)
    requires J.ValidMode(r.jitter.config.mode)
  {
    var r0 := Started(r, now);
    var timeout := TimesOut(r0, now);
    var r1 := if timeout then r0.(lastTimeout := Some(now)) else r0;
    var timeouts := if timeout then [Timeout(Elapsed(now, Since(r0)))] else [];
    var samples := r.config.codec.SamplesPerPacket();
    var (jitter, packet) := J.Popped(r1.jitter, now, wanted);
    match packet
    case Some(p) =>
      (r1.(jitter := jitter, playing := true),
       timeouts + [Frame(Resized(decoded, samples), if p.payload == [] then Concealed else Received)])
    case None =>
      (r1.(jitter := jitter),
       timeouts + if r1.playing then [Frame(Resized([], samples), Silence)] else [])
  }
}
