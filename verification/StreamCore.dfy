/** A headless stream as the program keeps it: one object that owns a jitter buffer and, when keyed,
    an SRTP context for each direction. Every method is proved to do what the functions of
    `StreamReceiver` and `StreamSender` say, and to leave the other direction alone. */
module StreamCore {
  import opened Bytes
  import opened StreamConfig
  import opened SrtpContext
  import opened JitterBuffer
  import J = Jitter
  import H = RtpHeader
  import S = Srtp
  import R = StreamReceiver
  import T = StreamSender
  import RR = StreamReceiverRuns

  /** A new stream, or none when audio and events could not be told apart. Its clocks and delays are taken as
      they come; it is fit for use when they are sound. */
  method NewStream(config: Config, inbound: SrtpContext?, outbound: SrtpContext?, ssrc: u32, first: u16, timestamp: u32)
    returns (core: StreamCore?)
    requires (inbound != null ==> inbound.Valid() && inbound != outbound) && (outbound != null ==> outbound.Valid())
    ensures core == null <==> config.dtmfPayloadType == Some(config.payloadType)
    ensures core != null ==>
      && fresh(core) && fresh(core.jitter) && (Sound(config) ==> core.Valid())
      && core.Receiver() == R.NewReceiver(config, core.Inbound())
      && core.Sender() == T.NewSender(config, core.Outbound(), ssrc, first, timestamp)
  {
    if SharesPayloadType(config) {
      return null;
    }
    core := new StreamCore(config, inbound, outbound, ssrc, first, timestamp);
  }

  class StreamCore {
    const config: Config
    const inbound: SrtpContext?
    const outbound: SrtpContext?
    const jitter: JitterBuffer
    const ssrc: u32
    // Receiving
    var stats: R.Stats
    var remoteSsrc: Option<u32>
    var lastDtmfTimestamp: Option<u32>
    var started: Option<int>
    var lastPacket: Option<int>
    var lastTimeout: Option<int>
    var playing: bool
    // Sending
    var sequence: u16
    var timestamp: u32
    var marker: bool
    var dtmf: seq<byte>
    var dtmfSending: Option<T.DtmfSend>
    var packetsSent: nat
    var bytesSent: nat

    ghost function Inbound(): Option<R.Inbound>
      reads this, inbound
    {
      if inbound == null then None else Some(R.Inbound(inbound.keys, inbound.rx))
    }

    ghost function Outbound(): Option<T.Outbound>
      reads this, outbound
    {
      if outbound == null then None else Some(T.Outbound(outbound.keys, outbound.tx))
    }

    ghost function Receiver(): R.Receiver
      reads this, jitter, inbound
    {
      R.Receiver(config, Inbound(), jitter.Value(), stats, remoteSsrc, lastDtmfTimestamp, started, lastPacket,
                 lastTimeout, playing)
    }

    ghost function Sender(): T.Sender
      reads this, outbound
    {
      T.Sender(config, Outbound(), ssrc, sequence, timestamp, marker, dtmf, dtmfSending, packetsSent, bytesSent)
    }

    ghost predicate Valid()
      reads this, jitter, inbound, outbound
    {
      && RR.Valid(Receiver()) && T.Valid(Sender())
      && (inbound != null ==> inbound.Valid() && inbound != outbound)
      && (outbound != null ==> outbound.Valid())
    }

    /** The contexts are this stream's own; the SSRC and the first numbers are random. */
    constructor (config: Config, inbound: SrtpContext?, outbound: SrtpContext?, ssrc: u32, first: u16, timestamp: u32)
      requires (inbound != null ==> inbound.Valid() && inbound != outbound) && (outbound != null ==> outbound.Valid())
      ensures (ValidConfig(config) ==> Valid()) && fresh(jitter) && this.inbound == inbound && this.outbound == outbound
      ensures Receiver() == R.NewReceiver(config, Inbound())
      ensures Sender() == T.NewSender(config, Outbound(), ssrc, first, timestamp)
    {
      this.config, this.inbound, this.outbound, this.ssrc := config, inbound, outbound, ssrc;
      jitter := new JitterBuffer(JitterConfig(config));
      stats, remoteSsrc, lastDtmfTimestamp := R.NO_STATS, None, None;
      started, lastPacket, lastTimeout, playing := None, None, None, false;
      sequence, this.timestamp, marker, dtmf, dtmfSending := first, timestamp, true, [], None;
      packetsSent, bytesSent := 0, 0;
    }

    /** Where packets are sent to. */
    function Destination(): (address: Address)
      reads this, jitter, inbound
      ensures address == R.Destination(Receiver())
    {
      stats.latched.UnwrapOr(config.remote)
    }

    // ----- Receiving

    method Ingest(datagram: seq<byte>, from: Address, now: int) returns (verdict: R.Verdict)
      requires Valid()
      modifies this, jitter, inbound
      ensures Valid() && Sender() == old(Sender())
      ensures (Receiver(), verdict) == R.Ingested(old(Receiver()), datagram, from, now)
    {
      hide R.Admitted, J.Valid, T.Valid, ValidConfig;
      if started.None? {
        started := Some(now);
      }
      verdict := Admit(datagram, from, now);
      match verdict {
        case Refused(Malformed) => stats := stats.(malformed := stats.malformed + 1);
        case Refused(Unauthenticated) => stats := stats.(unauthenticated := stats.unauthenticated + 1);
        case Refused(Replayed) => stats := stats.(replayed := stats.replayed + 1);
        case Refused(UnexpectedSource) => stats := stats.(source := stats.source + 1);
        case Refused(OtherPayload) => stats := stats.(payload := stats.payload + 1);
        case Taken(_) =>
      }
    }

    method Admit(datagram: seq<byte>, from: Address, now: int) returns (verdict: R.Verdict)
      requires Valid()
      modifies this, jitter, inbound
      ensures Valid() && Sender() == old(Sender())
      ensures (Receiver(), verdict) == R.Admitted(old(Receiver()), datagram, from, now)
    {
      hide J.Valid, T.Valid, ValidConfig, R.ContentOf, R.Consume, S.UnprotectRtp;
      if |datagram| < 12 || datagram[0] / 0x40 != 2 {
        return R.Refused(R.Malformed);
      }
      if R.IsRtcp(datagram[1]) {
        return R.Refused(R.OtherPayload);
      }
      match stats.latched {
        case Some(latched) =>
          if latched != from {
            return R.Refused(R.UnexpectedSource);
          }
        case None =>
          if inbound == null && from.ip != config.remote.ip {
            return R.Refused(R.UnexpectedSource);
          }
      }
      var packet := datagram;
      if inbound != null {
        var result := inbound.UnprotectRtp(datagram);
        match result {
          case Err(error) => return R.Refused(if error == S.Replay then R.Replayed else R.Unauthenticated);
          case Ok(clear) => packet := clear;
        }
      }
      if packet == [] {
        return R.Refused(R.Malformed);
      }
      var content := ReadContent(packet);
      verdict := Consume(content, |datagram|, from, now);
    }

    /** Parse a clear packet, strip its padding, and tell audio from events. */
    method ReadContent(packet: seq<byte>) returns (content: R.Content)
      requires packet != []
      ensures content == R.ContentOf(config, packet)
    {
      var parsed := H.Parse(packet);
      if parsed.None? {
        return R.Bad(R.Malformed);
      }
      var header := parsed.value;
      var start, end := header.Length(), |packet|;
      if start > end {
        return R.Bad(R.Malformed);
      }
      if header.padding {
        var pad := packet[end - 1];
        if pad == 0 || pad > end - start {
          return R.Bad(R.Malformed);
        }
        end := end - pad;
      }
      var payload := packet[start..end];
      var isDtmf := config.dtmfPayloadType == Some(header.payloadType);
      if header.payloadType != config.payloadType && !isDtmf {
        return R.Bad(R.OtherPayload);
      }
      if isDtmf {
        return if |payload| < 4 then R.Bad(R.Malformed) else R.Event(header, payload);
      }
      return R.Audio(header, payload);
    }

    method Consume(content: R.Content, size: nat, from: Address, now: int) returns (verdict: R.Verdict)
      requires Valid() && (content.Event? ==> |content.payload| >= 4)
      modifies this, jitter
      ensures Valid() && Sender() == old(Sender())
      ensures (Receiver(), verdict) == R.Consume(old(Receiver()), content, size, from, now)
    {
      hide J.Valid, T.Valid, ValidConfig, R.Trusted, R.Press, J.Pushed;
      match content {
        case Bad(why) => return R.Refused(why);
        case Event(header, payload) =>
          Trust(header, size, from, now);
          var digit := Press(header.timestamp, payload);
          return R.Taken(digit);
        case Audio(header, payload) =>
          Trust(header, size, from, now);
          var buffered := jitter.PushAt(header.sequence, header.timestamp, payload, now);
          return R.Taken(None);
      }
    }

    /** Latch, follow the SSRC, count. */
    method Trust(header: H.Header, size: nat, from: Address, now: int)
      requires Valid()
      modifies this, jitter
      ensures Valid() && Sender() == old(Sender())
      ensures Receiver() == R.Trusted(old(Receiver()), header, size, from, now)
    {
      hide J.Valid, T.Valid, ValidConfig, J.Reset;
      if stats.latched.None? {
        stats := stats.(latched := Some(from));
      }
      if remoteSsrc.Some? && remoteSsrc.value != header.ssrc {
        ForgetStream();
      }
      remoteSsrc, lastPacket := Some(header.ssrc), Some(now);
      stats := stats.(packetsReceived := stats.packetsReceived + 1, bytesReceived := stats.bytesReceived + size);
    }

    /** Nothing carries over from one SSRC to another. */
    method ForgetStream()
      requires jitter.Valid()
      modifies this`lastDtmfTimestamp, this`playing, this`stats, jitter
      ensures jitter.Valid() && jitter.Value() == J.Reset(old(jitter.Value()))
      ensures lastDtmfTimestamp == None && !playing
      ensures stats == old(stats).(ssrcChanges := old(stats).ssrcChanges + 1)
    {
      jitter.ResetAll();
      lastDtmfTimestamp, playing := None, false;
      stats := stats.(ssrcChanges := stats.ssrcChanges + 1);
    }

    /** A press is an event newer than the last, of a code that is a digit's. */
    method Press(timestamp: u32, payload: seq<byte>) returns (digit: Option<R.DtmfEvent>)
      requires |payload| >= 4
      modifies this`lastDtmfTimestamp
      ensures (Receiver(), digit) == R.Press(old(Receiver()), timestamp, payload)
    {
      if lastDtmfTimestamp.Some? && !R.IsNewer(timestamp, lastDtmfTimestamp.value) {
        return None;
      }
      var known := DtmfDigit(payload[0]);
      if known.None? {
        return None;
      }
      lastDtmfTimestamp := Some(timestamp);
      return Some(R.DtmfEvent(known.value, payload[0]));
    }

    /** `wanted` is the delay the jitter estimate calls for, `decoded` what the decoder makes of the
        packet popped or of its loss. */
    method Playout(now: int, wanted: u32, decoded: seq<int>) returns (events: seq<R.StreamEvent>)
      requires Valid()
      modifies this, jitter
      ensures Valid() && Sender() == old(Sender())
      ensures (Receiver(), events) == R.Played(old(Receiver()), now, wanted, decoded)
    {
      hide J.Valid, T.Valid, J.Popped, R.Resized;
      events := [];
      if started.None? {
        started := Some(now);
      }
      var since := lastPacket.UnwrapOr(started.value);
      var reported := if lastTimeout.Some? && lastTimeout.value > since then lastTimeout.value else since;
      if R.Elapsed(now, reported) >= config.rtpTimeout {
        lastTimeout := Some(now);
        events := [R.Timeout(R.Elapsed(now, since))];
      }
      var samples := config.codec.SamplesPerPacket();
      var packet := jitter.PopAt(now, wanted);
      if packet.Some? {
        playing := true;
        var kind := if packet.value.payload == [] then R.Concealed else R.Received;
        events := events + [R.Frame(R.Resized(decoded, samples), kind)];
      } else if playing {
        events := events + [R.Frame(R.Resized([], samples), R.Silence)];
      } else {
        assert events == events + [];
      }
    }

    // ----- Sending

    method QueueDtmf(digit: char) returns (ok: bool)
      requires Valid()
      modifies this`dtmf
      ensures Valid() && Receiver() == old(Receiver())
      ensures (Sender(), ok) == T.Queued(old(Sender()), digit)
    {
      hide J.Valid, ValidConfig, DtmfEventCode;
      var event := DtmfEventCode(digit);
      if event.None? || config.dtmfPayloadType.None? {
        return false;
      }
      dtmf := dtmf + [event.value];
      return true;
    }

    /** One call's datagrams, or nothing at all for a frame of the wrong size. `encoded` is
        what the encoder makes of the frame. */
    method Packetize(pcm: seq<int>, encoded: seq<byte>) returns (datagrams: Option<seq<seq<byte>>>)
      requires Valid()
      modifies this`sequence, this`timestamp, this`marker, this`dtmf, this`dtmfSending,
               this`packetsSent, this`bytesSent, outbound
      ensures Valid() && Receiver() == old(Receiver())
      ensures datagrams.None? <==> |pcm| != config.codec.SamplesPerPacket()
      ensures datagrams.None? ==> Sender() == old(Sender())
      ensures datagrams.Some? ==> (Sender(), datagrams.value) == T.Packetized(old(Sender()), encoded)
    {
      hide RR.Valid, T.Valid, T.ProtectedAll, T.Sizes, T.PacketsOf, T.WithNextDigit, T.Advanced;
      if |pcm| != config.codec.SamplesPerPacket() {
        return None;
      }
      T.PacketizedKeepsValid(Sender(), encoded);
      TakeDigit();
      var sent := SendCall(encoded);
      return Some(sent);
    }

    /** Take the next digit off the queue, if none is under way. */
    method TakeDigit()
      modifies this`dtmf, this`dtmfSending
      ensures Sender() == T.WithNextDigit(old(Sender()))
    {
      if dtmfSending.None? && dtmf != [] {
        dtmfSending, dtmf := Some(T.DtmfSend(dtmf[0], T.DtmfTimestamp(config, timestamp), 0)), dtmf[1..];
      }
    }

    /** The packet of the digit under way, the last one three times; or the audio. Then 20 ms on. */
    method SendCall(encoded: seq<byte>) returns (datagrams: seq<seq<byte>>)
      requires T.Valid(Sender()) && (outbound != null ==> outbound.Valid())
      modifies this`sequence, this`timestamp, this`packetsSent, this`bytesSent, this`marker, this`dtmfSending, outbound
      ensures outbound != null ==> outbound.Valid()
      ensures (Outbound(), datagrams) == T.ProtectedAll(old(Outbound()), T.PacketsOf(old(Sender()), encoded))
      ensures Sender() == T.Advanced(old(Sender())).(
        srtp := Outbound(), packetsSent := old(packetsSent) + |datagrams|,
        bytesSent := old(bytesSent) + T.Sizes(datagrams))
    {
      hide ValidConfig, T.ProtectedAll, T.Sizes, T.DtmfPayload, T.PacketsOf, T.HeaderFor;
      ghost var packets := T.PacketsOf(Sender(), encoded);
      match dtmfSending {
        case Some(send) =>
          var calls: u16 := send.sent + 1;
          var end := calls >= T.CallsPerDigit(config);
          var payload := T.DtmfPayload(config, send.event, calls);
          T.PacketsOfAre(Sender(), encoded, config.dtmfPayloadType.value, send.timestamp, calls == 1, payload);
          datagrams := SendCopies(config.dtmfPayloadType.value, send.timestamp, calls == 1, payload,
                                  if end then 3 else 1, packets);
          dtmfSending, marker := if end then None else Some(send.(sent := calls)), true;
        case None =>
          T.PacketsOfAre(Sender(), encoded, config.payloadType, timestamp, marker, encoded);
          datagrams := SendCopies(config.payloadType, timestamp, marker, encoded, 1, packets);
          marker := false;
      }
      timestamp := (timestamp + config.codec.TicksPerPacket()) % TWO32;
    }

    /** Send `n` packets alike but for their sequence numbers. */
    method SendCopies(payloadType: byte, timestamp: u32, marked: bool, payload: seq<byte>, n: nat,
                      ghost packets: seq<H.Packet>) returns (datagrams: seq<seq<byte>>)
      requires outbound != null ==> outbound.Valid()
      requires |packets| == n
      requires forall i :: 0 <= i < n ==>
        packets[i] == H.Packet(T.HeaderFor(Sender(), payloadType, i, timestamp, marked), payload)
      modifies this`sequence, this`packetsSent, this`bytesSent, outbound
      ensures outbound != null ==> outbound.Valid()
      ensures (Outbound(), datagrams) == T.ProtectedAll(old(Outbound()), packets)
      ensures sequence == (old(sequence) + n) % TWO16
      ensures |datagrams| == n && packetsSent == old(packetsSent) + n && bytesSent == old(bytesSent) + T.Sizes(datagrams)
    {
      hide T.Protected, T.ProtectedAll, T.HeaderFor, T.Sizes;
      datagrams := [];
      assert packets[..0] == [];
      T.NothingProtected(Outbound());
      for i := 0 to n
        invariant outbound != null ==> outbound.Valid()
        invariant (Outbound(), datagrams) == T.ProtectedAll(old(Outbound()), packets[..i])
        invariant sequence == (old(sequence) + i) % TWO16 && |datagrams| == i
        invariant packetsSent == old(packetsSent) + i && bytesSent == old(bytesSent) + T.Sizes(datagrams)
      {
        var header := H.NewHeader(payloadType, sequence, timestamp, ssrc);
        if marked {
          header := header.WithMarker();
        }
        T.HeaderIs(old(Sender()), sequence, payloadType, i, timestamp, marked);
        var datagram := Finish(header, payload);
        T.OneMoreProtected(old(Outbound()), packets, i);
        T.OneMoreSize(datagrams, datagram);
        datagrams := datagrams + [datagram];
      }
      assert packets[..n] == packets;
    }

    /** One packet on its way: printed, numbered, protected, counted. */
    method Finish(header: H.Header, payload: seq<byte>) returns (datagram: seq<byte>)
      requires outbound != null ==> outbound.Valid()
      requires header.version == 2 && header.csrc == [] && !header.extension && header.extensionData.None?
      modifies this`sequence, this`packetsSent, this`bytesSent, outbound
      ensures outbound != null ==> outbound.Valid()
      ensures (Outbound(), datagram) == T.Protected(old(Outbound()), H.Packet(header, payload))
      ensures sequence == (old(sequence) + 1) % TWO16
      ensures packetsSent == old(packetsSent) + 1 && bytesSent == old(bytesSent) + |datagram|
    {
      hide H.Printed, S.Sealed, S.NextSend;
      T.AlwaysProtectable(H.Packet(header, payload));
      var printed := H.Print(header);
      datagram := printed + payload;
      sequence := (sequence + 1) % TWO16;
      if outbound != null {
        var result := outbound.ProtectRtp(datagram);
        datagram := result.value;
      }
      packetsSent, bytesSent := packetsSent + 1, bytesSent + |datagram|;
    }
  }
}
