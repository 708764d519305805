/** The sending half of a headless stream: numbering, audio, and digits in place of audio. Encoders
    are opaque: what one made of the frame is an input. */
module StreamSender {
  import opened Bytes
  import opened StreamConfig
  import H = RtpHeader
  import S = Srtp

  const END_BIT := 0x80
  const DTMF_VOLUME := 0x0A

  /** The digit under way: its event code, the event's timestamp, and how many calls it has had. */
  datatype DtmfSend = DtmfSend(event: byte, timestamp: u32, sent: u16)

  datatype Outbound = Outbound(keys: S.Keys, tx: S.SendState)

  datatype Sender = Sender(
    config: Config, srtp: Option<Outbound>, ssrc: u32, sequence: u16, timestamp: u32, marker: bool,
    dtmf: seq<byte>, dtmfSending: Option<DtmfSend>, packetsSent: nat, bytesSent: nat)

  function NewSender(config: Config, srtp: Option<Outbound>, ssrc: u32, first: u16, timestamp: u32): Sender {
    Sender(config, srtp, ssrc, first, timestamp, true, [], None, 0, 0)
  }

  function CallsPerDigit(config: Config): u16 {
    if config.dtmfPackets < 1 then 1 else config.dtmfPackets
  }

  /** A digit under way has calls to go and was negotiated; so was anything queued. */
  ghost predicate Valid(s: Sender) {
    && ValidConfig(s.config)
    && (s.dtmfSending.Some? ==> s.config.dtmfPayloadType.Some? && s.dtmfSending.value.sent < CallsPerDigit(s.config))
    && (s.dtmf != [] ==> s.config.dtmfPayloadType.Some?)
  }

  /** An audio timestamp converted for telephone events. */
  function DtmfTimestamp(config: Config, timestamp: u32): u32 {
    var audio := config.codec.ClockRate();
    var event := config.dtmfClockRate;
    if audio == event || audio == 0 then timestamp
    else (timestamp * event) / audio % TWO32
  }

  // ----- One call, as packets

  /** Take the next digit off the queue, if none is under way. */
  function WithNextDigit(s: Sender): Sender {
    if s.dtmfSending.None? && s.dtmf != []
    then s.(dtmfSending := Some(DtmfSend(s.dtmf[0], DtmfTimestamp(s.config, s.timestamp), 0)), dtmf := s.dtmf[1..])
    else s
  }

  /** The duration so far on the event clock, capped at its 16-bit field. */
  function Duration(config: Config, sent: u16): u16
    requires ValidConfig(config)
  {
    var calls: int := sent;
    var perPacket := config.dtmfClockRate * PACKET_DURATION_MS / 1000;
    if calls * perPacket > 0xFFFF then 0xFFFF else calls * perPacket
  }

  /** Telephone-event payload after `sent` calls. */
  function DtmfPayload(config: Config, event: byte, sent: u16): (payload: seq<byte>)
    requires ValidConfig(config)
    ensures |payload| == 4
  {
    var end := sent >= CallsPerDigit(config);
    [event, if end then END_BIT + DTMF_VOLUME else DTMF_VOLUME] + ToBe16(Duration(config, sent))
  }

  function HeaderFor(s: Sender, payloadType: byte, n: nat, timestamp: u32, marker: bool): H.Header {
    var h := H.NewHeader(payloadType, (s.sequence + n) % TWO16, timestamp, s.ssrc);
    if marker then h.WithMarker() else h
  }

  /** How many packets the call sends: the last of a digit goes three times. */
  function Copies(s: Sender): nat {
    if s.dtmfSending.Some? && s.dtmfSending.value.sent + 1 >= CallsPerDigit(s.config) then 3 else 1
  }

  /** What every packet of the call carries: payload type, timestamp, marker, payload. */
  function Carried(s: Sender, encoded: seq<byte>): (byte, u32, bool, seq<byte>)
    requires Valid(s)
  {
    match s.dtmfSending
    case Some(send) =>
      (s.config.dtmfPayloadType.value, send.timestamp, send.sent + 1 == 1,
       DtmfPayload(s.config, send.event, send.sent + 1))
    case None => (s.config.payloadType, s.timestamp, s.marker, encoded)
  }

  /** The packets of one call: the packet of the digit under way, or the audio. */
  function PacketsOf(s: Sender, encoded: seq<byte>): (packets: seq<H.Packet>)
    requires Valid(s)
    ensures |packets| == Copies(s)
  {
    var (payloadType, timestamp, marker, payload) := Carried(s, encoded);
    seq<H.Packet>(Copies(s), i requires 0 <= i < Copies(s) =>
      H.Packet(HeaderFor(s, payloadType, i, timestamp, marker), payload))
  }

  lemma PacketsOfAre(s: Sender, encoded: seq<byte>, payloadType: byte, timestamp: u32, marker: bool, payload: seq<byte>)
    requires Valid(s) && Carried(s, encoded) == (payloadType, timestamp, marker, payload)
    ensures forall i :: 0 <= i < Copies(s) ==>
      PacketsOf(s, encoded)[i] == H.Packet(HeaderFor(s, payloadType, i, timestamp, marker), payload)
  {
    hide Carried, HeaderFor;
  }

  /** Everything but protection and counting. */
  function Advanced(s: Sender): (after: Sender)
    requires Valid(s)
  {
    var moved := s.(sequence := (s.sequence + Copies(s)) % TWO16,
                    timestamp := (s.timestamp + s.config.codec.TicksPerPacket()) % TWO32);
    match s.dtmfSending
    case None => moved.(marker := false)
    case Some(send) =>
      moved.(marker := true,
             dtmfSending := if send.sent + 1 >= CallsPerDigit(s.config) then None else Some(send.(sent := send.sent + 1)))
  }

  // ----- Protection

  /** What goes on the wire for a packet, and SRTP's counters after it. */
  function Protected(srtp: Option<Outbound>, packet: H.Packet): (Option<Outbound>, seq<byte>) {
    var bytes := H.PrintedPacket(packet);
    match srtp
    case None => (None, bytes)
    case Some(out) =>
      var (tx, result) := S.ProtectRtp(out.keys, out.tx, bytes);
      (Some(out.(tx := tx)), match result case Ok(sealed) => sealed case Err(_) => [])
  }

  function ProtectedAll(srtp: Option<Outbound>, packets: seq<H.Packet>): (Option<Outbound>, seq<seq<byte>>) {
    if packets == [] then (srtp, [])
    else
      var n := |packets| - 1;
      var (before, datagrams) := ProtectedAll(srtp, packets[..n]);
      var (after, datagram) := Protected(before, packets[n]);
      (after, datagrams + [datagram])
  }

  function Sizes(datagrams: seq<seq<byte>>): nat {
    if datagrams == [] then 0 else Sizes(datagrams[..|datagrams| - 1]) + |datagrams[|datagrams| - 1]|
  }

  lemma NothingProtected(srtp: Option<Outbound>)
    ensures ProtectedAll(srtp, []) == (srtp, []) && Sizes([]) == 0
  {
  }

  lemma OneMoreProtected(srtp: Option<Outbound>, packets: seq<H.Packet>, n: nat)
    requires n < |packets|
    ensures var (before, datagrams) := ProtectedAll(srtp, packets[..n]);
            var (after, datagram) := Protected(before, packets[n]);
            ProtectedAll(srtp, packets[..n + 1]) == (after, datagrams + [datagram])
  {
    hide Protected;
    assert packets[..n + 1][..n] == packets[..n];
  }

  lemma OneMoreSize(datagrams: seq<seq<byte>>, datagram: seq<byte>)
    ensures Sizes(datagrams + [datagram]) == Sizes(datagrams) + |datagram|
  {
    assert (datagrams + [datagram])[..|datagrams|] == datagrams;
  }

  lemma HeaderIs(s: Sender, sequence: u16, payloadType: byte, n: nat, timestamp: u32, marker: bool)
    requires sequence == (s.sequence + n) % TWO16
    ensures var h := H.NewHeader(payloadType, sequence, timestamp, s.ssrc);
            HeaderFor(s, payloadType, n, timestamp, marker) == if marker then h.WithMarker() else h
  {
  }

  /** A packet the sender makes is always one SRTP takes: protection cannot fail. */
  lemma AlwaysProtectable(packet: H.Packet)
    requires packet.header.version == 2 && packet.header.csrc == []
    requires !packet.header.extension && packet.header.extensionData.None?
    ensures |H.PrintedPacket(packet)| >= 12 && S.RtpHeaderLen(H.PrintedPacket(packet)) == Some(12)
  {
    var bytes := H.PrintedPacket(packet);
    assert bytes[0] == H.FirstByte(packet.header);
  }

  /** One call: 20 ms of audio, or of a digit in its place. */
  function Packetized(s: Sender, encoded: seq<byte>): (Sender, seq<seq<byte>>)
    requires Valid(s)
  {
    var s1 := WithNextDigit(s);
    var (srtp, datagrams) := ProtectedAll(s.srtp, PacketsOf(s1, encoded));
    (Advanced(s1).(srtp := srtp, packetsSent := s.packetsSent + |datagrams|, bytesSent := s.bytesSent + Sizes(datagrams)),
     datagrams)
  }

  lemma PacketizedKeepsValid(s: Sender, encoded: seq<byte>)
    requires Valid(s)
    ensures Valid(WithNextDigit(s)) && Valid(Packetized(s, encoded).0)
  {
  }

  /** Queue a digit. */
  function Queued(s: Sender, digit: char): (Sender, bool) {
    match DtmfEventCode(digit)
    case None => (s, false)
    case Some(event) =>
      if s.config.dtmfPayloadType.None? then (s, false) else (s.(dtmf := s.dtmf + [event]), true)
  }
}
