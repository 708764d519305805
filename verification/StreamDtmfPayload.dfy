/** What the packets of a digit say, byte by byte: the digit, whether it has ended, and how many event ticks it has
    lasted so far (section 2.3 of RFC 4733). */
module StreamDtmfPayload {
  import opened Bytes
  import opened StreamConfig
  import opened StreamSender
  import opened StreamSenderRuns
  import opened StreamDtmfClock

  function Capped(ticks: int): int {
    if ticks > 65535 then 65535 else ticks
  }

  /** The whole ticks of a clock in the 20 ms of a call. */
  predicate TicksACall(rate: int, ticks: int) {
    50 * ticks <= rate < 50 * (ticks + 1)
  }

  /** The payload of a digit's packet: its code, the end bit and volume 10, and the ticks, in two bytes. */
  predicate SaysDigit(payload: seq<byte>, event: byte, ended: bool, ticks: int) {
    && |payload| == 4 && payload[0] == event && payload[1] == (if ended then 138 else 10)
    && payload[2] as int * 256 + payload[3] as int == ticks
  }

  lemma DurationIs(config: Config, sent: u16, ticks: int)
    requires ValidConfig(config) && TicksACall(config.dtmfClockRate, ticks)
    ensures Duration(config, sent) as int == Capped(sent as int * ticks)
  {
    assert config.dtmfClockRate * PACKET_DURATION_MS / 1000 == ticks;
  }

  /** Call number `sent` of a digit, counting from 1 and whatever is queued meanwhile: one packet, or three in the
      last of max(1, dtmf_packets) calls; each says how many whole ticks the calls so far have lasted, up to what two
      bytes hold, and whether this is the last call. */
  lemma DigitSays(s: Sender, calls: seq<Call>, event: byte, timestamp: u32, n: nat, ticks: int)
    requires Valid(s) && InDigit(s, event, timestamp, 0) && TicksACall(s.config.dtmfClockRate, ticks)
    requires n < |calls| && calls[n].Send? && Sends(calls[..n]) < CallsPerDigit(s.config)
    ensures var sent, packets := Sends(calls[..n]) + 1, PacketsIn(After(s, calls[..n]), calls[n]);
            var last := sent == if s.config.dtmfPackets == 0 then 1 else s.config.dtmfPackets as int;
            && |packets| == (if last then 3 else 1)
            && forall i :: 0 <= i < |packets| ==>
                 packets[i].header.timestamp == timestamp
                 && SaysDigit(packets[i].payload, event, last, Capped(sent * ticks))
  {
    hide After, PacketsIn, InDigit, Step, StreamSender.Valid, Sends, Duration;
    var sent := Sends(calls[..n]);
    DigitOccupies(s, calls, event, timestamp, n);
    DigitCall(After(s, calls[..n]), calls[n], event, timestamp, sent);
    ConfigIsValid(s);
    DurationIs(s.config, (sent + 1) as u16, ticks);
    TwoBytes(Duration(s.config, (sent + 1) as u16));
  }

  lemma ConfigIsValid(s: Sender)
    requires Valid(s)
    ensures ValidConfig(s.config)
  {
  }

  lemma TwoBytes(x: u16)
    ensures |ToBe16(x)| == 2 && ToBe16(x)[0] as int * 256 + ToBe16(x)[1] as int == x as int
  {
  }

  /** On an event clock that is the audio clock or a multiple of it those are exactly the event ticks since the
      timestamp the digit carries. */
  lemma DigitSaysElapsed(s: Sender, calls: seq<Call>, event: byte, timestamp: u32, n: nat)
    requires Valid(s) && InDigit(s, event, timestamp, 0) && WholeClocks(s.config)
    requires n < |calls| && calls[n].Send? && Sends(calls[..n]) < CallsPerDigit(s.config)
    ensures var sent, packets := Sends(calls[..n]) + 1, PacketsIn(After(s, calls[..n]), calls[n]);
            var elapsed := Ratio(s.config) * (Clock(s, sent) - Clock(s, 0));
            var last := sent == if s.config.dtmfPackets == 0 then 1 else s.config.dtmfPackets as int;
            && packets != []
            && forall i :: 0 <= i < |packets| ==> SaysDigit(packets[i].payload, event, last, Capped(elapsed))
  {
    hide After, PacketsIn, InDigit, StreamSender.Valid, Sends, SaysDigit;
    var ticks := Ratio(s.config) * s.config.codec.TicksPerPacket();
    WholeTicksACall(s.config);
    DigitSays(s, calls, event, timestamp, n, ticks);
    TicksAdd(s, Sends(calls[..n]) + 1);
  }

  lemma WholeTicksACall(config: Config)
    requires WholeClocks(config)
    ensures TicksACall(config.dtmfClockRate, Ratio(config) * config.codec.TicksPerPacket())
  {
    RatesAre(config);
    var audio: int, event: int := config.codec.ClockRate(), config.dtmfClockRate;
    assert event == Ratio(config) * audio;
    assert audio == 50 * config.codec.TicksPerPacket();
  }

  lemma TicksAdd(s: Sender, sent: nat)
    ensures Ratio(s.config) * (Clock(s, sent) - Clock(s, 0)) == sent * (Ratio(s.config) * s.config.codec.TicksPerPacket())
  {
    var ratio, ticks: int := Ratio(s.config), s.config.codec.TicksPerPacket();
    assert Clock(s, sent) - Clock(s, 0) == sent * ticks;
    assert ratio * (sent * ticks) == sent * (ratio * ticks);
  }
}
