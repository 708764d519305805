/** How a stream is set up, and the small pure parts both its directions use. */
module StreamConfig {
  import opened Bytes
  import Jitter

  const PACKET_DURATION_MS := 20

  datatype CodecType = Pcmu | Pcma | G729 | G722 | Opus {
    function ClockRate(): u32 {
      if Opus? then 48000 else 8000
    }

    function PcmRate(): u32 {
      match this
      case G722 => 16000
      case Opus => 48000
      case _ => 8000
    }

    function SamplesPerPacket(): nat {
      PcmRate() * PACKET_DURATION_MS / 1000
    }

    function TicksPerPacket(): u32 {
      ClockRate() * PACKET_DURATION_MS / 1000
    }
  }

  datatype Address = Address(ip: nat, port: u16)

  datatype Config = Config(
    codec: CodecType, payloadType: byte, dtmfPayloadType: Option<byte>, dtmfClockRate: u32,
    remote: Address, jitter: Jitter.Mode, maxPackets: u64,
    /** Nanoseconds. */
    rtpTimeout: nat, dtmfPackets: u16)

  /** Refused on setup: every audio packet would be taken for a digit. */
  predicate SharesPayloadType(c: Config) {
    c.dtmfPayloadType == Some(c.payloadType)
  }

  /** A jitter range that is one, and a telephone-event clock whose durations 32 bits can hold. */
  predicate Sound(c: Config) {
    && Jitter.ValidMode(c.jitter)
    && 65535 * (c.dtmfClockRate * PACKET_DURATION_MS / 1000) < TWO32 && c.dtmfClockRate * PACKET_DURATION_MS < TWO32
  }

  predicate ValidConfig(c: Config) {
    !SharesPayloadType(c) && Sound(c)
  }

  function JitterConfig(c: Config): Jitter.Config {
    Jitter.Config(c.jitter, c.codec.ClockRate(), c.maxPackets)
  }

  // ----- Digits

  function Upper(c: char): char {
    if 'a' <= c <= 'z' then (c as int - 32) as char else c
  }

  /** A digit's event code (section 3.2 of RFC 4733), in either case. */
  function DtmfEventCode(digit: char): Option<byte> {
    var d := Upper(digit);
    if '0' <= d <= '9' then Some(d as int - '0' as int)
    else if d == '*' then Some(10)
    else if d == '#' then Some(11)
    else if 'A' <= d <= 'D' then Some(d as int - 'A' as int + 12)
    else None
  }

  /** The digit an event code stands for, if it stands for any. */
  function DtmfDigit(event: byte): Option<char> {
    if event <= 9 then Some(('0' as int + event) as char)
    else if event == 10 then Some('*')
    else if event == 11 then Some('#')
    else if event <= 15 then Some(('A' as int + event - 12) as char)
    else None
  }

  /** A digit's code stands for that digit in upper case, and a code that stands for any is its
      digit's. */
  lemma DigitsRoundTrip(digit: char, event: byte)
    ensures DtmfEventCode(digit).Some? ==> DtmfDigit(DtmfEventCode(digit).value) == Some(Upper(digit))
    ensures DtmfDigit(event).Some? ==> DtmfEventCode(DtmfDigit(event).value) == Some(event)
  {
  }

  /** One of the sixteen, in either case of letter. */
  predicate IsDtmfChar(c: char) {
    '0' <= c <= '9' || c == '*' || c == '#' || 'A' <= c <= 'D' || 'a' <= c <= 'd'
  }

  /** The codes are those of section 3.2 of RFC 4733. */
  lemma DigitTable(c: char)
    ensures DtmfEventCode(c).Some? <==> IsDtmfChar(c)
    ensures '0' <= c <= '9' ==> DtmfEventCode(c) == Some(c as int - 48)
    ensures DtmfEventCode('*') == Some(10) && DtmfEventCode('#') == Some(11)
    ensures 'A' <= c <= 'D' ==> DtmfEventCode(c) == Some(c as int - 65 + 12)
    ensures 'a' <= c <= 'd' ==> DtmfEventCode(c) == Some(c as int - 97 + 12)
  {
  }

  /** A packet is 20 ms on either clock; G.722 runs its timestamps at half its sampling rate, as RFC 3551 keeps it. */
  lemma CodecTable(c: CodecType)
    ensures 50 * c.SamplesPerPacket() == c.PcmRate() && 50 * c.TicksPerPacket() == c.ClockRate()
    ensures c == G722 ==> c.PcmRate() == 16000 && c.ClockRate() == 8000
    ensures c == Opus ==> c.PcmRate() == 48000 && c.ClockRate() == 48000
    ensures c != G722 && c != Opus ==> c.PcmRate() == 8000 && c.ClockRate() == 8000
  {
  }
}
