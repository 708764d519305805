/** SRTP and SRTCP protection as RFC 3711 lays it out: the rollover counter of the sender, the
    guess at it by the receiver, the replay window per source, and the packet formats.

    AES in counter mode and HMAC-SHA1 are parameters: a keystream byte for each position, and
    a tag for each byte string. */
module Srtp {
  import opened Bytes
  import opened ReplayWindow
  import opened SourceTable

  const AUTH_TAG_LEN := 10
  const SESSION_SALT_LEN := 14
  const TWO31 := 0x8000_0000

  type Tag = s: seq<byte> | |s| == 10 witness [0, 0, 0, 0, 0, 0, 0, 0, 0, 0]
  type Salt = s: seq<byte> | |s| == 14 witness [0, 0, 0, 0, 0, 0, 0, 0, 0, 0, 0, 0, 0, 0]
  type Iv = s: seq<byte> | |s| == 16 witness [0, 0, 0, 0, 0, 0, 0, 0, 0, 0, 0, 0, 0, 0, 0, 0]

  /** The session keys, by what can be done with them. */
  datatype Keys = Keys(
    rtpKeystream: (Iv, nat) -> byte,
    rtpSalt: Salt,
    rtpTag: (seq<byte>, u32) -> Tag,
    rtcpKeystream: (Iv, nat) -> byte,
    rtcpSalt: Salt,
    rtcpTag: seq<byte> -> Tag)

  datatype Error = TooShort | Truncated | TooManySources | AuthenticationFailed | Replay

  datatype Result<+T> = Ok(value: T) | Err(error: Error)

  // ----- Packet layout

  /** How much of a packet stays in the clear: the fixed header, the CSRCs it announces and the
      extension it announces, if all of that is there (section 5.3.1 of RFC 3550). */
  function RtpHeaderLen(packet: seq<byte>): (len: Option<nat>)
    ensures len.Some? ==> 12 <= len.value <= |packet|
  {
    if |packet| == 0 then None
    else
      var fixed := 12 + packet[0] % 0x10 * 4;
      if packet[0] / 0x10 % 2 == 0 then
        if |packet| >= fixed then Some(fixed) else None
      else if |packet| < fixed + 4 then None
      else
        var len := fixed + 4 + Be16(packet[fixed + 2..fixed + 4]) * 4;
        if |packet| >= len then Some(len) else None
  }

  function SeqOf(packet: seq<byte>): u16
    requires |packet| >= 12
  {
    Be16(packet[2..4])
  }

  function SsrcOf(packet: seq<byte>): u32
    requires |packet| >= 12
  {
    Be32(packet[8..12])
  }

  function RtcpSsrcOf(packet: seq<byte>): u32
    requires |packet| >= 8
  {
    Be32(packet[4..8])
  }

  // ----- Initialization vectors

  function XorSalt(block: Iv, salt: Salt): Iv {
    seq(16, i requires 0 <= i < 16 => if i < SESSION_SALT_LEN then XorByte(block[i], salt[i]) else block[i])
  }

  /** Section 4.1 of RFC 3711: the salt, the SSRC and the 48-bit packet index, each in its place. */
  function RtpIv(salt: Salt, ssrc: u32, roc: u32, s: u16): Iv {
    XorSalt([0, 0, 0, 0] + ToBe32(ssrc) + ToBe32(roc) + ToBe16(s) + [0, 0], salt)
  }

  function RtcpIv(salt: Salt, ssrc: u32, index: u32): Iv {
    XorSalt([0, 0, 0, 0] + ToBe32(ssrc) + [0, 0] + ToBe32(index) + [0, 0], salt)
  }

  /** Encrypt, and equally decrypt, everything from `start` on. */
  function ApplyKeystream(packet: seq<byte>, start: nat, keystream: (Iv, nat) -> byte, iv: Iv): (out: seq<byte>)
    requires start <= |packet|
    ensures |out| == |packet| && out[..start] == packet[..start]
  {
    var body: seq<byte> :=
      seq<byte>(|packet| - start, i requires 0 <= i < |packet| - start => XorByte(packet[start + i], keystream(iv, i)));
    packet[..start] + body
  }

  // ----- Sending

  datatype SendState = SendState(roc: u32, sl: u16, initialized: bool)

  const FRESH_SENDER := SendState(0, 0, false)

  function NextSend(tx: SendState, s: u16): SendState {
    var roc := if tx.initialized && s == 0 && tx.sl == 0xFFFF then (tx.roc + 1) % TWO32 else tx.roc;
    SendState(roc, s, true)
  }

  /** What goes on the wire for `packet` under rollover counter `roc`. */
  function Sealed(keys: Keys, packet: seq<byte>, roc: u32): seq<byte>
    requires |packet| >= 12 && RtpHeaderLen(packet).Some?
  {
    var iv := RtpIv(keys.rtpSalt, SsrcOf(packet), roc, SeqOf(packet));
    var out := ApplyKeystream(packet, RtpHeaderLen(packet).value, keys.rtpKeystream, iv);
    out + keys.rtpTag(out, roc)
  }

  function ProtectRtp(keys: Keys, tx: SendState, packet: seq<byte>): (SendState, Result<seq<byte>>) {
    if |packet| < 12 then (tx, Err(TooShort))
    else if RtpHeaderLen(packet).None? then (tx, Err(Truncated))
    else
      var next := NextSend(tx, SeqOf(packet));
      (next, Ok(Sealed(keys, packet, next.roc)))
  }

  // ----- Receiving

  /** What is known of one source: the two halves of the highest index authenticated, and the window
      below it. */
  datatype RecvState = RecvState(roc: u32, sl: u16, window: Window) {

    /** The ROC a packet numbered `s` most likely carries (Appendix A of RFC 3711). */
    function EstimateRoc(s: u16): u32 {
      if window.highest.None? then roc
      else
        var diff := s - sl;
        if diff > 0x8000 then (roc - 1) % TWO32
        else if diff < -0x8000 then (roc + 1) % TWO32
        else roc
    }

    /** Take in an authenticated packet. Only a new highest index moves `roc` and `sl`. */
    function Advance(estimated: u32, s: u16): RecvState
      requires window.Admits(PacketIndex(estimated, s))
    {
      var index := PacketIndex(estimated, s);
      var newest := window.highest.None? || index > window.highest.value;
      RecvState(if newest then estimated else roc, if newest then s else sl, window.Accept(index))
    }

    /** `roc` and `sl` are the two halves of the highest index. */
    ghost predicate Consistent() {
      match window.highest
      case None => roc == 0
      case Some(h) => h == PacketIndex(roc, sl)
    }
  }

  const NEW_SOURCE := RecvState(0, 0, EMPTY)

  function PacketIndex(roc: u32, s: u16): u64 {
    var cycles: int := roc;
    cycles * TWO16 + s
  }

  function StateFor(rx: seq<Source<RecvState>>, ssrc: u32): RecvState {
    Lookup(rx, ssrc).UnwrapOr(NEW_SOURCE)
  }

  function Portion(packet: seq<byte>): seq<byte>
    requires |packet| >= AUTH_TAG_LEN
  {
    packet[..|packet| - AUTH_TAG_LEN]
  }

  /** Whether the tag on `packet` is right for rollover counter `roc`. */
  predicate Authentic(keys: Keys, packet: seq<byte>, roc: u32)
    requires |packet| >= AUTH_TAG_LEN
  {
    keys.rtpTag(Portion(packet), roc) == packet[|packet| - AUTH_TAG_LEN..]
  }

  function Opened(keys: Keys, packet: seq<byte>, roc: u32): seq<byte>
    requires |packet| >= 12 + AUTH_TAG_LEN && RtpHeaderLen(Portion(packet)).Some?
  {
    var iv := RtpIv(keys.rtpSalt, SsrcOf(packet), roc, SeqOf(packet));
    ApplyKeystream(Portion(packet), RtpHeaderLen(Portion(packet)).value, keys.rtpKeystream, iv)
  }

  function UnprotectRtp(keys: Keys, rx: seq<Source<RecvState>>, packet: seq<byte>)
    : (seq<Source<RecvState>>, Result<seq<byte>>)
  {
    if |packet| < 12 + AUTH_TAG_LEN then (rx, Err(TooShort))
    else if RtpHeaderLen(Portion(packet)).None? then (rx, Err(Truncated))
    else
      var s, ssrc := SeqOf(packet), SsrcOf(packet);
      if !HasRoom(rx, ssrc) then (rx, Err(TooManySources))
      else
        var state := StateFor(rx, ssrc);
        var roc := state.EstimateRoc(s);
        if !Authentic(keys, packet, roc) then (rx, Err(AuthenticationFailed))
        else if !state.window.Admits(PacketIndex(roc, s)) then (rx, Err(Replay))
        else (Remember(rx, Source(ssrc, state.Advance(roc, s))), Ok(Opened(keys, packet, roc)))
  }

  // ----- RTCP

  function NextRtcpIndex(index: u32): u32 {
    (index + 1) % TWO32 % TWO31
  }

  function SealedRtcp(keys: Keys, packet: seq<byte>, index: u32): seq<byte>
    requires |packet| >= 8 && index < TWO31
  {
    var iv := RtcpIv(keys.rtcpSalt, RtcpSsrcOf(packet), index);
    var out := ApplyKeystream(packet, 8, keys.rtcpKeystream, iv) + ToBe32(index + TWO31);
    out + keys.rtcpTag(out)
  }

  function ProtectRtcp(keys: Keys, index: u32, packet: seq<byte>): (u32, Result<seq<byte>>)
    requires index < TWO31
  {
    if |packet| < 8 then (index, Err(TooShort))
    else (NextRtcpIndex(index), Ok(SealedRtcp(keys, packet, index)))
  }

  /** The E flag and the 31-bit index, just before the tag. */
  function RtcpTrailer(packet: seq<byte>): u32
    requires |packet| >= 8 + 4 + AUTH_TAG_LEN
  {
    Be32(packet[|packet| - AUTH_TAG_LEN - 4..|packet| - AUTH_TAG_LEN])
  }

  predicate AuthenticRtcp(keys: Keys, packet: seq<byte>)
    requires |packet| >= AUTH_TAG_LEN
  {
    keys.rtcpTag(Portion(packet)) == packet[|packet| - AUTH_TAG_LEN..]
  }

  function OpenedRtcp(keys: Keys, packet: seq<byte>): seq<byte>
    requires |packet| >= 8 + 4 + AUTH_TAG_LEN
  {
    var body := packet[..|packet| - AUTH_TAG_LEN - 4];
    var trailer := RtcpTrailer(packet);
    if trailer < TWO31 then body
    else
      var iv := RtcpIv(keys.rtcpSalt, RtcpSsrcOf(packet), trailer % TWO31);
      ApplyKeystream(body, 8, keys.rtcpKeystream, iv)
  }

  function WindowFor(rx: seq<Source<Window>>, ssrc: u32): Window {
    Lookup(rx, ssrc).UnwrapOr(EMPTY)
  }

  function UnprotectRtcp(keys: Keys, rx: seq<Source<Window>>, packet: seq<byte>)
    : (seq<Source<Window>>, Result<seq<byte>>)
  {
    if |packet| < 8 + 4 + AUTH_TAG_LEN then (rx, Err(TooShort))
    else if !AuthenticRtcp(keys, packet) then (rx, Err(AuthenticationFailed))
    else
      var ssrc, index := RtcpSsrcOf(packet), RtcpTrailer(packet) % TWO31;
      if !HasRoom(rx, ssrc) then (rx, Err(TooManySources))
      else if !WindowFor(rx, ssrc).Admits(index) then (rx, Err(Replay))
      else (Remember(rx, Source(ssrc, WindowFor(rx, ssrc).Accept(index))), Ok(OpenedRtcp(keys, packet)))
  }
}
