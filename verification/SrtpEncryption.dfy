/** Byte by byte what protection does to a packet: which bytes stay as they are, which are masked with the
    keystream and with which byte of it, and what is appended. */
module SrtpEncryption {
  import opened Bytes
  import opened SequenceNumbers
  import opened Srtp
  import S = StreamSender
  import R = StreamSenderRuns
  import H = RtpHeader

  /** `w` starts with `packet`, in the clear up to `n` and from there on masked with the keystream. */
  ghost predicate IsMasked(packet: seq<byte>, w: seq<byte>, n: nat, keystream: (Iv, nat) -> byte, iv: Iv) {
    && n <= |packet| <= |w| && w[..n] == packet[..n]
    && forall p :: n <= p < |packet| ==> w[p] == XorByte(packet[p], keystream(iv, p - n))
  }

  lemma {:induction false} XorBitsCommute(a: nat, b: nat, n: nat)
    ensures XorBits(a, b, n) == XorBits(b, a, n)
  {
    if n > 0 { XorBitsCommute(a / 2, b / 2, n - 1); }
  }

  lemma {:induction false} XorBitsZero(a: nat, n: nat)
    requires a < Pow2(n)
    ensures XorBits(a, 0, n) == a
  {
    if n > 0 { XorBitsZero(a / 2, n - 1); }
  }

  /** A byte stays as it is exactly where the keystream has a zero. */
  lemma XorIsSameIff(x: byte, k: byte)
    ensures XorByte(x, k) == x <==> k == 0
  {
    assert Pow2(8) == 0x100;
    XorBitsZero(x, 8);
    XorBitsCommute(x, k, 8);
    XorBitsCommute(x, 0, 8);
    if XorByte(x, k) == x {
      XorByteInjective(k, 0, x);
    }
  }

  lemma MaskedIsClearIff(packet: seq<byte>, w: seq<byte>, n: nat, keystream: (Iv, nat) -> byte, iv: Iv, p: nat)
    requires IsMasked(packet, w, n, keystream, iv) && n <= p < |packet|
    ensures w[p] == packet[p] <==> keystream(iv, p - n) == 0
  {
    XorIsSameIff(packet[p], keystream(iv, p - n));
  }

  lemma KeystreamMasks(packet: seq<byte>, n: nat, keystream: (Iv, nat) -> byte, iv: Iv)
    requires n <= |packet|
    ensures IsMasked(packet, ApplyKeystream(packet, n, keystream, iv), n, keystream, iv)
  {
  }

  lemma MaskedThenMore(packet: seq<byte>, out: seq<byte>, more: seq<byte>, n: nat, keystream: (Iv, nat) -> byte, iv: Iv)
    requires IsMasked(packet, out, n, keystream, iv) && |out| == |packet|
    ensures IsMasked(packet, out + more, n, keystream, iv)
    ensures (out + more)[..|packet|] == out && (out + more)[|packet|..] == more
  {
    assert (out + more)[..n] == out[..n];
  }

  /** A datagram protected under rollover counter `roc`: the header in the clear, everything after it masked under
      the packet's own initialization vector, and the tag over all of that and the counter. */
  ghost predicate IsSealed(keys: Keys, packet: seq<byte>, roc: u32, w: seq<byte>) {
    && |packet| >= 12 && RtpHeaderLen(packet).Some? && |w| == |packet| + 10
    && IsMasked(packet, w, RtpHeaderLen(packet).value, keys.rtpKeystream,
                RtpIv(keys.rtpSalt, Be32(packet[8..12]), roc, Be16(packet[2..4])))
    && w[|packet|..] == keys.rtpTag(w[..|packet|], roc)
  }

  lemma SealedIsSealed(keys: Keys, packet: seq<byte>, roc: u32)
    requires |packet| >= 12 && RtpHeaderLen(packet).Some?
    ensures IsSealed(keys, packet, roc, Sealed(keys, packet, roc))
  {
    var n, iv := RtpHeaderLen(packet).value, RtpIv(keys.rtpSalt, SsrcOf(packet), roc, SeqOf(packet));
    var out := ApplyKeystream(packet, n, keys.rtpKeystream, iv);
    hide ApplyKeystream, RtpIv, IsMasked, RtpHeaderLen;
    KeystreamMasks(packet, n, keys.rtpKeystream, iv);
    MaskedThenMore(packet, out, keys.rtpTag(out, roc), n, keys.rtpKeystream, iv);
  }

  /** Whatever is protected is encrypted, and comes with its tag. */
  lemma ProtectedIsSealed(keys: Keys, tx: SendState, packet: seq<byte>, w: seq<byte>)
    requires ProtectRtp(keys, tx, packet).1 == Ok(w)
    ensures IsSealed(keys, packet, ProtectRtp(keys, tx, packet).0.roc, w)
  {
    hide Sealed;
    SealedIsSealed(keys, packet, NextSend(tx, SeqOf(packet)).roc);
  }

  /** So is the n-th datagram of a stream, under index ROC || SEQ == seq0 + n. */
  lemma OutgoingIsSealed(s: S.Sender, calls: seq<R.Call>, keys: Keys, n: nat)
    requires S.Valid(s) && s.srtp == Some(S.Outbound(keys, FRESH_SENDER)) && n < |R.Datagrams(s, calls)|
    ensures n < |R.Packets(s, calls)|
    ensures IsSealed(keys, H.PrintedPacket(R.Packets(s, calls)[n]), Roc(s.sequence + n), R.Datagrams(s, calls)[n])
  {
    hide Sealed, IsSealed, R.Packets, R.Datagrams, H.PrintedPacket, S.Valid;
    R.OutgoingIndex(s, calls, keys, n);
    SealedIsSealed(keys, H.PrintedPacket(R.Packets(s, calls)[n]), Roc(s.sequence + n));
  }

  /** What SRTP hands over of a datagram it accepts: the same header, everything after it unmasked under the
      vector of the counter it authenticated with, the tag gone. */
  lemma AcceptedIsUnmasked(keys: Keys, packet: seq<byte>, roc: u32)
    requires |packet| >= 22 && RtpHeaderLen(packet[..|packet| - 10]).Some?
    ensures var body, clear := packet[..|packet| - 10], Opened(keys, packet, roc);
            && |clear| == |body|
            && IsMasked(body, clear, RtpHeaderLen(body).value, keys.rtpKeystream,
                        RtpIv(keys.rtpSalt, Be32(packet[8..12]), roc, Be16(packet[2..4])))
  {
    KeystreamMasks(Portion(packet), RtpHeaderLen(Portion(packet)).value, keys.rtpKeystream,
                   RtpIv(keys.rtpSalt, SsrcOf(packet), roc, SeqOf(packet)));
  }

  // ----- Reports

  /** A protected report: the first 8 bytes in the clear, the rest masked, then the E flag with the 31-bit index,
      and the tag over all of that. */
  ghost predicate IsSealedRtcp(keys: Keys, packet: seq<byte>, index: u32, w: seq<byte>) {
    && |packet| >= 8 && |w| == |packet| + 14
    && IsMasked(packet, w, 8, keys.rtcpKeystream, RtcpIv(keys.rtcpSalt, Be32(packet[4..8]), index))
    && Be32(w[|packet|..|packet| + 4]) == TWO31 + index
    && w[|packet| + 4..] == keys.rtcpTag(w[..|packet| + 4])
  }

  lemma ProtectedRtcpIsSealed(keys: Keys, index: u32, packet: seq<byte>, w: seq<byte>)
    requires index < TWO31 && ProtectRtcp(keys, index, packet).1 == Ok(w)
    ensures IsSealedRtcp(keys, packet, index, w)
  {
    var iv := RtcpIv(keys.rtcpSalt, RtcpSsrcOf(packet), index);
    KeystreamMasks(packet, 8, keys.rtcpKeystream, iv);
    var out := ApplyKeystream(packet, 8, keys.rtcpKeystream, iv);
    hide ApplyKeystream, RtcpIv;
    var head := out + ToBe32(index + TWO31);
    assert w == head + keys.rtcpTag(head);
    assert w[..8] == out[..8] && w[..|packet| + 4] == head && w[|packet|..|packet| + 4] == ToBe32(index + TWO31);
  }

  lemma IndexIs(trailer: u32)
    requires trailer >= TWO31
    ensures trailer % TWO31 == trailer - TWO31
  {
  }

  /** A report accepted is handed over as it is when the E flag is clear, and unmasked when it is set. */
  lemma AcceptedRtcpIsUnmasked(keys: Keys, packet: seq<byte>)
    requires |packet| >= 22
    ensures var body, clear := packet[..|packet| - 14], OpenedRtcp(keys, packet);
            var trailer := Be32(packet[|packet| - 14..|packet| - 10]);
            && (trailer < TWO31 ==> clear == body)
            && (trailer >= TWO31 ==>
                  && |clear| == |body|
                  && IsMasked(body, clear, 8, keys.rtcpKeystream,
                              RtcpIv(keys.rtcpSalt, Be32(packet[4..8]), trailer - TWO31)))
  {
    hide ApplyKeystream, RtcpIv, XorByte, Be32;
    var body := packet[..|packet| - 14];
    if RtcpTrailer(packet) >= TWO31 {
      IndexIs(RtcpTrailer(packet));
      KeystreamMasks(body, 8, keys.rtcpKeystream, RtcpIv(keys.rtcpSalt, RtcpSsrcOf(packet), RtcpTrailer(packet) % TWO31));
    }
  }
}
