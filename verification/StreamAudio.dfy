/** Audio end to end: what the encoder made of a frame reaches the other end's jitter buffer as it
    was, under the number and the time it was sent with. */
module StreamAudio {
  import opened Bytes
  import opened SequenceNumbers
  import opened StreamConfig
  import opened StreamSender
  import opened StreamSenderRuns
  import opened StreamNetwork
  import J = Jitter
  import R = StreamReceiver
  import RR = StreamReceiverRuns
  import H = RtpHeader

  /** Nothing is queued or under way, so a frame goes out as audio. */
  predicate SendsAudio(s: Sender) {
    s.dtmfSending.None? && s.dtmf == []
  }

  /** A frame goes out as one packet: its encoding, under the next number, at the audio clock; the
      marker is on the first frame and on the first after a digit. */
  lemma AudioCall(s: Sender, encoded: seq<byte>)
    requires Valid(s) && SendsAudio(s)
    ensures var packets := PacketsIn(s, Send(encoded));
            && |packets| == 1 && Plain(packets[0].header) && packets[0].payload == encoded
            && packets[0].header.payloadType == s.config.payloadType
            && packets[0].header.sequence == s.sequence && packets[0].header.timestamp == s.timestamp
            && packets[0].header.ssrc == s.ssrc && packets[0].header.marker == s.marker
    ensures !Step(s, Send(encoded)).marker
  {
    hide ProtectedAll;
    PacketizedKeepsValid(s, encoded);
  }

  /** The packet of a frame, taken in by the receiver. */
  lemma AudioIsPushed(s: Sender, r: R.Receiver, from: Address, p: H.Packet, datagram: seq<byte>, now: int)
    requires Agree(s, r, from) && SameSource(s, r) && p.header.ssrc == s.ssrc
    requires Plain(p.header) && p.header.payloadType == s.config.payloadType
    requires Carries(r, datagram, p) && Recovers(r, datagram)
    ensures var (after, verdict) := R.Ingested(r, datagram, from, now);
            && verdict == R.Taken(None)
            && after.jitter == J.Pushed(r.jitter, p.header.sequence, p.header.timestamp, p.payload, now).0
  {
    var started := R.Started(r, now);
    assert R.Decrypted(started, datagram) == R.Decrypted(r, datagram);
    assert datagram[1] % 0x80 == p.header.payloadType;
    ReadsContent(s, r.config, p, [], None);
    hide R.ContentOf, H.PrintedPacket, J.Pushed, R.Decrypted;
    RR.IngestOnJitter(r, datagram, from, now);
  }

  /** The n-th call of a run sends a frame: whenever its datagram comes to a receiver that has
      negotiated the same and recovers it, the receiver buffers what the encoder made of it, under
      number seq0 + (packets before it) and time ts0 + ticks * (calls before it). */
  lemma AudioArrives(s: Sender, calls: seq<Call>, n: nat, encoded: seq<byte>,
                     r: R.Receiver, from: Address, datagram: seq<byte>, now: int)
    requires Valid(s) && n < |calls| && calls[n] == Send(encoded) && SendsAudio(After(s, calls[..n]))
    requires Agree(s, r, from) && SameSource(s, r)
    requires PacketsIn(After(s, calls[..n]), calls[n]) != []
    requires Carries(r, datagram, PacketsIn(After(s, calls[..n]), calls[n])[0]) && Recovers(r, datagram)
    ensures var (after, verdict) := R.Ingested(r, datagram, from, now);
            && verdict == R.Taken(None)
            && after.jitter == J.Pushed(r.jitter, Seq(s.sequence + |Packets(s, calls[..n])|),
                                        Clock(s, Sends(calls[..n])) % TWO32, encoded, now).0
  {
    hide After, Packets, PacketsIn, Carries, Agree, Recovers, R.Ingested, J.Pushed, Seq, Clock, StreamSender.Valid;
    var before := After(s, calls[..n]);
    Numbering(s, calls, n);
    AudioClock(s, calls, n);
    AudioCall(before, encoded);
    AudioIsPushed(s, r, from, PacketsIn(before, calls[n])[0], datagram, now);
  }
}
