/** SRTCP end to end. The packet carries its own 31-bit index, so the receiver guesses
    nothing; one counter serves every SSRC the sender reports for. */
module SrtcpEndToEnd {
  import opened Bytes
  import opened ReplayWindow
  import opened SourceTable
  import opened Srtp
  import opened SrtpEndToEnd

  /** A sealed report carries its index and SSRC, authenticates, and opens to the report. */
  lemma SealedRtcpOpens(keys: Keys, packet: seq<byte>, index: u32)
    requires |packet| >= 8 && index < TWO31
    ensures var w := SealedRtcp(keys, packet, index);
            && |w| == |packet| + 4 + AUTH_TAG_LEN
            && AuthenticRtcp(keys, w)
            && RtcpTrailer(w) % TWO31 == index
            && RtcpSsrcOf(w) == RtcpSsrcOf(packet)
            && OpenedRtcp(keys, w) == packet
  {
    var iv := RtcpIv(keys.rtcpSalt, RtcpSsrcOf(packet), index);
    var body := ApplyKeystream(packet, 8, keys.rtcpKeystream, iv);
    var w := SealedRtcp(keys, packet, index);
    assert Portion(w) == body + ToBe32(index + TWO31);
    assert w[|packet|..|packet| + 4] == ToBe32(index + TWO31);
    assert w[|packet| + 4..] == keys.rtcpTag(Portion(w));
    assert w[4..8] == body[..8][4..8] && packet[4..8] == packet[..8][4..8];
    assert w[..|packet|] == body;
    assert RtcpTrailer(w) == index + TWO31;
    KeystreamCancels(packet, 8, keys.rtcpKeystream, iv);
  }

  // ----- The sender

  /** The 31 bits of a report's number that the packet has room for. */
  function RtcpIndex(k: nat): (index: u32)
    ensures index < TWO31 && (k < TWO31 ==> index == k)
  {
    k % TWO31
  }

  ghost predicate Reports(packets: seq<seq<byte>>) {
    forall k :: 0 <= k < |packets| ==> |packets[k]| >= 8
  }

  function IndexAfter(keys: Keys, packets: seq<seq<byte>>): (index: u32)
    ensures index < TWO31
  {
    if packets == [] then 0
    else
      var n := |packets| - 1;
      ProtectRtcp(keys, IndexAfter(keys, packets[..n]), packets[n]).0
  }

  function RtcpWire(keys: Keys, packets: seq<seq<byte>>, k: nat): Result<seq<byte>>
    requires k < |packets|
  {
    ProtectRtcp(keys, IndexAfter(keys, packets[..k]), packets[k]).1
  }

  lemma NextRtcpIndexCounts(k: nat)
    ensures NextRtcpIndex(RtcpIndex(k)) == RtcpIndex(k + 1)
  {
  }

  /** Reports are numbered from 0, modulo 2^31. */
  lemma {:induction false} RtcpIndexCounts(keys: Keys, packets: seq<seq<byte>>, k: nat)
    requires Reports(packets) && k <= |packets|
    ensures IndexAfter(keys, packets[..k]) == RtcpIndex(k)
  {
    if k > 0 {
      assert packets[..k][..k - 1] == packets[..k - 1];
      RtcpIndexCounts(keys, packets, k - 1);
      NextRtcpIndexCounts(k - 1);
    }
  }

  lemma RtcpWireIndex(keys: Keys, packets: seq<seq<byte>>, k: nat)
    requires Reports(packets) && k < |packets|
    ensures RtcpWire(keys, packets, k) == Ok(SealedRtcp(keys, packets[k], RtcpIndex(k)))
  {
    RtcpIndexCounts(keys, packets, k);
  }

  lemma SameRemainder31(i: nat, j: nat)
    ensures (i - j) % TWO31 == 0 <==> RtcpIndex(i) == RtcpIndex(j)
  {
  }

  lemma RtcpIvInjective(salt: Salt, ssrc: u32, i: u32, j: u32)
    requires RtcpIv(salt, ssrc, i) == RtcpIv(salt, ssrc, j)
    ensures i == j
  {
    var a: Iv := [0, 0, 0, 0] + ToBe32(ssrc) + [0, 0] + ToBe32(i) + [0, 0];
    var b: Iv := [0, 0, 0, 0] + ToBe32(ssrc) + [0, 0] + ToBe32(j) + [0, 0];
    XorSaltInjective(a, b, salt);
    assert a[10..14] == ToBe32(i) && b[10..14] == ToBe32(j);
    ToBe32Injective(i, j);
  }

  /** Two reports for one SSRC share an initialization vector exactly when they are a multiple
      of 2^31 reports apart. */
  lemma RtcpIvsRepeatEvery31Bits(salt: Salt, ssrc: u32, i: nat, j: nat)
    ensures RtcpIv(salt, ssrc, RtcpIndex(i)) == RtcpIv(salt, ssrc, RtcpIndex(j)) <==> (i - j) % TWO31 == 0
  {
    if RtcpIv(salt, ssrc, RtcpIndex(i)) == RtcpIv(salt, ssrc, RtcpIndex(j)) {
      RtcpIvInjective(salt, ssrc, RtcpIndex(i), RtcpIndex(j));
    }
    SameRemainder31(i, j);
  }

  // ----- The network and the receiver

  function RtcpDatagram(keys: Keys, packets: seq<seq<byte>>, arrival: Arrival): seq<byte> {
    match arrival
    case Stray(bytes) => bytes
    case Sent(k) =>
      if k < |packets| && RtcpWire(keys, packets, k).Ok? then RtcpWire(keys, packets, k).value else []
  }

  function RtcpTableAfter(keys: Keys, packets: seq<seq<byte>>, arrivals: seq<Arrival>): seq<Source<Window>> {
    if arrivals == [] then []
    else
      var n := |arrivals| - 1;
      UnprotectRtcp(keys, RtcpTableAfter(keys, packets, arrivals[..n]), RtcpDatagram(keys, packets, arrivals[n])).0
  }

  /** Whether the arrival is one of the sender's reports for `ssrc`. */
  predicate IsReportFor(packets: seq<seq<byte>>, arrival: Arrival, ssrc: u32)
    requires Reports(packets)
  {
    arrival.Sent? && arrival.k < |packets| && RtcpSsrcOf(packets[arrival.k]) == ssrc
  }

  /** The numbers of the reports for `ssrc` that arrived. */
  function Reported(packets: seq<seq<byte>>, arrivals: seq<Arrival>, ssrc: u32): set<int>
    requires Reports(packets)
  {
    if arrivals == [] then {}
    else
      var n := |arrivals| - 1;
      WithReport(packets, Reported(packets, arrivals[..n], ssrc), arrivals[n], ssrc)
  }

  function WithReport(packets: seq<seq<byte>>, reported: set<int>, arrival: Arrival, ssrc: u32): set<int>
    requires Reports(packets)
  {
    if IsReportFor(packets, arrival, ssrc) then reported + {arrival.k} else reported
  }

  /** A stray is malformed or has no right tag; a report finds room in the table. */
  ghost predicate RtcpInBounds(keys: Keys, packets: seq<seq<byte>>, rx: seq<Source<Window>>, arrival: Arrival)
    requires Reports(packets)
  {
    match arrival
    case Stray(bytes) => |bytes| < 8 + 4 + AUTH_TAG_LEN || !AuthenticRtcp(keys, bytes)
    case Sent(k) => k < |packets| && HasRoom(rx, RtcpSsrcOf(packets[k]))
  }

  ghost predicate KnowsReports(keys: Keys, packets: seq<seq<byte>>, arrivals: seq<Arrival>)
    requires Reports(packets)
  {
    forall ssrc: u32 ::
      Refines(WindowFor(RtcpTableAfter(keys, packets, arrivals), ssrc), Reported(packets, arrivals, ssrc))
  }

  /** The report comes out as it went in, when it is new and fewer than 64 behind those of its
      source, and is refused as a replay otherwise. A stray is refused. */
  ghost predicate ReportHandledRightly(keys: Keys, packets: seq<seq<byte>>, before: seq<Arrival>, arrival: Arrival)
    requires Reports(packets)
  {
    var result :=
      UnprotectRtcp(keys, RtcpTableAfter(keys, packets, before), RtcpDatagram(keys, packets, arrival)).1;
    match arrival
    case Stray(_) => result.Err?
    case Sent(k) =>
      && k < |packets|
      && result == if InWindow(Reported(packets, before, RtcpSsrcOf(packets[k])), k) then Ok(packets[k])
                   else Err(Error.Replay)
  }

  /** One report: in when it is in its source's window, and then nobody else's window moves. */
  lemma ReceiveOne(keys: Keys, rx: seq<Source<Window>>, reported: set<int>, packet: seq<byte>, k: u32,
                   bytes: seq<byte>)
    requires |packet| >= 8 && k < TWO31 && bytes == SealedRtcp(keys, packet, k)
    requires Refines(WindowFor(rx, RtcpSsrcOf(packet)), reported) && HasRoom(rx, RtcpSsrcOf(packet))
    ensures var (after, result) := UnprotectRtcp(keys, rx, bytes);
            && result == (if InWindow(reported, k) then Ok(packet) else Err(Error.Replay))
            && Refines(WindowFor(after, RtcpSsrcOf(packet)), reported + {k})
            && forall other: u32 :: other != RtcpSsrcOf(packet) ==> WindowFor(after, other) == WindowFor(rx, other)
  {
    var ssrc := RtcpSsrcOf(packet);
    var window := WindowFor(rx, ssrc);
    SealedRtcpOpens(keys, packet, k);
    AdmitsIff(window, reported, k);
    OfferRefines(window, reported, k);
    if window.Admits(k) {
      RememberLookups(rx, Source(ssrc, window.Accept(k)));
    }
  }

  lemma RtcpDatagramIsSealed(keys: Keys, packets: seq<seq<byte>>, k: nat)
    requires Reports(packets) && k < |packets|
    ensures RtcpDatagram(keys, packets, Sent(k)) == SealedRtcp(keys, packets[k], RtcpIndex(k))
  {
    RtcpWireIndex(keys, packets, k);
  }

  lemma ReceiveReport(keys: Keys, packets: seq<seq<byte>>, arrivals: seq<Arrival>, n: nat)
    requires Reports(packets) && |packets| <= TWO31 && n < |arrivals|
    requires KnowsReports(keys, packets, arrivals[..n])
    requires RtcpInBounds(keys, packets, RtcpTableAfter(keys, packets, arrivals[..n]), arrivals[n])
    ensures ReportHandledRightly(keys, packets, arrivals[..n], arrivals[n])
    ensures KnowsReports(keys, packets, arrivals[..n + 1])
  {
    assert arrivals[..n + 1][..n] == arrivals[..n];
    if arrivals[n].Sent? {
      var rx := RtcpTableAfter(keys, packets, arrivals[..n]);
      var k := arrivals[n].k;
      RtcpDatagramIsSealed(keys, packets, k);
      ReceiveOne(keys, rx, Reported(packets, arrivals[..n], RtcpSsrcOf(packets[k])), packets[k], RtcpIndex(k),
                 RtcpDatagram(keys, packets, arrivals[n]));
    }
  }

  /** Every arrival finds room, or is a harmless stray. */
  ghost predicate RtcpTimely(keys: Keys, packets: seq<seq<byte>>, arrivals: seq<Arrival>)
    requires Reports(packets)
  {
    forall n :: 0 <= n < |arrivals| ==>
      RtcpInBounds(keys, packets, RtcpTableAfter(keys, packets, arrivals[..n]), arrivals[n])
  }

  lemma {:induction false} ReportsAreKnown(keys: Keys, packets: seq<seq<byte>>, arrivals: seq<Arrival>, n: nat)
    requires Reports(packets) && |packets| <= TWO31
    requires RtcpTimely(keys, packets, arrivals) && n <= |arrivals|
    ensures KnowsReports(keys, packets, arrivals[..n])
  {
    if n > 0 {
      ReportsAreKnown(keys, packets, arrivals, n - 1);
      ReceiveReport(keys, packets, arrivals, n - 1);
    }
  }

  /** From an empty table, for every schedule in which no more than 64 sources ever report,
      every arrival is handled rightly. */
  lemma RtcpEndToEnd(keys: Keys, packets: seq<seq<byte>>, arrivals: seq<Arrival>, n: nat)
    requires Reports(packets) && |packets| <= TWO31
    requires RtcpTimely(keys, packets, arrivals) && n < |arrivals|
    ensures ReportHandledRightly(keys, packets, arrivals[..n], arrivals[n])
  {
    ReportsAreKnown(keys, packets, arrivals, n);
    ReceiveReport(keys, packets, arrivals, n);
  }
}
