/** At most once: over any run of arbitrary datagrams, no packet index of any source is
    accepted twice. */
module SrtpReplay {
  import opened Bytes
  import opened ReplayWindow
  import opened SourceTable
  import opened Srtp

  /** The indices accepted so far, per source. */
  type History = map<u32, set<int>>

  function Of(history: History, ssrc: u32): set<int> {
    if ssrc in history then history[ssrc] else {}
  }

  function Note(history: History, ssrc: u32, index: int): History {
    history[ssrc := Of(history, ssrc) + {index}]
  }

  // ----- SRTP

  /** The receive table says of each source what its history is. */
  ghost predicate Tracks(rx: seq<Source<RecvState>>, history: History) {
    && WellFormed(rx)
    && forall ssrc: u32 ::
         var state := StateFor(rx, ssrc);
         Refines(state.window, Of(history, ssrc)) && state.Consistent()
  }

  /** The (SSRC, ROC || SEQ) a packet is judged to carry. */
  function Identity(rx: seq<Source<RecvState>>, packet: seq<byte>): (u32, u64)
    requires |packet| >= 12
  {
    var ssrc, s := SsrcOf(packet), SeqOf(packet);
    (ssrc, PacketIndex(StateFor(rx, ssrc).EstimateRoc(s), s))
  }

  function RxAfter(keys: Keys, packets: seq<seq<byte>>): seq<Source<RecvState>> {
    if packets == [] then []
    else
      var n := |packets| - 1;
      UnprotectRtp(keys, RxAfter(keys, packets[..n]), packets[n]).0
  }

  predicate Accepted(keys: Keys, packets: seq<seq<byte>>, i: nat)
    requires i < |packets|
    ensures Accepted(keys, packets, i) ==> |packets[i]| >= 12
  {
    UnprotectRtp(keys, RxAfter(keys, packets[..i]), packets[i]).1.Ok?
  }

  function IdentityAt(keys: Keys, packets: seq<seq<byte>>, i: nat): (u32, u64)
    requires i < |packets| && |packets[i]| >= 12
  {
    Identity(RxAfter(keys, packets[..i]), packets[i])
  }

  function HistoryOf(keys: Keys, packets: seq<seq<byte>>): History {
    if packets == [] then map[]
    else
      var n := |packets| - 1;
      var before := HistoryOf(keys, packets[..n]);
      if Accepted(keys, packets, n) then
        var id := IdentityAt(keys, packets, n);
        Note(before, id.0, id.1)
      else before
  }

  /** A refused packet leaves the table as it was. */
  lemma RefusedChangesNothing(keys: Keys, rx: seq<Source<RecvState>>, packet: seq<byte>)
    ensures var (after, result) := UnprotectRtp(keys, rx, packet);
            result.Err? ==> after == rx
  {
  }

  /** What was accepted is refused when it comes again at once. */
  lemma OpensOnce(keys: Keys, rx: seq<Source<RecvState>>, packet: seq<byte>)
    requires UnprotectRtp(keys, rx, packet).1.Ok?
    ensures var after := UnprotectRtp(keys, rx, packet).0; UnprotectRtp(keys, after, packet) == (after, Err(Replay))
  {
    var (ssrc, index) := Identity(rx, packet);
    var state := StateFor(rx, ssrc);
    var roc, s := state.EstimateRoc(SeqOf(packet)), SeqOf(packet);
    RememberLookup(rx, Source(ssrc, state.Advance(roc, s)), ssrc);
    AcceptedIsSpent(state.window, index);
  }

  /** An accepted packet has an index its source has never used, joins that source's history
      and no other, and never moves a rollover counter back. */
  lemma AcceptedIsNew(keys: Keys, rx: seq<Source<RecvState>>, history: History, packet: seq<byte>)
    requires Tracks(rx, history)
    requires UnprotectRtp(keys, rx, packet).1.Ok?
    ensures var after, (ssrc, index) := UnprotectRtp(keys, rx, packet).0, Identity(rx, packet);
            && index !in Of(history, ssrc)
            && Tracks(after, Note(history, ssrc, index))
            && NoneLower(rx, after)
  {
    var after := UnprotectRtp(keys, rx, packet).0;
    var (ssrc, index) := Identity(rx, packet);
    var state := StateFor(rx, ssrc);
    var advanced := state.Advance(state.EstimateRoc(SeqOf(packet)), SeqOf(packet));
    AcceptRefines(state.window, Of(history, ssrc), index);
    RememberWellFormed(rx, Source(ssrc, advanced));
    forall other: u32
      ensures StateFor(after, other) == if other == ssrc then advanced else StateFor(rx, other)
    {
      RememberLookup(rx, Source(ssrc, advanced), other);
    }
  }

  /** `later` is at least as far along as `earlier`. */
  ghost predicate NoLower(earlier: RecvState, later: RecvState) {
    earlier.window.highest.Some? ==>
      later.window.highest.Some? && earlier.window.highest.value <= later.window.highest.value
  }

  /** `later` still has every source of `earlier`, each at least as far along. */
  ghost predicate NoneLower(earlier: seq<Source<RecvState>>, later: seq<Source<RecvState>>) {
    Keeps(earlier, later) && forall ssrc: u32 :: NoLower(StateFor(earlier, ssrc), StateFor(later, ssrc))
  }

  /** In every reachable state the table has at most 64 distinct sources, and each is where its
      history says: `roc` and `sl` are the halves of the highest index, the bitmap is right. */
  lemma {:induction false} ReachableTracks(keys: Keys, packets: seq<seq<byte>>)
    ensures Tracks(RxAfter(keys, packets), HistoryOf(keys, packets))
  {
    if packets != [] {
      var n := |packets| - 1;
      ReachableTracks(keys, packets[..n]);
      if Accepted(keys, packets, n) {
        AcceptedIsNew(keys, RxAfter(keys, packets[..n]), HistoryOf(keys, packets[..n]), packets[n]);
      }
    }
  }

  /** One packet, accepted or not, loses no source and moves none back. */
  lemma StepForgetsNothing(keys: Keys, rx: seq<Source<RecvState>>, history: History, packet: seq<byte>)
    requires Tracks(rx, history)
    ensures NoneLower(rx, UnprotectRtp(keys, rx, packet).0)
  {
    if UnprotectRtp(keys, rx, packet).1.Ok? {
      AcceptedIsNew(keys, rx, history, packet);
    }
  }

  /** Sources are never lost and never go back, over any continuation of any run. */
  lemma {:induction false} NothingIsForgotten(keys: Keys, packets: seq<seq<byte>>, n: nat)
    requires n <= |packets|
    ensures NoneLower(RxAfter(keys, packets[..n]), RxAfter(keys, packets))
    decreases |packets|
  {
    if n == |packets| {
      assert packets[..n] == packets;
    } else {
      var m := |packets| - 1;
      assert packets[..m][..n] == packets[..n];
      NothingIsForgotten(keys, packets[..m], n);
      ReachableTracks(keys, packets[..m]);
      StepForgetsNothing(keys, RxAfter(keys, packets[..m]), HistoryOf(keys, packets[..m]), packets[m]);
    }
  }

  /** Nothing noted is ever taken back. */
  lemma {:induction false} HistoryGrows(keys: Keys, packets: seq<seq<byte>>, i: nat, ssrc: u32)
    requires i <= |packets|
    ensures Of(HistoryOf(keys, packets[..i]), ssrc) <= Of(HistoryOf(keys, packets), ssrc)
    decreases |packets|
  {
    if i == |packets| {
      assert packets[..i] == packets;
    } else {
      var n := |packets| - 1;
      assert packets[..n][..i] == packets[..i];
      HistoryGrows(keys, packets[..n], i, ssrc);
    }
  }

  /** No (SSRC, ROC, SEQ) succeeds twice. */
  lemma AtMostOnce(keys: Keys, packets: seq<seq<byte>>, i: nat, j: nat)
    requires i < j < |packets|
    requires Accepted(keys, packets, i) && Accepted(keys, packets, j)
    ensures IdentityAt(keys, packets, i) != IdentityAt(keys, packets, j)
  {
    var upToI, upToJ := packets[..i + 1], packets[..j];
    assert upToJ[..i + 1] == upToI && upToI[..i] == packets[..i];
    var (ssrc, index) := IdentityAt(keys, packets, i);
    assert index in Of(HistoryOf(keys, upToI), ssrc) by {
      assert Accepted(keys, upToI, i) && IdentityAt(keys, upToI, i) == (ssrc, index);
    }
    HistoryGrows(keys, upToJ, i + 1, ssrc);
    ReachableTracks(keys, upToJ);
    AcceptedIsNew(keys, RxAfter(keys, upToJ), HistoryOf(keys, upToJ), packets[j]);
  }

  /** Every source accepted from is known, and no other. */
  lemma {:induction false} SourcesAreKnown(keys: Keys, packets: seq<seq<byte>>, n: nat)
    requires n <= |packets|
    ensures Sources(RxAfter(keys, packets[..n])) == HistoryOf(keys, packets[..n]).Keys
  {
    if n > 0 {
      assert packets[..n][..n - 1] == packets[..n - 1];
      SourcesAreKnown(keys, packets, n - 1);
      StepSources(keys, RxAfter(keys, packets[..n - 1]), packets[n - 1]);
      hide UnprotectRtp;
    } else {
      assert packets[..0] == [];
    }
  }

  lemma StepSources(keys: Keys, rx: seq<Source<RecvState>>, packet: seq<byte>)
    ensures var (after, result) := UnprotectRtp(keys, rx, packet);
            && (result.Ok? ==> |packet| >= 12 && Sources(after) == Sources(rx) + {SsrcOf(packet)})
            && (result.Err? ==> after == rx)
  {
    hide Remember, Sources, Authentic, Opened, HasRoom, Position, RtpHeaderLen, RecvState.EstimateRoc;
    if UnprotectRtp(keys, rx, packet).1.Ok? {
      var s, ssrc := SeqOf(packet), SsrcOf(packet);
      var state := StateFor(rx, ssrc);
      RememberSources(rx, Source(ssrc, state.Advance(state.EstimateRoc(s), s)));
    }
  }

  /** Over any run: of packets that are not cut short, those of a new source are refused for want of room exactly when
      packets of 64 others have been accepted. */
  lemma NoRoomIff(keys: Keys, packets: seq<seq<byte>>, n: nat)
    requires n < |packets| && |packets[n]| >= 12 + AUTH_TAG_LEN && RtpHeaderLen(Portion(packets[n])).Some?
    ensures var known := HistoryOf(keys, packets[..n]).Keys;
            && |known| <= 64
            && (UnprotectRtp(keys, RxAfter(keys, packets[..n]), packets[n]).1 == Err(TooManySources) <==>
                  SsrcOf(packets[n]) !in known && |known| == 64)
  {
    SourcesAreKnown(keys, packets, n);
    ReachableTracks(keys, packets[..n]);
    var rx := RxAfter(keys, packets[..n]);
    HasRoomIff(rx, SsrcOf(packets[n]));
    SourcesSize(rx);
    hide Authentic, Opened, Remember, Sources, HistoryOf, RxAfter, HasRoom, RtpHeaderLen;
  }

  // ----- SRTCP

  ghost predicate RtcpTracks(rx: seq<Source<Window>>, history: History) {
    && WellFormed(rx)
    && forall ssrc: u32 :: Refines(WindowFor(rx, ssrc), Of(history, ssrc))
  }

  function RtcpIdentity(packet: seq<byte>): (u32, u64)
    requires |packet| >= 8 + 4 + AUTH_TAG_LEN
  {
    (RtcpSsrcOf(packet), RtcpTrailer(packet) % TWO31)
  }

  function RtcpRxAfter(keys: Keys, packets: seq<seq<byte>>): seq<Source<Window>> {
    if packets == [] then []
    else
      var n := |packets| - 1;
      UnprotectRtcp(keys, RtcpRxAfter(keys, packets[..n]), packets[n]).0
  }

  predicate RtcpAccepted(keys: Keys, packets: seq<seq<byte>>, i: nat)
    requires i < |packets|
    ensures RtcpAccepted(keys, packets, i) ==> |packets[i]| >= 8 + 4 + AUTH_TAG_LEN
  {
    UnprotectRtcp(keys, RtcpRxAfter(keys, packets[..i]), packets[i]).1.Ok?
  }

  function RtcpHistoryOf(keys: Keys, packets: seq<seq<byte>>): History {
    if packets == [] then map[]
    else
      var n := |packets| - 1;
      var before := RtcpHistoryOf(keys, packets[..n]);
      if RtcpAccepted(keys, packets, n) then
        var id := RtcpIdentity(packets[n]);
        Note(before, id.0, id.1)
      else before
  }

  /** A refused report leaves the table as it was. */
  lemma RtcpRefusedChangesNothing(keys: Keys, rx: seq<Source<Window>>, packet: seq<byte>)
    ensures var (after, result) := UnprotectRtcp(keys, rx, packet);
            result.Err? ==> after == rx
  {
  }

  lemma RtcpAcceptedIsNew(keys: Keys, rx: seq<Source<Window>>, history: History, packet: seq<byte>)
    requires RtcpTracks(rx, history)
    requires UnprotectRtcp(keys, rx, packet).1.Ok?
    ensures var after, (ssrc, index) := UnprotectRtcp(keys, rx, packet).0, RtcpIdentity(packet);
            && index !in Of(history, ssrc)
            && RtcpTracks(after, Note(history, ssrc, index))
            && RtcpNoneLower(rx, after)
  {
    var after := UnprotectRtcp(keys, rx, packet).0;
    var (ssrc, index) := RtcpIdentity(packet);
    var window := WindowFor(rx, ssrc);
    AcceptRefines(window, Of(history, ssrc), index);
    RememberWellFormed(rx, Source(ssrc, window.Accept(index)));
    forall other: u32
      ensures WindowFor(after, other) == if other == ssrc then window.Accept(index) else WindowFor(rx, other)
    {
      RememberLookup(rx, Source(ssrc, window.Accept(index)), other);
    }
  }

  /** `later` still has every source of `earlier`, each window at least as far along. */
  ghost predicate RtcpNoneLower(earlier: seq<Source<Window>>, later: seq<Source<Window>>) {
    Keeps(earlier, later) && forall ssrc: u32 :: WindowNoLower(WindowFor(earlier, ssrc), WindowFor(later, ssrc))
  }

  ghost predicate WindowNoLower(earlier: Window, later: Window) {
    earlier.highest.Some? ==> later.highest.Some? && earlier.highest.value <= later.highest.value
  }

  lemma {:induction false} RtcpReachableTracks(keys: Keys, packets: seq<seq<byte>>)
    ensures RtcpTracks(RtcpRxAfter(keys, packets), RtcpHistoryOf(keys, packets))
  {
    if packets != [] {
      var n := |packets| - 1;
      RtcpReachableTracks(keys, packets[..n]);
      if RtcpAccepted(keys, packets, n) {
        RtcpAcceptedIsNew(keys, RtcpRxAfter(keys, packets[..n]), RtcpHistoryOf(keys, packets[..n]), packets[n]);
      }
    }
  }

  /** No report, accepted or not, loses a source or moves its window back. */
  lemma RtcpStepForgetsNothing(keys: Keys, rx: seq<Source<Window>>, history: History, packet: seq<byte>)
    requires RtcpTracks(rx, history)
    ensures RtcpNoneLower(rx, UnprotectRtcp(keys, rx, packet).0)
  {
    if UnprotectRtcp(keys, rx, packet).1.Ok? {
      RtcpAcceptedIsNew(keys, rx, history, packet);
    }
  }

  /** Sources are never lost and no window goes back, over any continuation of any run. */
  lemma {:induction false} RtcpNothingIsForgotten(keys: Keys, packets: seq<seq<byte>>, n: nat)
    requires n <= |packets|
    ensures RtcpNoneLower(RtcpRxAfter(keys, packets[..n]), RtcpRxAfter(keys, packets))
    decreases |packets|
  {
    if n == |packets| {
      assert packets[..n] == packets;
    } else {
      var m := |packets| - 1;
      assert packets[..m][..n] == packets[..n];
      RtcpNothingIsForgotten(keys, packets[..m], n);
      RtcpReachableTracks(keys, packets[..m]);
      RtcpStepForgetsNothing(keys, RtcpRxAfter(keys, packets[..m]), RtcpHistoryOf(keys, packets[..m]), packets[m]);
    }
  }

  /** Nothing noted is ever taken back. */
  lemma {:induction false} RtcpHistoryGrows(keys: Keys, packets: seq<seq<byte>>, i: nat, ssrc: u32)
    requires i <= |packets|
    ensures Of(RtcpHistoryOf(keys, packets[..i]), ssrc) <= Of(RtcpHistoryOf(keys, packets), ssrc)
    decreases |packets|
  {
    if i == |packets| {
      assert packets[..i] == packets;
    } else {
      var n := |packets| - 1;
      assert packets[..n][..i] == packets[..i];
      RtcpHistoryGrows(keys, packets[..n], i, ssrc);
    }
  }

  /** No (SSRC, SRTCP index) succeeds twice. */
  lemma RtcpAtMostOnce(keys: Keys, packets: seq<seq<byte>>, i: nat, j: nat)
    requires i < j < |packets|
    requires RtcpAccepted(keys, packets, i) && RtcpAccepted(keys, packets, j)
    ensures RtcpIdentity(packets[i]) != RtcpIdentity(packets[j])
  {
    var upToI, upToJ := packets[..i + 1], packets[..j];
    assert upToJ[..i + 1] == upToI && upToI[..i] == packets[..i];
    var (ssrc, index) := RtcpIdentity(packets[i]);
    assert index in Of(RtcpHistoryOf(keys, upToI), ssrc) by {
      assert RtcpAccepted(keys, upToI, i) && upToI[i] == packets[i];
    }
    RtcpHistoryGrows(keys, upToJ, i + 1, ssrc);
    RtcpReachableTracks(keys, upToJ);
    RtcpAcceptedIsNew(keys, RtcpRxAfter(keys, upToJ), RtcpHistoryOf(keys, upToJ), packets[j]);
  }
}
