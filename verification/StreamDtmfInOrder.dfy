/** The network at its best: nothing lost, nothing out of order. Then what is reported depends on the
    clocks alone: every digit pressed, exactly when the clocks tell each press from the one before. */
module StreamDtmfInOrder {
  import opened Bytes
  import opened StreamConfig
  import opened StreamSender
  import opened StreamSenderRuns
  import opened StreamDtmf
  import opened StreamDtmfClock
  import opened StreamDtmfEndToEnd
  import opened StreamNetwork
  import R = StreamReceiver
  import RR = StreamReceiverRuns
  import S = Srtp
  import T = SourceTable

  // ----- The order the sender keeps

  /** How many presses have had a packet, each before any of a later press. */
  function Count(tags: seq<Option<nat>>): nat {
    if tags == [] then 0
    else
      var k := Count(tags[..|tags| - 1]);
      if tags[|tags| - 1] == Some(k) then k + 1 else k
  }

  /** A packet after `k` presses is of the last of them or of the next, or audio. */
  predicate Follows(tag: Option<nat>, k: nat) {
    tag.Some? ==> tag.value == k || tag.value + 1 == k
  }

  ghost predicate Orderly(tags: seq<Option<nat>>) {
    forall i :: 0 <= i < |tags| ==> Follows(tags[i], Count(tags[..i]))
  }

  lemma OneMoreTag(tags: seq<Option<nat>>, tag: Option<nat>)
    requires Orderly(tags) && Follows(tag, Count(tags))
    ensures Orderly(tags + [tag])
    ensures Count(tags + [tag]) == Count(tags) + if tag == Some(Count(tags)) then 1 else 0
  {
    hide Follows;
    var all := tags + [tag];
    assert all[..|tags|] == tags;
    forall i | 0 <= i < |all| ensures Follows(all[i], Count(all[..i])) {
      if i < |tags| { assert all[..i] == tags[..i]; }
    }
  }

  /** The packets of one call all have the same tag. */
  lemma {:induction false} CallOfTags(tags: seq<Option<nat>>, tag: Option<nat>, m: nat)
    requires Orderly(tags) && Follows(tag, Count(tags))
    ensures var all := tags + seq(m, i => tag);
            && Orderly(all)
            && Count(all) == Count(tags) + if m > 0 && tag == Some(Count(tags)) then 1 else 0
  {
    hide Orderly;
    if m == 0 {
      assert tags + seq(m, i => tag) == tags;
    } else {
      CallOfTags(tags, tag, m - 1);
      var before := tags + seq(m - 1, i => tag);
      OneMoreTag(before, tag);
      assert tags + seq(m, i => tag) == before + [tag];
    }
  }

  /** What a call adds to the tags and to the presses. */
  lemma CallFollows(s: Sender, c: Call, k: nat, call: nat)
    requires Valid(s)
    ensures var count, tags := k + |StartsIn(s, c, call)|, TagsIn(s, c, k + |StartsIn(s, c, call)|);
            && tags == seq(|tags|, i => TagOf(s, count))
            && (tags != [] ==> Follows(TagOf(s, count), k))
            && count == k + if tags != [] && TagOf(s, count) == Some(k) then 1 else 0
  {
    hide PacketsOf, ProtectedAll, DtmfTimestamp, CallsPerDigit;
    if c.Send? { PacketizedKeepsValid(s, c.encoded); }
  }

  /** A sender brings its presses in order, each with a packet of its own. */
  lemma {:induction false} SenderIsOrderly(s: Sender, calls: seq<Call>, n: nat)
    requires Valid(s) && n <= |calls|
    ensures Orderly(Tags(s, calls[..n])) && Count(Tags(s, calls[..n])) == |Presses(s, calls[..n])|
  {
    hide Step, TagsIn, TagOf, StartsIn, Orderly, Follows, Count, StreamSender.Valid;
    if n > 0 {
      assert calls[..n][..n - 1] == calls[..n - 1];
      SenderIsOrderly(s, calls, n - 1);
      var before, c, k := After(s, calls[..n - 1]), calls[n - 1], |Presses(s, calls[..n - 1])|;
      CallFollows(before, c, k, Sends(calls[..n - 1]));
      var tags := TagsIn(before, c, |Presses(s, calls[..n])|);
      if tags != [] {
        CallOfTags(Tags(s, calls[..n - 1]), TagOf(before, |Presses(s, calls[..n])|), |tags|);
      } else {
        assert Tags(s, calls[..n - 1]) + [] == Tags(s, calls[..n - 1]);
      }
    } else {
      assert calls[..0] == [];
      NoTags();
    }
  }

  lemma NoTags()
    ensures Orderly([]) && Count([]) == 0
  {
  }

  // ----- Packet by packet, press by press

  /** The presses of the packets, in the order sent. */
  function Pressed(tags: seq<Option<nat>>): seq<nat> {
    if tags == [] then []
    else Pressed(tags[..|tags| - 1]) + if tags[|tags| - 1].Some? then [tags[|tags| - 1].value] else []
  }

  /** A press heeded, or not, at its first packet, changes nothing by those that repeat it. */
  lemma RepeatsChangeNothing(s: Sender, presses: seq<PressEvent>, k: nat)
    requires StreamDtmf.InOrder(presses) && 0 < k <= |presses|
    ensures AllBelow(UpTo(k) + [k - 1], |presses|)
    ensures Heeded(s, presses, UpTo(k) + [k - 1]) == Heeded(s, presses, UpTo(k))
  {
    hide Stamp, R.IsNewer;
    assert UpTo(k) == UpTo(k - 1) + [k - 1];
    OneMoreHeeded(s, presses, UpTo(k - 1), k - 1);
    OneMoreHeeded(s, presses, UpTo(k), k - 1);
    NewerIsOneWay(Stamp(s, presses[k - 1]), Stamp(s, presses[k - 1]));
  }

  /** Heeding works from what was heeded before, not from how it came to be. */
  lemma HeedingIsLocal(s: Sender, presses: seq<PressEvent>, a: seq<nat>, b: seq<nat>, m: nat)
    requires StreamDtmf.InOrder(presses) && AllBelow(a, |presses|) && AllBelow(b, |presses|) && m < |presses|
    requires Heeded(s, presses, a) == Heeded(s, presses, b)
    ensures AllBelow(a + [m], |presses|) && AllBelow(b + [m], |presses|)
    ensures Heeded(s, presses, a + [m]) == Heeded(s, presses, b + [m])
  {
    hide Heeds, LastStamp, Stamp, Heeded;
    OneMoreHeeded(s, presses, a, m);
    OneMoreHeeded(s, presses, b, m);
  }

  /** In the order sent, what is heeded is what would be if every press had a single packet. */
  lemma {:induction false} OnePacketEach(s: Sender, presses: seq<PressEvent>, tags: seq<Option<nat>>, n: nat)
    requires StreamDtmf.InOrder(presses) && Orderly(tags) && Count(tags) <= |presses| && n <= |tags|
    ensures Count(tags[..n]) <= |presses| && AllBelow(Pressed(tags[..n]), |presses|)
    ensures Heeded(s, presses, Pressed(tags[..n])) == Heeded(s, presses, UpTo(Count(tags[..n])))
  {
    hide Heeded, Orderly;
    CountGrows(tags, n);
    if n == 0 {
      assert tags[..0] == [] && UpTo(0) == [];
    } else {
      OnePacketEach(s, presses, tags, n - 1);
      assert tags[..n][..n - 1] == tags[..n - 1];
      var before, k := Pressed(tags[..n - 1]), Count(tags[..n - 1]);
      OrderlyAt(tags, n - 1);
      OnePacketMore(s, presses, before, k, tags[n - 1]);
      assert before + [] == before && UpTo(k) + [k] == UpTo(k + 1);
    }
  }

  /** One more packet, of the last press or of the next. */
  lemma OnePacketMore(s: Sender, presses: seq<PressEvent>, before: seq<nat>, k: nat, tag: Option<nat>)
    requires StreamDtmf.InOrder(presses) && k <= |presses| && AllBelow(before, |presses|) && AllBelow(UpTo(k), |presses|)
    requires Follows(tag, k) && (tag == Some(k) ==> k < |presses|)
    requires Heeded(s, presses, before) == Heeded(s, presses, UpTo(k))
    ensures tag.Some? ==> AllBelow(before + [tag.value], |presses|) && AllBelow(UpTo(k) + [k], k + 1)
    ensures tag.Some? && tag.value != k ==> Heeded(s, presses, before + [tag.value]) == Heeded(s, presses, UpTo(k))
    ensures tag == Some(k) ==> AllBelow(UpTo(k) + [k], |presses|)
                               && Heeded(s, presses, before + [k]) == Heeded(s, presses, UpTo(k) + [k])
  {
    hide Heeded;
    if tag.Some? {
      HeedingIsLocal(s, presses, before, UpTo(k), tag.value);
      if tag.value != k { RepeatsChangeNothing(s, presses, k); }
    }
  }

  lemma OrderlyAt(tags: seq<Option<nat>>, i: nat)
    requires Orderly(tags) && i < |tags|
    ensures Follows(tags[i], Count(tags[..i]))
  {
  }

  lemma {:induction false} CountGrows(tags: seq<Option<nat>>, i: nat)
    requires i <= |tags|
    ensures Count(tags[..i]) <= Count(tags)
    decreases |tags|
  {
    if i == |tags| {
      assert tags[..i] == tags;
    } else {
      var n := |tags| - 1;
      assert tags[..n][..i] == tags[..i];
      CountGrows(tags[..n], i);
    }
  }

  /** What the receiver reports of a run in sequence. */
  ghost function InSequenceReports(s: Sender, calls: seq<Call>): seq<R.DtmfEvent>
    requires FreshSender(s)
  {
    var presses := Presses(s, calls);
    UpToIsBelow(|presses|);
    assert calls[..|calls|] == calls;
    PressesAscend(s, calls, |calls|);
    EventsAt(presses, Heeded(s, presses, UpTo(|presses|)))
  }

  lemma UpToIsBelow(n: nat)
    ensures AllBelow(UpTo(n), n)
  {
  }

  /** Packets of a run in the order sent. */
  lemma SentInOrder(s: Sender, calls: seq<Call>)
    requires FreshSender(s)
    ensures var presses, ms := Presses(s, calls), Pressed(Tags(s, calls));
            && StreamDtmf.InOrder(presses) && AllBelow(ms, |presses|)
            && EventsAt(presses, Heeded(s, presses, ms)) == InSequenceReports(s, calls)
  {
    hide Presses, Tags, Heeded, Orderly, Count, Pressed, StreamSender.Valid;
    ValidIfFresh(s);
    assert calls[..|calls|] == calls;
    var presses, tags := Presses(s, calls), Tags(s, calls);
    PressesAscend(s, calls, |calls|);
    SenderIsOrderly(s, calls, |calls|);
    OnePacketEach(s, presses, tags, |tags|);
    assert tags[..|tags|] == tags;
    UpToIsBelow(|presses|);
  }

  // ----- The network

  lemma {:induction false} ArrivedInSequence(tags: seq<Option<nat>>, arrivals: seq<Arrival>, j: nat)
    requires InSequence(arrivals) && SentCount(arrivals) <= |tags| && j <= |arrivals|
    ensures SentCount(arrivals[..j]) <= |tags|
    ensures Arrived(tags, arrivals[..j]) == Pressed(tags[..SentCount(arrivals[..j])])
  {
    CountsUp(arrivals, j);
    if j > 0 {
      assert arrivals[..j][..j - 1] == arrivals[..j - 1];
      ArrivedInSequence(tags, arrivals, j - 1);
      assert InSequenceAt(arrivals, j - 1);
      var c := SentCount(arrivals[..j - 1]);
      if arrivals[j - 1].Sent? { assert tags[..c + 1][..c] == tags[..c]; }
    } else {
      assert arrivals[..0] == [] && tags[..0] == [];
    }
  }

  lemma {:induction false} CountsUp(arrivals: seq<Arrival>, j: nat)
    requires j <= |arrivals|
    ensures SentCount(arrivals[..j]) <= SentCount(arrivals)
    decreases |arrivals|
  {
    if j < |arrivals| {
      var n := |arrivals| - 1;
      assert arrivals[..n][..j] == arrivals[..j];
      CountsUp(arrivals[..n], j);
    } else {
      assert arrivals[..j] == arrivals;
    }
  }

  /** Every datagram arrives, in the order sent, whatever strays and ticks come between. */
  ghost predicate AllInSequence(s: Sender, calls: seq<Call>, r: R.Receiver, from: Address, arrivals: seq<Arrival>)
    requires Valid(s) && RR.Valid(r)
  {
    && Comes(r, Datagrams(s, calls), from, arrivals) && InSequence(arrivals)
    && SentCount(arrivals) == |Datagrams(s, calls)|
  }

  /** What is carried and recovered in sequence is reported as its presses deserve. */
  lemma SequenceReports(s: Sender, calls: seq<Call>, r: R.Receiver, from: Address, arrivals: seq<Arrival>)
    requires FreshSender(s) && RR.Valid(r) && Agree(s, r, from) && Memory(s, r).None?
    requires |Packets(s, calls)| == |Datagrams(s, calls)| == |Tags(s, calls)|
    requires AllCarried(Packets(s, calls), r, Datagrams(s, calls), from, arrivals)
    requires AllRecovered(r, Datagrams(s, calls), from, arrivals)
    requires InSequence(arrivals) && SentCount(arrivals) == |Tags(s, calls)|
    ensures Reported(r, Datagrams(s, calls), from, arrivals) == InSequenceReports(s, calls)
  {
    hide Presses, Packets, Tags, Datagrams, Agree, Heeded, Recovered, Reported, AllCarried, AllRecovered, RR.Valid,
         FreshSender, StreamSender.Valid, StreamDtmf.InOrder, AllBelow, Arrived, InSequence, Pressed, InSequenceReports;
    ValidIfFresh(s);
    var tags := Tags(s, calls);
    CarriedReports(s, calls, r, from, arrivals);
    RecoversWhatArrives(r, Datagrams(s, calls), from, tags, arrivals, |arrivals|);
    ArrivedInSequence(tags, arrivals, |arrivals|);
    assert arrivals[..|arrivals|] == arrivals && tags[..|tags|] == tags;
    SentInOrder(s, calls);
  }

  /** Over plain RTP. */
  lemma PlainInSequence(s: Sender, calls: seq<Call>, r: R.Receiver, from: Address, arrivals: seq<Arrival>)
    requires PlainEnds(s, r, from) && Memory(s, r).None? && AllInSequence(s, calls, r, from, arrivals)
    ensures Reported(r, Datagrams(s, calls), from, arrivals) == InSequenceReports(s, calls)
  {
    hide Presses, Packets, Tags, Datagrams, Agree, Reported, AllCarried, AllRecovered, RR.Valid, FreshSender, Comes,
         StreamSender.Valid, InSequence, InSequenceReports;
    ValidIfFresh(s);
    PlainNetwork(s, calls, r, from, arrivals);
    SequenceReports(s, calls, r, from, arrivals);
  }

  /** Over SRTP, keyed alike at both ends. */
  lemma SrtpInSequence(s: Sender, calls: seq<Call>, keys: S.Keys, r: R.Receiver, rx: seq<T.Source<S.RecvState>>,
                       from: Address, arrivals: seq<Arrival>)
    requires SrtpEnds(s, calls, keys, r, rx, from) && T.HasRoom(rx, s.ssrc) && Memory(s, r).None?
    requires AllInSequence(s, calls, r, from, arrivals)
    ensures Reported(r, Datagrams(s, calls), from, arrivals) == InSequenceReports(s, calls)
  {
    hide Presses, Packets, Tags, Datagrams, Agree, Reported, AllCarried, AllRecovered, RR.Valid, FreshSender, Comes,
         StreamSender.Valid, InSequence, InSequenceReports, T.Lookup, T.HasRoom, SrtpTimely;
    ValidIfFresh(s);
    SrtpSequence(s, calls, keys, r, rx, from, arrivals);
    SrtpNetwork(s, calls, keys, r, rx, from, arrivals);
    SequenceReports(s, calls, r, from, arrivals);
  }
}
