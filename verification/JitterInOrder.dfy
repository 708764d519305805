/** Packets that arrive in ascending order, with gaps or without: what is played is every one of them and
    a stand-in for every number missing between two, unless too many are. */
module JitterInOrder {
  import opened Bytes
  import opened SequenceNumbers
  import opened Jitter
  import opened JitterRuns

  // ----- What should be played

  function PacketOf(a: Arrival): BufferedPacket
    requires a.Packet?
  {
    BufferedPacket(Seq(a.index), a.timestamp, a.payload, a.at, false)
  }

  /** The packets pushed, under their numbers. */
  function Sent(arrivals: seq<Arrival>): seq<Play> {
    if arrivals == [] then []
    else Sent(arrivals[..|arrivals| - 1]) + PushedBy(arrivals[|arrivals| - 1])
  }

  function PushedBy(a: Arrival): seq<Play> {
    if a.Packet? then [Play(a.index, Some(PacketOf(a)))] else []
  }

  /** The stand-ins due between one number and a later one: one for each number between, or none at all
      when those are more than `d`. */
  function GapTo(at: int, k: int, d: nat): (gap: seq<Play>)
    ensures |gap| <= d
    ensures forall i :: 0 <= i < |gap| ==> gap[i] == Play(at + i, None) && at + i < k
  {
    if at <= k then GapBefore(at, k, d) else []
  }

  /** The packets sent, each after the gap before it. */
  function Line(sent: seq<Play>, d: nat): seq<Play> {
    if sent == [] then []
    else
      var n := |sent| - 1;
      Line(sent[..n], d) + (if n == 0 then [] else GapTo(sent[n - 1].number + 1, sent[n].number, d)) + [sent[n]]
  }

  /** Packets numbered without a gap are all there is to play. */
  lemma {:induction false} LineWithoutGaps(sent: seq<Play>, d: nat, n: nat)
    requires n <= |sent| && forall i :: 0 < i < |sent| ==> sent[i].number == sent[i - 1].number + 1
    ensures Line(sent[..n], d) == sent[..n]
  {
    if n > 0 {
      assert sent[..n][..n - 1] == sent[..n - 1];
      LineWithoutGaps(sent, d, n - 1);
    } else {
      assert sent[..0] == [];
    }
  }

  /** The line only ever grows at its end. */
  lemma {:induction false} LineGrows(sent: seq<Play>, d: nat, n: nat)
    requires n <= |sent|
    ensures Line(sent[..n], d) <= Line(sent, d)
    decreases |sent|
  {
    if n == |sent| {
      assert sent[..n] == sent;
    } else {
      var last := |sent| - 1;
      assert sent[..last][..n] == sent[..n];
      LineGrows(sent[..last], d, n);
    }
  }

  /** A packet after all others joins the drain at its end, after the gap before it. */
  lemma {:induction false} DrainAppend(packets: map<u32, BufferedPacket>, at: int, top: int, d: nat, k: u32, p: BufferedPacket)
    requires (forall j :: j in packets ==> at <= j < top) && at <= top <= k
    requires if packets.Keys == {} then top == at else top - 1 in packets.Keys
    ensures Drain(packets[k := p], at, d) == Drain(packets, at, d) + GapTo(top, k, d) + [Play(k, Some(p))]
    decreases |packets|
  {
    hide GapTo, Drain, Least;
    if packets.Keys == {} {
      DrainAlone(packets, at, d, k, p);
    } else {
      var l := Least(packets.Keys);
      RemovedSize(packets, l);
      assert packets - {l} != map[] ==> top - 1 in packets - {l};
      DrainAppend(packets - {l}, l as int + 1, top, d, k, p);
      DrainPast(packets, at, d, k, p, GapTo(top, k, d) + [Play(k, Some(p))]);
      assert Drain(packets, at, d) + (GapTo(top, k, d) + [Play(k, Some(p))])
          == Drain(packets, at, d) + GapTo(top, k, d) + [Play(k, Some(p))];
    }
  }

  lemma DrainAlone(packets: map<u32, BufferedPacket>, at: int, d: nat, k: u32, p: BufferedPacket)
    requires packets.Keys == {} && at <= k
    ensures Drain(packets[k := p], at, d) == Drain(packets, at, d) + GapTo(at, k, d) + [Play(k, Some(p))]
  {
    hide GapBefore, Drain, Least;
    DrainUnfolds(packets[k := p], at, d);
    DrainOfNothing(packets, at, d);
    DrainOfNothing(packets[k := p] - {k}, k as int + 1, d);
    LeastIsLeast(packets[k := p].Keys, k);
  }

  /** Past the least of them, one more at the end makes the same difference. */
  lemma DrainPast(packets: map<u32, BufferedPacket>, at: int, d: nat, k: u32, p: BufferedPacket, tail: seq<Play>)
    requires packets.Keys != {} && forall j :: j in packets ==> at <= j < k
    requires var l := Least(packets.Keys); l in packets && forall j :: j in packets - {l} ==> l + 1 <= j
    requires var l := Least(packets.Keys);
             Drain((packets - {l})[k := p], l as int + 1, d) == Drain(packets - {l}, l as int + 1, d) + tail
    ensures Drain(packets[k := p], at, d) == Drain(packets, at, d) + tail
  {
    hide GapBefore, Drain, Least;
    var l, more := Least(packets.Keys), packets[k := p];
    LeastIsLeast(more.Keys, l);
    DrainUnfolds(packets, at, d);
    DrainUnfolds(more, at, d);
    assert more - {l} == (packets - {l})[k := p];
  }

  lemma LeastIsLeast(s: set<u32>, l: u32)
    requires l in s && forall x :: x in s ==> l <= x
    ensures Least(s) == l
  {
  }

  // ----- What is played

  /** What the pops play. */
  ghost function Played(b: Buffer, arrivals: seq<Arrival>): seq<Play>
    requires ValidMode(b.config.mode)
  {
    if arrivals == [] then []
    else
      var n := |arrivals| - 1;
      Played(b, arrivals[..n]) + PlayedBy(AfterArrivals(b, arrivals[..n]), arrivals[n])
  }

  ghost function PlayedBy(b: Buffer, a: Arrival): seq<Play>
    requires ValidMode(b.config.mode)
  {
    if a.Tick? && PopPlay(b, a.at, a.wanted).Some? then [PopPlay(b, a.at, a.wanted).value] else []
  }

  /** The next packet is of cycle 0 if it is the first, and otherwise ahead of the last by less than 2^15. */
  predicate Follows(sent: seq<Play>, index: int) {
    if sent == [] then index < TWO16
    else sent[|sent| - 1].number < index < sent[|sent| - 1].number + HALF
  }

  /** In ascending order, and finding room. */
  ghost predicate InTurnAt(b: Buffer, arrivals: seq<Arrival>, n: nat)
    requires ValidMode(b.config.mode) && n < |arrivals|
  {
    arrivals[n].Packet? ==>
      && Follows(Sent(arrivals[..n]), arrivals[n].index) && arrivals[n].index < TWO32 - 1
      && |AfterArrivals(b, arrivals[..n]).packets| < b.config.maxPackets
  }

  ghost predicate InTurn(b: Buffer, arrivals: seq<Arrival>)
    requires ValidMode(b.config.mode)
  {
    forall n :: 0 <= n < |arrivals| ==> InTurnAt(b, arrivals, n)
  }

  function Top(sent: seq<Play>): int {
    if sent == [] then 0 else sent[|sent| - 1].number + 1
  }

  function LastIndex(sent: seq<Play>): Option<u32>
    requires 0 <= Top(sent) <= TWO32 && (sent != [] ==> Top(sent) > 0)
  {
    if sent == [] then None else Some(Top(sent) - 1)
  }

  /** Where playout is, or would start. */
  ghost function At(b: Buffer): int
    requires b.playoutSeq.Some? || b.packets.Keys != {}
  {
    if b.playoutSeq.Some? then b.playoutSeq.value else Least(b.packets.Keys)
  }

  /** The buffer knows the last number; what remains to be drained is the line but for the first `p`. */
  ghost predicate Holds(b: Buffer, sent: seq<Play>, p: nat) {
    && Valid(b) && 0 <= Top(sent) < TWO32 && (sent != [] ==> Top(sent) > 0)
    && Numbered(b, LastIndex(sent))
    && (forall k :: k in b.packets ==> k < Top(sent))
    && (b.packets.Keys != {} ==> sent != [] && Top(sent) - 1 in b.packets.Keys)
    && (b.playoutSeq.None? ==> p == 0 && (b.packets.Keys == {} ==> sent == []))
    && (b.playoutSeq.Some? ==> sent != [] && b.playoutSeq.value <= Top(sent)
                               && (b.packets.Keys == {} ==> b.playoutSeq.value == Top(sent)))
    && p <= |Line(sent, Discontinuity(b.config))|
    && (sent == [] || Drain(b.packets, At(b), Discontinuity(b.config)) == Line(sent, Discontinuity(b.config))[p..])
  }

  lemma NothingHeld(config: Config)
    requires ValidMode(config.mode)
    ensures Holds(New(config), [], 0)
  {
  }

  /** The buffer with its playout set where it would start. */
  ghost function Begun(b: Buffer): Buffer
    requires b.playoutSeq.Some? || b.packets.Keys != {}
  {
    b.(playoutSeq := Some(At(b)))
  }

  /** A push that is not late, restarts nothing and finds room files its packet and nothing else. */
  lemma PushInserts(b: Buffer, s: u16, timestamp: u32, payload: seq<byte>, at: int)
    requires !IsLate(b, NumberFor(b, s)) && !IsRestart(b, NumberFor(b, s)) && |b.packets| < b.config.maxPackets
    ensures var after := Pushed(b, s, timestamp, payload, at).0;
            && after.packets == b.packets[NumberFor(b, s) := BufferedPacket(s, timestamp, payload, at, false)]
            && after.playoutSeq == b.playoutSeq && after.config == b.config
  {
    hide NextCycles, Extended, Least;
  }

  lemma NotLate(b: Buffer, sent: seq<Play>, p: nat, index: u32)
    requires Holds(b, sent, p) && Top(sent) <= index
    ensures !IsLate(b, index) && !IsRestart(b, index)
  {
    hide Numbered, Line, Drain, Valid;
  }

  /** The next packet in ascending order joins at the end. */
  lemma PushHolds(b: Buffer, sent: seq<Play>, p: nat, index: u32, timestamp: u32, payload: seq<byte>, at: int)
    requires Holds(b, sent, p) && Follows(sent, index) && index < TWO32 - 1 && |b.packets| < b.config.maxPackets
    ensures var packet := BufferedPacket(Seq(index), timestamp, payload, at, false);
            Holds(Pushed(b, Seq(index), timestamp, payload, at).0, sent + [Play(index, Some(packet))], p)
  {
    hide Line, Drain, Valid, Pushed, IsLate, IsRestart, NumberFor, Seq, Numbered, Least;
    var packet := BufferedPacket(Seq(index), timestamp, payload, at, false);
    var after := Pushed(b, Seq(index), timestamp, payload, at).0;
    NumbersRight(b, LastIndex(sent), index);
    NotLate(b, sent, p, index);
    PushKeepsSync(b, LastIndex(sent), index, timestamp, payload, at);
    PushInserts(b, Seq(index), timestamp, payload, at);
    PushKeepsValid(b, Seq(index), timestamp, payload, at);
    LineLonger(sent, Play(index, Some(packet)), Discontinuity(b.config));
    DrainLonger(b, after, sent, p, index, packet);
  }

  lemma LineLonger(sent: seq<Play>, next: Play, d: nat)
    ensures Line(sent + [next], d)
         == Line(sent, d) + (if sent == [] then [] else GapTo(Top(sent), next.number, d)) + [next]
  {
    hide GapTo;
    assert (sent + [next])[..|sent|] == sent;
  }

  lemma DrainLonger(b: Buffer, after: Buffer, sent: seq<Play>, p: nat, index: u32, packet: BufferedPacket)
    requires Holds(b, sent, p) && Top(sent) <= index
    requires after.packets == b.packets[index := packet] && after.playoutSeq == b.playoutSeq && after.config == b.config
    ensures var d, more := Discontinuity(b.config), sent + [Play(index, Some(packet))];
            && p <= |Line(more, d)| && Drain(after.packets, At(after), d) == Line(more, d)[p..]
  {
    hide Line, Drain, Numbered, GapTo, Discontinuity, Least;
    var d, next := Discontinuity(b.config), Play(index, Some(packet));
    LineLonger(sent, next, d);
    if sent == [] {
      FirstOfLine(b.packets, d, index, packet);
    } else {
      AllFromAt(b);
      AtStays(b, after, index);
      DrainAppend(b.packets, At(b), Top(sent), d, index, packet);
      var line, gap := Line(sent, d), GapTo(Top(sent), index, d);
      assert (line + gap + [next])[p..] == line[p..] + gap + [next];
    }
  }

  /** Nothing buffered is before playout, or where it would start. */
  lemma AllFromAt(b: Buffer)
    requires Valid(b) && (b.playoutSeq.Some? || b.packets.Keys != {})
    ensures forall k :: k in b.packets ==> At(b) <= k
  {
  }

  lemma AtStays(b: Buffer, after: Buffer, index: u32)
    requires b.playoutSeq.Some? || b.packets.Keys != {}
    requires after.packets.Keys == b.packets.Keys + {index} && after.playoutSeq == b.playoutSeq
    requires forall k :: k in b.packets ==> k <= index
    ensures At(after) == At(b)
  {
    if b.playoutSeq.None? { LeastIsLeast(after.packets.Keys, Least(b.packets.Keys)); }
  }

  lemma FirstOfLine(packets: map<u32, BufferedPacket>, d: nat, index: u32, packet: BufferedPacket)
    requires packets.Keys == {}
    ensures var b := packets[index := packet];
            b.Keys != {} && Least(b.Keys) == index && Line([], d) == [] && Drain(b, index, d) == [Play(index, Some(packet))]
  {
    hide GapBefore, Drain, Least;
    LeastIsLeast(packets[index := packet].Keys, index);
    DrainUnfolds(packets[index := packet], index, d);
    DrainOfNothing(packets[index := packet] - {index}, index as int + 1, d);
    NoGap(index, d);
  }

  lemma NoGap(at: int, d: nat)
    ensures GapBefore(at, at, d) == []
  {
  }

  /** A pop plays what it would if playout had been set where it starts. */
  lemma PopIsBegun(b: Buffer, at: int, wanted: u32)
    requires Valid(b) && b.playoutSeq.None? && ShouldStart(b, at) && b.packets.Keys != {}
    ensures Valid(Begun(b))
    ensures var (after, begun) := (Popped(b, at, wanted).0, Popped(Begun(b), at, wanted).0);
            && PopPlay(b, at, wanted) == PopPlay(Begun(b), at, wanted)
            && after == begun.(playing := after.playing)
  {
    hide Adapted;
    assert At(b) in b.packets;
  }

  /** What a pop leaves of the numbers: the last is there as long as anything is. */
  lemma PopKeepsTop(b: Buffer, top: int, at: int, wanted: u32)
    requires Valid(b) && b.playoutSeq.Some? && b.playoutSeq.value <= top < TWO32
    requires (forall k :: k in b.packets ==> k < top) && (b.packets.Keys != {} ==> top - 1 in b.packets.Keys)
    requires b.packets.Keys == {} ==> b.playoutSeq.value == top
    ensures var after := Popped(b, at, wanted).0;
            && after.playoutSeq.Some? && after.playoutSeq.value <= top
            && (forall k :: k in after.packets ==> k < top) && (after.packets.Keys != {} ==> top - 1 in after.packets.Keys)
            && (after.packets.Keys == {} ==> after.playoutSeq.value == top)
            && after.config == b.config
            && (PopPlay(b, at, wanted).None? ==> after == b)
  {
    hide Adapted, Least;
    if Target(b, at).Some? {
      TargetIsNotPast(b, at);
      TargetOncePlaying(b, at);
    }
  }

  lemma PopHoldsOncePlaying(b: Buffer, sent: seq<Play>, p: nat, at: int, wanted: u32)
    requires Holds(b, sent, p) && b.playoutSeq.Some?
    ensures ValidMode(b.config.mode)
    ensures var line, play := Line(sent, Discontinuity(b.config)), PopPlay(b, at, wanted);
            && Holds(Popped(b, at, wanted).0, sent, if play.Some? then p + 1 else p)
            && (if play.Some? then p < |line| && play.value == line[p] else p == |line|)
  {
    ModeIsValid(b);
    hide Line, Drain, Discontinuity, Popped, PopPlay, Least, Numbered, Valid;
    TickKeepsSync(b, LastIndex(sent), at, wanted);
    PopPlaysNext(b, at, wanted);
    PopKeepsTop(b, Top(sent), at, wanted);
    var line := Line(sent, Discontinuity(b.config));
    if p < |line| { assert line[p..][1..] == line[p + 1..]; }
  }

  lemma LineNotEmpty(sent: seq<Play>, d: nat)
    requires sent != []
    ensures Line(sent, d) != []
  {
    hide GapTo;
  }

  lemma BegunHolds(b: Buffer, sent: seq<Play>)
    requires Holds(b, sent, 0) && b.playoutSeq.None? && b.packets.Keys != {} && Valid(Begun(b))
    ensures Holds(Begun(b), sent, 0)
  {
    hide Line, Drain, Discontinuity, Valid;
    assert At(b) in b.packets.Keys;
    NumberedStill(b, Begun(b), LastIndex(sent));
  }

  lemma NumberedStill(b: Buffer, after: Buffer, last: Option<u32>)
    requires Numbered(b, last) && last.Some?
    requires after == b.(playoutSeq := after.playoutSeq, playing := after.playing)
    ensures Numbered(after, last)
  {
  }

  /** Whether it is called playing makes no difference. */
  lemma HoldsStill(b: Buffer, after: Buffer, sent: seq<Play>, p: nat)
    requires Holds(b, sent, p) && sent != [] && b.playoutSeq.Some? && after == b.(playing := after.playing)
    ensures Holds(after, sent, p)
  {
    hide Line, Drain, Discontinuity;
    NumberedStill(b, after, LastIndex(sent));
  }

  lemma PopsNothing(b: Buffer, at: int, wanted: u32)
    requires ValidMode(b.config.mode) && b.playoutSeq.None? && !(ShouldStart(b, at) && b.packets.Keys != {})
    ensures Popped(b, at, wanted).0 == b && PopPlay(b, at, wanted).None? && !ShouldStart(b, at)
  {
    hide Adapted, Least;
  }

  /** A pop plays the next of the line, or nothing; and nothing only when the line is at its end, or the
      first wait is not over. */
  lemma PopHolds(b: Buffer, sent: seq<Play>, p: nat, at: int, wanted: u32)
    requires Holds(b, sent, p)
    ensures ValidMode(b.config.mode)
    ensures var line, play := Line(sent, Discontinuity(b.config)), PopPlay(b, at, wanted);
            && Holds(Popped(b, at, wanted).0, sent, if play.Some? then p + 1 else p)
            && (play.Some? ==> p < |line| && play.value == line[p])
            && (play.None? ==> p == |line| || (b.playoutSeq.None? && !ShouldStart(b, at)))
  {
    ModeIsValid(b);
    if b.playoutSeq.Some? {
      PopHoldsOncePlaying(b, sent, p, at, wanted);
    } else if ShouldStart(b, at) && b.packets.Keys != {} {
      FirstPopHolds(b, sent, at, wanted);
    } else {
      PopsNothing(b, at, wanted);
    }
    hide Holds, Line, Drain, Discontinuity, Popped, PopPlay, ShouldStart;
  }

  lemma FirstPopHolds(b: Buffer, sent: seq<Play>, at: int, wanted: u32)
    requires Holds(b, sent, 0) && b.playoutSeq.None? && ShouldStart(b, at) && b.packets.Keys != {}
    ensures ValidMode(b.config.mode)
    ensures var line, play := Line(sent, Discontinuity(b.config)), PopPlay(b, at, wanted);
            play.Some? && line != [] && play.value == line[0] && Holds(Popped(b, at, wanted).0, sent, 1)
  {
    ModeIsValid(b);
    PopIsBegun(b, at, wanted);
    BegunHolds(b, sent);
    LineNotEmpty(sent, Discontinuity(b.config));
    hide Line, Drain, Discontinuity, Popped, PopPlay, ShouldStart, Least, Numbered, Valid;
    PopHoldsOncePlaying(Begun(b), sent, 0, at, wanted);
    HoldsStill(Popped(Begun(b), at, wanted).0, Popped(b, at, wanted).0, sent, 1);
  }

  // ----- Whole runs

  lemma NothingArrived(b: Buffer, arrivals: seq<Arrival>)
    requires ValidMode(b.config.mode)
    ensures AfterArrivals(b, arrivals[..0]) == b && Sent(arrivals[..0]) == [] && Played(b, arrivals[..0]) == []
  {
  }

  lemma OneMoreArrival(b: Buffer, arrivals: seq<Arrival>, n: nat)
    requires ValidMode(b.config.mode) && n < |arrivals|
    ensures AfterArrivals(b, arrivals[..n + 1]) == Step(AfterArrivals(b, arrivals[..n]), EventOf(arrivals[n]))
    ensures Sent(arrivals[..n + 1]) == Sent(arrivals[..n]) + PushedBy(arrivals[n])
    ensures Played(b, arrivals[..n + 1])
         == Played(b, arrivals[..n]) + PlayedBy(AfterArrivals(b, arrivals[..n]), arrivals[n])
  {
    hide Step, PushedBy, PlayedBy;
    assert arrivals[..n + 1][..n] == arrivals[..n];
  }

  /** What has been played is the beginning of the line, and the buffer holds the rest. */
  ghost predicate PlaysLine(b: Buffer, sent: seq<Play>, played: seq<Play>) {
    Holds(b, sent, |played|) && played <= Line(sent, Discontinuity(b.config))
  }

  /** One arrival in ascending order, or one tick. */
  lemma StepPlays(b: Buffer, sent: seq<Play>, played: seq<Play>, a: Arrival)
    requires ValidMode(b.config.mode) && PlaysLine(b, sent, played)
    requires a.Packet? ==> Follows(sent, a.index) && a.index < TWO32 - 1 && |b.packets| < b.config.maxPackets
    ensures PlaysLine(Step(b, EventOf(a)), sent + PushedBy(a), played + PlayedBy(b, a))
  {
    hide Holds, Line, Pushed, Popped, PopPlay, Discontinuity, Follows;
    match a {
      case Packet(index, timestamp, payload, at) =>
        PushHolds(b, sent, |played|, index, timestamp, payload, at);
        LineGrows(sent + PushedBy(a), Discontinuity(b.config), |sent|);
        assert (sent + PushedBy(a))[..|sent|] == sent && played + [] == played;
      case Tick(at, wanted) =>
        PopHolds(b, sent, |played|, at, wanted);
        assert sent + [] == sent && played + [] == played;
    }
  }

  /** Over any run of packets in ascending order and ticks, what has been played is the beginning of the
      line of all that was pushed; the rest of it is what the buffer will play. */
  lemma {:induction false} PlaysInTurn(config: Config, arrivals: seq<Arrival>, n: nat)
    requires ValidMode(config.mode) && InTurn(New(config), arrivals) && n <= |arrivals|
    ensures PlaysLine(AfterArrivals(New(config), arrivals[..n]), Sent(arrivals[..n]), Played(New(config), arrivals[..n]))
  {
    hide PlaysLine, Step, PushedBy, PlayedBy, Played, Sent, AfterArrivals, Follows, New;
    NothingPlayed(config);
    var b := New(config);
    if n == 0 {
      NothingArrived(b, arrivals);
    } else {
      PlaysInTurn(config, arrivals, n - 1);
      assert InTurnAt(b, arrivals, n - 1);
      OneMoreArrival(b, arrivals, n - 1);
      StepPlays(AfterArrivals(b, arrivals[..n - 1]), Sent(arrivals[..n - 1]), Played(b, arrivals[..n - 1]), arrivals[n - 1]);
    }
  }

  lemma NothingPlayed(config: Config)
    requires ValidMode(config.mode)
    ensures New(config).config == config && PlaysLine(New(config), [], [])
  {
    NothingHeld(config);
  }
}
