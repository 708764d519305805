/** Whole runs of the jitter buffer: order, conservation, draining, numbering and adaptation. */
module JitterRuns {
  import opened Bytes
  import opened SequenceNumbers
  import opened Jitter

  datatype Event =
    | Push(s: u16, timestamp: u32, payload: seq<byte>, at: int)
    | Pop(at: int, wanted: u32)
    | Flush
    | Clear

  ghost function Step(b: Buffer, e: Event): (after: Buffer)
    requires ValidMode(b.config.mode)
    ensures after.config == b.config
  {
    match e
    case Push(s, timestamp, payload, at) => Pushed(b, s, timestamp, payload, at).0
    case Pop(at, wanted) => Popped(b, at, wanted).0
    case Flush => Flushed(b)
    case Clear => Reset(b)
  }

  ghost function After(b: Buffer, events: seq<Event>): (after: Buffer)
    requires ValidMode(b.config.mode)
    ensures after.config == b.config
  {
    if events == [] then b
    else Step(After(b, events[..|events| - 1]), events[|events| - 1])
  }

  lemma StepKeepsValid(b: Buffer, e: Event)
    requires Valid(b)
    ensures Valid(Step(b, e))
  {
    hide Pushed, Popped;
    match e
    case Push(s, timestamp, payload, at) => PushKeepsValid(b, s, timestamp, payload, at);
    case Pop(at, wanted) => PopKeepsValid(b, at, wanted);
    case Flush =>
    case Clear =>
  }

  /** Every reachable buffer is valid: in particular it never holds more than its bound, and never
      anything behind the playout position. */
  lemma {:induction false} ReachableIsValid(b: Buffer, events: seq<Event>, n: nat)
    requires Valid(b) && n <= |events|
    ensures Valid(After(b, events[..n]))
  {
    hide Step;
    if n > 0 {
      assert events[..n][..n - 1] == events[..n - 1];
      ReachableIsValid(b, events, n - 1);
      StepKeepsValid(After(b, events[..n - 1]), events[n - 1]);
    } else {
      assert events[..0] == [];
    }
  }

  // ----- Order

  /** The step discards the playout position: a reset, or a sender that jumped far back. */
  predicate Restarts(b: Buffer, e: Event) {
    e.Clear? || (e.Push? && IsRestart(b, NumberFor(b, e.s)))
  }

  /** The extended number the step plays, if it plays one. */
  ghost function Plays(b: Buffer, e: Event): Option<u32> {
    if e.Pop? then Target(b, e.at) else None
  }

  /** One step never moves playout back. It plays the next number in turn, unless that is missing
      and the smallest number buffered is further ahead than a full buffer; then it plays that. */
  lemma PlayoutAdvances(b: Buffer, e: Event)
    requires Valid(b) && !Restarts(b, e)
    ensures var after, played := Step(b, e), Plays(b, e);
            && (b.playoutSeq.Some? && played.None? ==> after.playoutSeq == b.playoutSeq)
            && (played.Some? && played.value + 1 < TWO32 ==> after.playoutSeq == Some(played.value + 1))
            && (b.playoutSeq.Some? && played.Some? ==>
                  || played == b.playoutSeq
                  || (b.packets.Keys != {} && played.value == Least(b.packets.Keys)
                      && played.value - b.playoutSeq.value > Discontinuity(b.config)))
  {
    hide NextCycles, Extended, Adapted;
    match e
    case Push(s, timestamp, payload, at) =>
      ReadyKeepsPlayout(b, s, timestamp, at);
    case Pop(at, _) =>
      if Target(b, at).Some? { TargetIsNotPast(b, at); }
    case Flush =>
    case Clear =>
  }

  lemma ReadyKeepsPlayout(b: Buffer, s: u16, timestamp: u32, at: int)
    requires !IsRestart(b, NumberFor(b, s))
    ensures Ready(b, s, timestamp, at).playoutSeq == b.playoutSeq
  {
  }

  ghost function PlayedAt(b: Buffer, events: seq<Event>, n: nat): Option<u32>
    requires ValidMode(b.config.mode) && n < |events|
  {
    Plays(After(b, events[..n]), events[n])
  }

  /** Neither a restart nor the last 32-bit number in `events[from..to]`. */
  ghost predicate Undisturbed(b: Buffer, events: seq<Event>, from: nat, to: nat)
    requires ValidMode(b.config.mode) && to <= |events|
  {
    forall n :: from <= n < to ==>
      && !Restarts(After(b, events[..n]), events[n])
      && (PlayedAt(b, events, n).Some? ==> PlayedAt(b, events, n).value + 1 < TWO32)
  }

  lemma {:induction false} PlayoutStaysAhead(b: Buffer, events: seq<Event>, i: nat, j: nat)
    requires Valid(b) && i < j <= |events|
    requires Undisturbed(b, events, i, j) && PlayedAt(b, events, i).Some?
    ensures var at := After(b, events[..j]).playoutSeq;
            at.Some? && PlayedAt(b, events, i).value < at.value
  {
    hide Step, Plays, Restarts;
    var n := j - 1;
    assert events[..j][..n] == events[..n];
    ReachableIsValid(b, events, n);
    PlayoutAdvances(After(b, events[..n]), events[n]);
    if i < n {
      PlayoutStaysAhead(b, events, i, n);
    }
  }

  /** Between restarts, extended numbers come out strictly ascending. */
  lemma PlayoutOrder(b: Buffer, events: seq<Event>, i: nat, j: nat)
    requires Valid(b) && i < j < |events|
    requires Undisturbed(b, events, i, j + 1)
    requires PlayedAt(b, events, i).Some? && PlayedAt(b, events, j).Some?
    ensures PlayedAt(b, events, i).value < PlayedAt(b, events, j).value
  {
    hide Step, Restarts;
    PlayoutStaysAhead(b, events, i, j);
    ReachableIsValid(b, events, j);
    PlayoutAdvances(After(b, events[..j]), events[j]);
  }

  // ----- Conservation

  /** Packets lost sight of without being played or counted as dropped. */
  datatype Ledger = Ledger(overwritten: nat, cleared: nat)

  ghost function Overwrites(b: Buffer, e: Event): nat {
    if e.Push? && !IsLate(b, NumberFor(b, e.s))
       && NumberFor(b, e.s) in Ready(b, e.s, e.timestamp, e.at).packets then 1 else 0
  }

  function Clears(b: Buffer, e: Event): nat {
    if e.Flush? || (e.Push? && IsRestart(b, NumberFor(b, e.s))) then |b.packets| else 0
  }

  ghost function Entered(l: Ledger, b: Buffer, e: Event): Ledger {
    if e.Clear? then Ledger(0, 0) else Ledger(l.overwritten + Overwrites(b, e), l.cleared + Clears(b, e))
  }

  ghost function LedgerOf(b: Buffer, events: seq<Event>): Ledger
    requires ValidMode(b.config.mode)
  {
    if events == [] then Ledger(0, 0)
    else
      var n := |events| - 1;
      Entered(LedgerOf(b, events[..n]), After(b, events[..n]), events[n])
  }

  ghost predicate Balanced(b: Buffer, l: Ledger) {
    && b.stats.lost <= b.stats.played
    && b.stats.received
       == b.stats.dropped + (b.stats.played - b.stats.lost) + |b.packets| + l.overwritten + l.cleared
  }

  lemma ReadyBalance(b: Buffer, s: u16, timestamp: u32, at: int)
    requires !IsLate(b, NumberFor(b, s))
    ensures var ready := Ready(b, s, timestamp, at);
            && ready.stats.received == b.stats.received + 1
            && ready.stats.lost == b.stats.lost && ready.stats.played == b.stats.played
            && |ready.packets| + ready.stats.dropped + (if IsRestart(b, NumberFor(b, s)) then |b.packets| else 0)
               == |b.packets| + b.stats.dropped
  {
    hide NextCycles, Extended;
    if b.packets.Keys != {} {
      RemovedSize(b.packets, Least(b.packets.Keys));
    }
  }

  lemma StepBalance(b: Buffer, l: Ledger, e: Event)
    requires Valid(b) && Balanced(b, l)
    ensures Balanced(Step(b, e), Entered(l, b, e))
  {
    hide NextCycles, Extended, Adapted, Ready;
    match e
    case Push(s, timestamp, payload, at) =>
      if !IsLate(b, NumberFor(b, s)) {
        ReadyBalance(b, s, timestamp, at);
        InsertedSize(Ready(b, s, timestamp, at).packets, NumberFor(b, s),
                     BufferedPacket(s, timestamp, payload, at, false));
      }
    case Pop(at, _) =>
      if Target(b, at).Some? {
        if Target(b, at).value in b.packets {
          RemovedSize(b.packets, Target(b, at).value);
        } else {
          assert b.packets - {Target(b, at).value} == b.packets;
        }
      }
    case Flush =>
    case Clear =>
  }

  /** Since the last reset, every packet received is dropped, played, still buffered, overwritten
      by a duplicate, or cleared by a restart or a flush; and by just one of these. */
  lemma {:induction false} Conservation(config: Config, events: seq<Event>, n: nat)
    requires ValidMode(config.mode) && n <= |events|
    ensures Balanced(After(New(config), events[..n]), LedgerOf(New(config), events[..n]))
  {
    hide Step, Entered;
    if n > 0 {
      assert events[..n][..n - 1] == events[..n - 1];
      Conservation(config, events, n - 1);
      ReachableIsValid(New(config), events, n - 1);
      StepBalance(After(New(config), events[..n - 1]), LedgerOf(New(config), events[..n - 1]), events[n - 1]);
    } else {
      assert events[..0] == [];
    }
  }

  // ----- Numbering

  /** The buffer's cycle counter and last sequence number are those of true index `last`. */
  ghost predicate InSync(b: Buffer, last: int) {
    0 <= last < TWO32 && b.baseTimestamp.Some? && b.lastSeq == Some(Seq(last)) && b.seqCycles == Cycle(last)
  }

  lemma GuessIsCycleStep(seqCycles: u16, last: u16, s: u16)
    ensures NextCycles(seqCycles, Some(last), s) == (seqCycles + CycleStep(last, s)) % TWO16
  {
  }

  /** In sync, a packet within 2^15 of the last gets its true index for a number. */
  lemma NumberIsTrue(b: Buffer, last: int, index: int)
    requires InSync(b, last) && 0 <= index < TWO32 && -HALF < index - last < HALF
    ensures NumberFor(b, Seq(index)) == index && NextCycles(b.seqCycles, b.lastSeq, Seq(index)) == Cycle(index)
  {
    NearestCycle(last, index);
    GuessIsCycleStep(b.seqCycles, Seq(last), Seq(index));
  }

  /** The cycle counter is all it takes: it gets its true number exactly when the counter is that of
      the last packet buffered. */
  lemma NumberIsTrueIff(b: Buffer, last: int, index: int)
    requires 0 <= last < TWO32 && b.baseTimestamp.Some? && b.lastSeq == Some(Seq(last))
    requires 0 <= index < TWO32 && -HALF < index - last < HALF
    ensures NumberFor(b, Seq(index)) == index <==> b.seqCycles == Cycle(last)
  {
    NearestCycle(last, index);
    GuessIsCycleStep(b.seqCycles, Seq(last), Seq(index));
    hide NextCycles;
    CycleOfNumber(b, Seq(index));
    SameCycles(b.seqCycles, Cycle(last), CycleStep(Seq(last), Seq(index)));
  }

  lemma CycleOfNumber(b: Buffer, s: u16)
    requires b.baseTimestamp.Some?
    ensures Cycle(NumberFor(b, s)) == NextCycles(b.seqCycles, b.lastSeq, s) && Seq(NumberFor(b, s)) == s
    ensures forall index: int :: 0 <= index < TWO32 && Seq(index) == s && Cycle(index) == Cycle(NumberFor(b, s)) ==>
              index == NumberFor(b, s)
  {
    hide NextCycles;
  }

  lemma SameCycles(c: u16, d: u16, step: int)
    requires -1 <= step <= 1 && 0 <= d + step < TWO16
    ensures (c + step) % TWO16 == d + step <==> c == d
  {
  }

  /** A buffered packet moves the sync point to itself. One dropped as late leaves it where it was
      exactly when it is of the same cycle: the cycle counter moves, the last number does not. */
  lemma SyncAfterPush(b: Buffer, last: int, index: int, timestamp: u32, payload: seq<byte>, at: int)
    requires InSync(b, last) && 0 <= index < TWO32 && -HALF < index - last < HALF
    ensures var (after, buffered) := Pushed(b, Seq(index), timestamp, payload, at);
            && (buffered ==> InSync(after, index))
            && (!buffered ==> (InSync(after, last) <==> Cycle(index) == Cycle(last)))
  {
    NumberIsTrue(b, last, index);
    hide NextCycles, Cycle, Seq;
  }

  /** The first packet of a stream, in cycle 0, sets the sync point. */
  lemma SyncAtFirst(b: Buffer, index: u16, timestamp: u32, payload: seq<byte>, at: int)
    requires b == New(b.config)
    ensures NumberFor(b, Seq(index)) == index
    ensures var (after, buffered) := Pushed(b, Seq(index), timestamp, payload, at);
            buffered && InSync(after, index)
  {
  }

  /** A push of the packet with a true index, or a pop. */
  datatype Arrival = Packet(index: u32, timestamp: u32, payload: seq<byte>, at: int) | Tick(at: int, wanted: u32)

  function EventOf(a: Arrival): Event {
    match a
    case Packet(index, timestamp, payload, at) => Push(Seq(index), timestamp, payload, at)
    case Tick(at, wanted) => Pop(at, wanted)
  }

  ghost function AfterArrivals(b: Buffer, arrivals: seq<Arrival>): (after: Buffer)
    requires ValidMode(b.config.mode)
    ensures after.config == b.config
  {
    if arrivals == [] then b
    else Step(AfterArrivals(b, arrivals[..|arrivals| - 1]), EventOf(arrivals[|arrivals| - 1]))
  }

  /** The true index of the last packet buffered. */
  ghost function LastBuffered(b: Buffer, arrivals: seq<Arrival>): Option<u32>
    requires ValidMode(b.config.mode)
  {
    if arrivals == [] then None
    else
      var n := |arrivals| - 1;
      var before := AfterArrivals(b, arrivals[..n]);
      if arrivals[n].Packet? && !IsLate(before, NumberFor(before, Seq(arrivals[n].index)))
      then Some(arrivals[n].index)
      else LastBuffered(b, arrivals[..n])
  }

  /** The first packet is of cycle 0, each later one within 2^15 of the last buffered. */
  ghost predicate CloseAt(b: Buffer, arrivals: seq<Arrival>, n: nat)
    requires ValidMode(b.config.mode) && n < |arrivals|
  {
    arrivals[n].Packet? ==>
      match LastBuffered(b, arrivals[..n])
      case None => arrivals[n].index < TWO16
      case Some(l) => -HALF < arrivals[n].index - l < HALF
  }

  /** The packet is dropped as late, and is of another cycle than the last buffered. */
  ghost predicate CrossesAt(b: Buffer, arrivals: seq<Arrival>, n: nat)
    requires ValidMode(b.config.mode) && n < |arrivals|
  {
    var before, last := AfterArrivals(b, arrivals[..n]), LastBuffered(b, arrivals[..n]);
    arrivals[n].Packet? && last.Some? && IsLate(before, NumberFor(before, Seq(arrivals[n].index)))
    && Cycle(arrivals[n].index) != Cycle(last.value)
  }

  /** The packet is filed under its true index. */
  ghost predicate RightAt(b: Buffer, arrivals: seq<Arrival>, n: nat)
    requires ValidMode(b.config.mode) && n < |arrivals|
  {
    arrivals[n].Packet? ==>
      NumberFor(AfterArrivals(b, arrivals[..n]), Seq(arrivals[n].index)) == arrivals[n].index
  }

  ghost predicate Close(b: Buffer, arrivals: seq<Arrival>)
    requires ValidMode(b.config.mode)
  {
    forall n :: 0 <= n < |arrivals| ==> CloseAt(b, arrivals, n)
  }

  ghost predicate NoneCrosses(b: Buffer, arrivals: seq<Arrival>, n: nat)
    requires ValidMode(b.config.mode) && n <= |arrivals|
  {
    forall m :: 0 <= m < n ==> !CrossesAt(b, arrivals, m)
  }

  ghost predicate Numbered(b: Buffer, last: Option<u32>) {
    match last
    case None => b == New(b.config)
    case Some(l) => InSync(b, l)
  }

  lemma TickKeepsSync(b: Buffer, last: Option<u32>, at: int, wanted: u32)
    requires ValidMode(b.config.mode) && Numbered(b, last)
    ensures Numbered(Popped(b, at, wanted).0, last)
  {
    hide Adapted;
  }

  lemma PushKeepsSync(b: Buffer, last: Option<u32>, index: u32, timestamp: u32, payload: seq<byte>, at: int)
    requires Numbered(b, last)
    requires match last
             case None => index < TWO16
             case Some(l) => -HALF < index - l < HALF
                             && (IsLate(b, NumberFor(b, Seq(index))) ==> Cycle(index) == Cycle(l))
    ensures NumberFor(b, Seq(index)) == index
    ensures Numbered(Pushed(b, Seq(index), timestamp, payload, at).0,
                     if IsLate(b, NumberFor(b, Seq(index))) then last else Some(index))
  {
    match last
    case None => SyncAtFirst(b, index, timestamp, payload, at);
    case Some(l) =>
      NumberIsTrue(b, l, index);
      SyncAfterPush(b, l, index, timestamp, payload, at);
      hide NextCycles, Cycle, Seq;
  }

  lemma {:induction false} StaysNumbered(config: Config, arrivals: seq<Arrival>, n: nat)
    requires ValidMode(config.mode) && Close(New(config), arrivals) && n <= |arrivals|
    requires NoneCrosses(New(config), arrivals, n)
    ensures Numbered(AfterArrivals(New(config), arrivals[..n]), LastBuffered(New(config), arrivals[..n]))
  {
    hide Numbered, Pushed, Popped, NumberFor, IsLate, Cycle, Seq;
    var b := New(config);
    if n > 0 {
      assert arrivals[..n][..n - 1] == arrivals[..n - 1];
      StaysNumbered(config, arrivals, n - 1);
      assert CloseAt(b, arrivals, n - 1) && !CrossesAt(b, arrivals, n - 1);
      var before, last := AfterArrivals(b, arrivals[..n - 1]), LastBuffered(b, arrivals[..n - 1]);
      match arrivals[n - 1]
      case Packet(index, timestamp, payload, at) => PushKeepsSync(before, last, index, timestamp, payload, at);
      case Tick(at, wanted) => TickKeepsSync(before, last, at, wanted);
    } else {
      assert arrivals[..0] == [];
      NumberedAtFirst(config);
    }
  }

  lemma NumberedAtFirst(config: Config)
    ensures Numbered(New(config), None)
  {
  }

  /** As long as no late drop crosses a cycle, every packet is filed under its true index, wrap after
      wrap. */
  lemma NumberingIsTrue(config: Config, arrivals: seq<Arrival>, n: nat)
    requires ValidMode(config.mode) && Close(New(config), arrivals)
    requires n < |arrivals| && NoneCrosses(New(config), arrivals, n)
    ensures RightAt(New(config), arrivals, n)
  {
    hide Numbered, Pushed, Popped, NumberFor, IsLate, Cycle, Seq, Step;
    var before, last := AfterArrivals(New(config), arrivals[..n]), LastBuffered(New(config), arrivals[..n]);
    StaysNumbered(config, arrivals, n);
    assert CloseAt(New(config), arrivals, n);
    if arrivals[n].Packet? {
      NumbersRight(before, last, arrivals[n].index);
    }
  }

  lemma NumbersRight(b: Buffer, last: Option<u32>, index: u32)
    requires Numbered(b, last)
    requires match last case None => index < TWO16 case Some(l) => -HALF < index - l < HALF
    ensures NumberFor(b, Seq(index)) == index
  {
    match last
    case None =>
    case Some(l) => NumberIsTrue(b, l, index);
  }

  /** The cycle counter is not that of the last packet buffered. */
  ghost predicate OutOfSync(b: Buffer, last: Option<u32>) {
    last.Some? && b.baseTimestamp.Some? && b.lastSeq == Some(Seq(last.value)) && b.seqCycles != Cycle(last.value)
  }

  lemma CrossingLosesSync(b: Buffer, last: u32, index: u32, timestamp: u32, payload: seq<byte>, at: int)
    requires InSync(b, last) && -HALF < index - last < HALF
    requires IsLate(b, NumberFor(b, Seq(index))) && Cycle(index) != Cycle(last)
    ensures OutOfSync(Pushed(b, Seq(index), timestamp, payload, at).0, Some(last))
  {
    NumberIsTrue(b, last, index);
    hide NextCycles, Cycle, Seq;
  }

  lemma TickKeepsOutOfSync(b: Buffer, last: Option<u32>, at: int, wanted: u32)
    requires ValidMode(b.config.mode) && OutOfSync(b, last)
    ensures OutOfSync(Popped(b, at, wanted).0, last)
  {
    hide Adapted, Cycle, Seq;
  }

  /** After the first crossing, and as long as only ticks follow. */
  lemma {:induction false} StaysOutOfSync(config: Config, arrivals: seq<Arrival>, m: nat, n: nat)
    requires ValidMode(config.mode) && Close(New(config), arrivals) && m < n <= |arrivals|
    requires NoneCrosses(New(config), arrivals, m) && CrossesAt(New(config), arrivals, m)
    requires forall k :: m < k < n ==> arrivals[k].Tick?
    ensures OutOfSync(AfterArrivals(New(config), arrivals[..n]), LastBuffered(New(config), arrivals[..n]))
    decreases n
  {
    hide Pushed, Popped, NumberFor, IsLate, Cycle, Seq, OutOfSync;
    var b, a := New(config), arrivals[n - 1];
    assert arrivals[..n][..n - 1] == arrivals[..n - 1];
    var before, last := AfterArrivals(b, arrivals[..n - 1]), LastBuffered(b, arrivals[..n - 1]);
    if n - 1 == m {
      StaysNumbered(config, arrivals, m);
      assert CloseAt(b, arrivals, m);
      CrossingLosesSync(before, last.value, a.index, a.timestamp, a.payload, a.at);
    } else {
      StaysOutOfSync(config, arrivals, m, n - 1);
      TickKeepsOutOfSync(before, last, a.at, a.wanted);
    }
  }

  /** The packet after a crossing is filed wrongly: some packet up to `n` is. */
  lemma {:induction false} CrossingMisnumbers(config: Config, arrivals: seq<Arrival>, m: nat, n: nat)
    requires ValidMode(config.mode) && Close(New(config), arrivals) && m < n < |arrivals|
    requires CrossesAt(New(config), arrivals, m) && arrivals[n].Packet?
    ensures exists k :: 0 <= k <= n && !RightAt(New(config), arrivals, k)
    decreases n, m
  {
    hide AfterArrivals, LastBuffered, NumberFor, IsLate, Cycle, Seq, CrossesAt;
    var b := New(config);
    if k :| 0 <= k < m && CrossesAt(b, arrivals, k) {
      CrossingMisnumbers(config, arrivals, k, n);
    } else if k :| m < k < n && arrivals[k].Packet? {
      CrossingMisnumbers(config, arrivals, m, k);
    } else {
      StaysOutOfSync(config, arrivals, m, n);
      assert CloseAt(b, arrivals, n);
      NumberIsTrueIff(AfterArrivals(b, arrivals[..n]), LastBuffered(b, arrivals[..n]).value, arrivals[n].index);
      assert !RightAt(b, arrivals, n);
    }
  }

  /** Every packet of a run is filed under its true index exactly when none comes after a late drop
      across a cycle. */
  lemma NumberingIff(config: Config, arrivals: seq<Arrival>)
    requires ValidMode(config.mode) && Close(New(config), arrivals)
    ensures (forall n :: 0 <= n < |arrivals| ==> RightAt(New(config), arrivals, n))
       <==> forall m, n :: 0 <= m < n < |arrivals| && arrivals[n].Packet? ==> !CrossesAt(New(config), arrivals, m)
  {
    hide RightAt, CrossesAt, Close;
    var b := New(config);
    if forall m, n :: 0 <= m < n < |arrivals| && arrivals[n].Packet? ==> !CrossesAt(b, arrivals, m) {
      forall n | 0 <= n < |arrivals| ensures RightAt(b, arrivals, n) {
        if arrivals[n].Packet? {
          NumberingIsTrue(config, arrivals, n);
        } else {
          TicksAreRight(b, arrivals, n);
        }
      }
    }
    forall m, n | 0 <= m < n < |arrivals| && arrivals[n].Packet? && CrossesAt(b, arrivals, m)
      ensures exists k :: 0 <= k < |arrivals| && !RightAt(b, arrivals, k)
    {
      CrossingMisnumbers(config, arrivals, m, n);
    }
  }

  lemma TicksAreRight(b: Buffer, arrivals: seq<Arrival>, n: nat)
    requires ValidMode(b.config.mode) && n < |arrivals| && arrivals[n].Tick?
    ensures RightAt(b, arrivals, n)
  {
  }

  /** What goes wrong otherwise: after numbers 0x1_0000 and 0x1_0002, of which the first has been
      played, a late duplicate of 0xFFFF is dropped but turns the cycle counter back. The next
      packet in turn, 0x1_0001, is then taken for a restarted sender, and the buffer is cleared. */
  lemma LateDropAcrossCyclesRestarts(b: Buffer, payload: seq<byte>, at: int)
    requires Valid(b) && b.config.maxPackets == 50
    requires InSync(b, 0x1_0002) && b.playoutSeq == Some(0x1_0001) && b.packets.Keys == {0x1_0002}
    ensures var (late, lateBuffered) := Pushed(b, Seq(0xFFFF), 0, payload, at);
            var next := Pushed(late, Seq(0x1_0001), 0, payload, at).0;
            !lateBuffered && next.playoutSeq == None && next.packets.Keys == {1}
  {
    var late := Pushed(b, Seq(0xFFFF), 0, payload, at).0;
    assert NumberFor(b, Seq(0xFFFF)) == 0xFFFF;
    assert NumberFor(late, Seq(0x1_0001)) == 1;
  }

  /** Or a cycle too high: when the last packet buffered is of the cycle before, a late one of the
      cycle under way turns the counter on, and the next in turn is filed 2^16 ahead of its place. */
  lemma LateDropAcrossCyclesRunsAhead(b: Buffer, payload: seq<byte>, at: int)
    requires Valid(b) && b.config.maxPackets == 50
    requires InSync(b, 0xFFFE) && b.playoutSeq == Some(0x1_0002)
    ensures var (late, lateBuffered) := Pushed(b, Seq(0x1_0000), 0, payload, at);
            !lateBuffered && NumberFor(late, Seq(0x1_0003)) == 0x2_0003
  {
    assert NumberFor(b, Seq(0x1_0000)) == 0x1_0000;
  }

  /** Such a buffer, from the start: 0xFFFF, 0x1_0000 and 0x1_0002 arrive and two are played. */
  ghost function TwoPlayed(config: Config, payload: seq<byte>): Buffer
    requires config.mode == Fixed(0)
  {
    var one := Step(Step(New(config), Push(0xFFFF, 0, payload, 0)), Pop(0, 0));
    Step(Step(Step(one, Push(0, 0, payload, 0)), Pop(0, 0)), Push(2, 0, payload, 0))
  }

  lemma LateDropIsReachable(config: Config, payload: seq<byte>)
    requires config.mode == Fixed(0) && config.maxPackets == 50
    ensures var b := TwoPlayed(config, payload);
            && Valid(b) && InSync(b, 0x1_0002) && b.playoutSeq == Some(0x1_0001) && b.packets.Keys == {0x1_0002}
  {
    hide Popped, Pushed;
    var b0 := New(config);
    NewIsValid(config);
    PlayedAtOnce(b0, 0xFFFF, 0xFFFF, payload);
    var b1 := Step(Step(b0, Push(0xFFFF, 0, payload, 0)), Pop(0, 0));
    PlayedAtOnce(b1, 0, 0x1_0000, payload);
    PushedAlone(Step(Step(b1, Push(0, 0, payload, 0)), Pop(0, 0)), payload);
  }

  /** And the other: 0xFFFD, 0x1_0001 and 0xFFFE arrive, and five pops play up to 0x1_0001. */
  ghost function ThreePushed(config: Config, payload: seq<byte>): Buffer
    requires config.mode == Fixed(0)
  {
    Step(Step(Step(New(config), Push(0xFFFD, 0, payload, 0)), Push(1, 0, payload, 0)), Push(0xFFFE, 0, payload, 0))
  }

  ghost function FivePlayed(config: Config, payload: seq<byte>): Buffer
    requires config.mode == Fixed(0)
  {
    var two := Step(Step(ThreePushed(config, payload), Pop(0, 0)), Pop(0, 0));
    Step(Step(Step(two, Pop(0, 0)), Pop(0, 0)), Pop(0, 0))
  }

  lemma RunningAheadIsReachable(config: Config, payload: seq<byte>)
    requires config.mode == Fixed(0) && config.maxPackets == 50
    ensures var b := FivePlayed(config, payload);
            Valid(b) && InSync(b, 0xFFFE) && b.playoutSeq == Some(0x1_0002)
  {
    hide Popped, Pushed, ThreePushed, Valid, Seq, Cycle;
    ThreeAreBuffered(config, payload);
    hide Step;
    var b0 := ThreePushed(config, payload);
    var b1 := Step(b0, Pop(0, 0));
    PopsFirst(b0, 0xFFFD);
    var b2 := Step(b1, Pop(0, 0));
    PopsInTurn(b1, 0xFFFE, 0xFFFE);
    var b3 := Step(b2, Pop(0, 0));
    PopsInTurn(b2, 0xFFFF, 0x1_0001);
    var b4 := Step(b3, Pop(0, 0));
    PopsInTurn(b3, 0x1_0000, 0x1_0001);
    PopsInTurn(b4, 0x1_0001, 0x1_0001);
  }

  lemma ThreeAreBuffered(config: Config, payload: seq<byte>)
    requires config.mode == Fixed(0) && config.maxPackets == 50
    ensures var b := ThreePushed(config, payload);
            Valid(b) && InSync(b, 0xFFFE) && Waiting(b, config, {0xFFFD, 0xFFFE, 0x1_0001})
  {
    var b0 := New(config);
    NewIsValid(config);
    SyncAtFirst(b0, 0xFFFD, 0, payload, 0);
    PushesInto(b0, config, {}, 0xFFFD, payload);
    var b1 := Step(b0, Push(0xFFFD, 0, payload, 0));
    NumberIsTrue(b1, 0xFFFD, 0x1_0001);
    PushesInto(b1, config, {0xFFFD}, 0x1_0001, payload);
    SyncAfterPush(b1, 0xFFFD, 0x1_0001, 0, payload, 0);
    var b2 := Step(b1, Push(1, 0, payload, 0));
    NumberIsTrue(b2, 0x1_0001, 0xFFFE);
    PushesInto(b2, config, {0xFFFD, 0x1_0001}, 0xFFFE, payload);
    SyncAfterPush(b2, 0x1_0001, 0xFFFE, 0, payload, 0);
    hide Valid, InSync, Pushed, Waiting, New, NumberFor;
    assert {} + {0xFFFD as u32} == {0xFFFD} && {0xFFFD, 0x1_0001 as u32} + {0xFFFE} == {0xFFFD, 0xFFFE, 0x1_0001};
  }

  /** Nothing has been played, and there is nothing to wait for. */
  ghost predicate Waiting(b: Buffer, config: Config, numbers: set<u32>) {
    && b.config == config && b.playoutSeq.None? && b.delayMs == 0 && b.packets.Keys == numbers
    && (b.baseTime.Some? ==> b.baseTime.value == 0)
  }

  lemma PushesInto(b: Buffer, config: Config, numbers: set<u32>, number: u32, payload: seq<byte>)
    requires Valid(b) && Waiting(b, config, numbers) && config.maxPackets == 50 && |numbers| < 50
    requires NumberFor(b, Seq(number)) == number
    ensures var (after, buffered) := Pushed(b, Seq(number), 0, payload, 0);
            && buffered && Valid(after) && Waiting(after, config, numbers + {number})
            && (b.baseTimestamp.None? || b.baseTime == Some(0))
  {
    PushKeepsValid(b, Seq(number), 0, payload, 0);
    hide NextCycles, NumberFor, Seq;
    assert |b.packets| == |numbers|;
  }

  /** The first pop. */
  lemma PopsFirst(b: Buffer, number: u32)
    requires Valid(b) && Waiting(b, b.config, b.packets.Keys) && b.config.mode == Fixed(0)
    requires number in b.packets && number + 1 < TWO32 && forall k :: k in b.packets ==> number <= k
    ensures PlaysJust(b, Step(b, Pop(0, 0)), number)
  {
    PopKeepsValid(b, 0, 0);
    hide Valid;
    assert Target(b, 0) == Some(number);
  }

  /** Its number is gone and playout past it; nothing else has moved. */
  ghost predicate PlaysJust(b: Buffer, after: Buffer, number: u32) {
    && number + 1 < TWO32 && Valid(after) && after.config == b.config && after.packets.Keys == b.packets.Keys - {number}
    && after.playoutSeq == Some(number + 1)
    && after.seqCycles == b.seqCycles && after.lastSeq == b.lastSeq && after.baseTimestamp == b.baseTimestamp
  }

  /** A later one, whether its number is there or not. */
  lemma PopsInTurn(b: Buffer, number: u32, next: u32)
    requires Valid(b) && b.config.mode == Fixed(0) && b.config.maxPackets == 50 && b.playoutSeq == Some(number)
    requires next in b.packets && number <= next <= number + 50 && (forall k :: k in b.packets ==> next <= k)
    requires number + 1 < TWO32
    ensures PlaysJust(b, Step(b, Pop(0, 0)), number)
  {
    hide Valid, Target, Adapted, Least, From, Discontinuity;
    PopKeepsValid(b, 0, 0);
    TargetInTurn(b, number, next);
  }

  lemma TargetInTurn(b: Buffer, number: u32, next: u32)
    requires b.config.maxPackets == 50 && b.playoutSeq == Some(number)
    requires next in b.packets && number <= next <= number + 50 && (forall k :: k in b.packets ==> next <= k)
    ensures Target(b, 0) == Some(number)
  {
    assert From(b.packets.Keys, number) == b.packets.Keys;
    assert Least(b.packets.Keys) == next;
  }

  lemma PushedAlone(b: Buffer, payload: seq<byte>)
    requires Valid(b) && b.packets == map[] && b.config.maxPackets == 50 && b.baseTimestamp.Some?
    requires b.seqCycles == 1 && b.lastSeq == Some(0) && b.playoutSeq == Some(0x1_0001)
    ensures var after := Step(b, Push(2, 0, payload, 0));
            && Valid(after) && InSync(after, 0x1_0002) && after.playoutSeq == Some(0x1_0001)
            && after.packets.Keys == {0x1_0002}
  {
    PushKeepsValid(b, 2, 0, payload, 0);
    hide Jitter.Valid;
  }

  /** A packet that arrives in turn at an empty buffer without delay, and is played at once. */
  lemma PlayedAtOnce(b: Buffer, s: u16, number: u32, payload: seq<byte>)
    requires Valid(b) && b.packets == map[] && b.delayMs == 0 && b.config.maxPackets == 50 && b.config.mode.Fixed?
    requires b.baseTime.Some? ==> b.baseTime.value == 0
    requires NumberFor(b, s) == number && (b.playoutSeq.Some? ==> b.playoutSeq.value == number) && number + 1 < TWO32
    ensures var pushed := Step(b, Push(s, 0, payload, 0));
            var after := Step(pushed, Pop(0, 0));
            && Valid(after) && after.config == b.config && after.packets == map[] && after.delayMs == 0
            && after.playoutSeq == Some(number + 1) && after.lastSeq == Some(s) && after.baseTime == Some(0)
            && after.seqCycles == NextCycles(b.seqCycles, if b.baseTimestamp.None? then Some(s) else b.lastSeq, s)
            && after.baseTimestamp.Some?
  {
    hide Extended, NextCycles, Popped;
    PushKeepsValid(b, s, 0, payload, 0);
    var pushed := Step(b, Push(s, 0, payload, 0));
    assert pushed.packets.Keys == {number};
    hide Jitter.Valid;
    PlayedAlone(pushed, number);
  }

  lemma PlayedAlone(b: Buffer, number: u32)
    requires Valid(b) && b.packets.Keys == {number} && b.config.mode.Fixed? && b.delayMs == 0 && b.baseTime == Some(0)
    requires (b.playoutSeq.Some? ==> b.playoutSeq.value == number) && number + 1 < TWO32
    ensures var after := Popped(b, 0, 0).0;
            && Valid(after) && after.packets == map[] && after.delayMs == 0 && after.playoutSeq == Some(number + 1)
            && after == b.(packets := map[], playoutSeq := after.playoutSeq, playing := after.playing, stats := after.stats)
  {
    PopKeepsValid(b, 0, 0);
    hide Jitter.Valid;
    assert Target(b, 0) == Some(number);
  }

  // ----- Draining

  /** One pop's outcome: the number, and the packet unless it was synthesized. */
  datatype Play = Play(number: int, packet: Option<BufferedPacket>)

  function Losses(lo: int, hi: int): seq<Play>
    requires lo <= hi
    decreases hi - lo
  {
    if lo == hi then [] else [Play(lo, None)] + Losses(lo + 1, hi)
  }

  lemma {:induction false} LossesSize(lo: int, hi: int)
    requires lo <= hi
    ensures |Losses(lo, hi)| == hi - lo
    ensures forall i :: 0 <= i < hi - lo ==> Losses(lo, hi)[i] == Play(lo + i, None)
    decreases hi - lo
  {
    if lo < hi { LossesSize(lo + 1, hi); }
  }

  /** The losses played before packet `k`, when at position `at`: one for each number missing,
      or none at all when more are missing than `discontinuity`. */
  function GapBefore(at: int, k: int, discontinuity: nat): (gap: seq<Play>)
    requires at <= k
    ensures |gap| <= discontinuity
    ensures forall i :: 0 <= i < |gap| ==> gap[i] == Play(at + i, None) && at + i < k
  {
    LossesSize(at, k);
    if k - at > discontinuity then [] else Losses(at, k)
  }

  /** What should come out of `packets` from position `at` on, with no more pushes: in ascending
      order, every packet after the gap before it. */
  ghost function Drain(packets: map<u32, BufferedPacket>, at: int, discontinuity: nat): seq<Play>
    requires forall k :: k in packets ==> at <= k
    decreases |packets|
  {
    if packets.Keys == {} then []
    else
      var k := Least(packets.Keys);
      assert k in packets;
      RemovedSize(packets, k);
      GapBefore(at, k, discontinuity) + [Play(k, Some(packets[k]))] + Drain(packets - {k}, k as int + 1, discontinuity)
  }

  ghost function Remaining(b: Buffer): seq<Play>
    requires Valid(b) && b.playoutSeq.Some?
  {
    Drain(b.packets, b.playoutSeq.value, Discontinuity(b.config))
  }

  /** What a pop played. */
  ghost function PopPlay(b: Buffer, at: int, wanted: u32): Option<Play>
    requires ValidMode(b.config.mode)
  {
    match Popped(b, at, wanted).1
    case None => None
    case Some(packet) => Some(Play(Target(b, at).value, if packet.synthesized then None else Some(packet)))
  }

  lemma DrainOfNothing(packets: map<u32, BufferedPacket>, at: int, d: nat)
    requires packets.Keys == {}
    ensures Drain(packets, at, d) == [] && Faithful([], packets)
  {
  }

  lemma DrainUnfolds(packets: map<u32, BufferedPacket>, at: int, d: nat)
    requires packets.Keys != {} && forall k :: k in packets ==> at <= k
    ensures var k := Least(packets.Keys);
            && k in packets && at <= k && (forall j :: j in packets ==> k <= j)
            && |packets - {k}| < |packets|
            && Drain(packets, at, d)
               == GapBefore(at, k, d) + ([Play(k, Some(packets[k]))] + Drain(packets - {k}, k as int + 1, d))
  {
    hide GapBefore;
    var k := Least(packets.Keys);
    assert k in packets;
    RemovedSize(packets, k);
    var tail := [Play(k, Some(packets[k]))] + Drain(packets - {k}, k as int + 1, d);
    assert Drain(packets, at, d) == GapBefore(at, k, d) + tail;
  }

  /** The first thing to come out, and what comes after it. */
  lemma DrainHead(packets: map<u32, BufferedPacket>, at: int, d: nat)
    requires packets.Keys != {} && forall k :: k in packets ==> at <= k
    ensures var k, all := Least(packets.Keys), Drain(packets, at, d);
            && all != [] && k in packets
            && (if k == at || k - at > d
                then all[0] == Play(k, Some(packets[k])) && all[1..] == Drain(packets - {k}, k as int + 1, d)
                else (forall j :: j in packets ==> at + 1 <= j)
                     && all[0] == Play(at, None) && all[1..] == Drain(packets, at + 1, d))
  {
    hide Drain, GapBefore, Least;
    var k := Least(packets.Keys);
    DrainUnfolds(packets, at, d);
    GapHead(at, k, d);
    if k != at && k - at <= d {
      DrainUnfolds(packets, at + 1, d);
    }
  }

  lemma GapHead(at: int, k: int, d: nat)
    requires at <= k
    ensures if k == at || k - at > d then GapBefore(at, k, d) == []
            else GapBefore(at, k, d) == [Play(at, None)] + GapBefore(at + 1, k, d)
  {
  }

  /** Which number a pop plays once playing, in terms of the least buffered. */
  lemma TargetOncePlaying(b: Buffer, at: int)
    requires Valid(b) && b.playoutSeq.Some?
    ensures var p := b.playoutSeq.value;
            Target(b, at) == if b.packets.Keys == {} then None
                             else var k := Least(b.packets.Keys);
                                  Some(if k == p || k - p > Discontinuity(b.config) then k else p)
    ensures b.packets.Keys != {} ==> (b.playoutSeq.value in b.packets <==> Least(b.packets.Keys) == b.playoutSeq.value)
  {
    hide Discontinuity;
    assert From(b.packets.Keys, b.playoutSeq.value) == b.packets.Keys;
  }

  /** Once playing, a pop plays the first of what remains, and leaves the rest. */
  lemma PopPlaysNext(b: Buffer, at: int, wanted: u32)
    requires Valid(b) && b.playoutSeq.Some?
    ensures var after, all := Popped(b, at, wanted).0, Remaining(b);
            && Valid(after) && after.playoutSeq.Some?
            && PopPlay(b, at, wanted) == (if all == [] then None else Some(all[0]))
            && Remaining(after) == (if all == [] then [] else all[1..])
  {
    hide Adapted, Capacity, Target, Discontinuity, Least, Drain;
    PopKeepsValid(b, at, wanted);
    TargetOncePlaying(b, at);
    if b.packets.Keys == {} {
      DrainOfNothing(b.packets, b.playoutSeq.value, Discontinuity(b.config));
    } else {
      var p, d := b.playoutSeq.value, Discontinuity(b.config);
      var k := Least(b.packets.Keys);
      DrainHead(b.packets, p, d);
      if k != p && k - p <= d {
        assert b.packets - {p} == b.packets;
      }
      RestAfter(Popped(b, at, wanted).0, Target(b, at).value);
    }
  }

  /** The playout position may wrap to 0, but only when nothing is left to play. */
  lemma RestAfter(after: Buffer, number: u32)
    requires Valid(after) && after.playoutSeq == Some((number + 1) % TWO32)
    requires forall k :: k in after.packets ==> number + 1 <= k
    ensures Remaining(after) == Drain(after.packets, number + 1, Discontinuity(after.config))
  {
    hide Drain, Discontinuity;
    if number + 1 == TWO32 {
      assert after.packets.Keys == {};
      DrainOfNothing(after.packets, 0, Discontinuity(after.config));
      DrainOfNothing(after.packets, TWO32, Discontinuity(after.config));
    }
  }

  ghost predicate AllPops(events: seq<Event>) {
    forall e :: e in events ==> e.Pop?
  }

  /** Draining: once playout has started, pops with no pushes between, at whatever times, play
      exactly what `Drain` says, and after that nothing. */
  lemma {:induction false} DrainingIsComplete(b: Buffer, events: seq<Event>, n: nat)
    requires Valid(b) && b.playoutSeq.Some? && AllPops(events) && n <= |events|
    ensures var after, all := After(b, events[..n]), Remaining(b);
            && Valid(after) && after.playoutSeq.Some?
            && Remaining(after) == (if n < |all| then all[n..] else [])
            && (n < |events| ==>
                  PopPlay(after, events[n].at, events[n].wanted) == if n < |all| then Some(all[n]) else None)
  {
    hide Popped, Drain;
    if n > 0 {
      assert events[..n][..n - 1] == events[..n - 1];
      DrainingIsComplete(b, events, n - 1);
      assert events[n - 1] in events;
      PopPlaysNext(After(b, events[..n - 1]), events[n - 1].at, events[n - 1].wanted);
    } else {
      assert events[..0] == [];
    }
    if n < |events| {
      assert events[n] in events;
      PopPlaysNext(After(b, events[..n]), events[n].at, events[n].wanted);
    }
  }

  // What `Drain` says, in other words.

  /** Draining takes at most `discontinuity` losses and one packet for each packet buffered. */
  lemma {:induction false} DrainSize(packets: map<u32, BufferedPacket>, at: int, d: nat)
    requires forall k :: k in packets ==> at <= k
    ensures |Drain(packets, at, d)| <= |packets| * (d + 1)
    decreases |packets|
  {
    hide GapBefore;
    if packets.Keys != {} {
      var k := Least(packets.Keys);
      assert k in packets;
      RemovedSize(packets, k);
      DrainSize(packets - {k}, k as int + 1, d);
      OneMoreTimes(|packets|, d);
    }
  }

  lemma OneMoreTimes(n: nat, d: nat)
    requires n > 0
    ensures n * (d + 1) == (n - 1) * (d + 1) + (d + 1)
  {
  }

  /** The plays ascend, from `at` on. */
  ghost predicate Ascends(all: seq<Play>, at: int) {
    && (forall i :: 0 <= i < |all| ==> at <= all[i].number)
    && (forall i, j :: 0 <= i < j < |all| ==> all[i].number < all[j].number)
  }

  /** Every packet buffered comes out, as itself, under its own number; nothing else comes out as a
      packet, and no packet buffered is given up for lost. */
  ghost predicate Faithful(all: seq<Play>, packets: map<u32, BufferedPacket>) {
    && (forall k :: k in packets ==> Play(k, Some(packets[k])) in all)
    && (forall i :: 0 <= i < |all| ==>
          if all[i].packet.Some? then all[i].number in packets && all[i].packet.value == packets[all[i].number]
          else all[i].number !in packets)
  }

  lemma {:induction false} DrainAscends(packets: map<u32, BufferedPacket>, at: int, d: nat)
    requires forall k :: k in packets ==> at <= k
    ensures Ascends(Drain(packets, at, d), at)
    decreases |packets|
  {
    hide GapBefore;
    if packets.Keys != {} {
      var k := Least(packets.Keys);
      assert k in packets;
      RemovedSize(packets, k);
      DrainAscends(packets - {k}, k as int + 1, d);
    }
  }

  lemma {:induction false} DrainIsFaithful(packets: map<u32, BufferedPacket>, at: int, d: nat)
    requires forall k :: k in packets ==> at <= k
    ensures Faithful(Drain(packets, at, d), packets)
    decreases |packets|
  {
    hide Faithful, Ascends, GapBefore, Drain, Least;
    if packets.Keys == {} {
      DrainOfNothing(packets, at, d);
    } else {
      var k := Least(packets.Keys);
      DrainUnfolds(packets, at, d);
      var rest := Drain(packets - {k}, k as int + 1, d);
      DrainIsFaithful(packets - {k}, k as int + 1, d);
      DrainAscends(packets - {k}, k as int + 1, d);
      FaithfulStep(packets, GapBefore(at, k, d), k, rest, Drain(packets, at, d));
    }
  }

  lemma FaithfulStep(packets: map<u32, BufferedPacket>, gap: seq<Play>, k: u32, rest: seq<Play>, all: seq<Play>)
    requires k in packets && all == gap + ([Play(k, Some(packets[k]))] + rest)
    requires forall j :: j in packets ==> k <= j
    requires forall i :: 0 <= i < |gap| ==> gap[i].packet.None? && gap[i].number < k
    requires Faithful(rest, packets - {k}) && Ascends(rest, k + 1)
    ensures Faithful(all, packets)
  {
    assert all[|gap|] == Play(k, Some(packets[k]));
    forall j | j in packets ensures Play(j, Some(packets[j])) in all {
      if j != k { assert j in packets - {k} && Play(j, Some(packets[j])) in rest; }
    }
  }

  /** Never more than `discontinuity` losses in a row. */
  lemma {:induction false} LossRunsAreShort(packets: map<u32, BufferedPacket>, at: int, d: nat, i: nat, m: nat)
    requires forall k :: k in packets ==> at <= k
    requires var all := Drain(packets, at, d);
             i + m <= |all| && forall j :: i <= j < i + m ==> all[j].packet.None?
    ensures m <= d
    decreases |packets|
  {
    hide GapBefore;
    if packets.Keys != {} {
      var k := Least(packets.Keys);
      assert k in packets;
      RemovedSize(packets, k);
      var gap, rest := GapBefore(at, k, d), Drain(packets - {k}, k as int + 1, d);
      var all := gap + [Play(k, Some(packets[k]))] + rest;
      assert all[|gap|].packet.Some?;
      if i > |gap| {
        forall j | i - |gap| - 1 <= j < i - |gap| - 1 + m ensures rest[j].packet.None? {
          assert rest[j] == all[j + |gap| + 1];
        }
        LossRunsAreShort(packets - {k}, k as int + 1, d, i - |gap| - 1, m);
      }
    }
  }

  // Between pushes too, as long as nothing is thrown away.

  /** The step is a pop, or a push that neither evicts nor restarts. */
  ghost predicate Gentle(b: Buffer, e: Event) {
    e.Pop? || (e.Push? && !IsRestart(b, NumberFor(b, e.s)) && |b.packets| < b.config.maxPackets)
  }

  /** In `events[from..to]`: gentle steps, and every pop that plays conceals a loss. */
  ghost predicate OnlyLosses(b: Buffer, events: seq<Event>, from: nat, to: nat)
    requires ValidMode(b.config.mode) && to <= |events|
  {
    forall n :: from <= n < to ==>
      && Gentle(After(b, events[..n]), events[n])
      && (PlayedAt(b, events, n).Some? ==> PlayedAt(b, events, n).value !in After(b, events[..n]).packets)
  }

  /** How many pops of `events[i..j]` play. */
  ghost function PlaysIn(b: Buffer, events: seq<Event>, i: nat, j: nat): nat
    requires ValidMode(b.config.mode) && i <= j <= |events|
    decreases j
  {
    if i == j then 0
    else PlaysIn(b, events, i, j - 1) + if PlayedAt(b, events, j - 1).Some? then 1 else 0
  }

  /** A packet is at most `d` numbers ahead of playout. */
  ghost predicate HasWithin(b: Buffer, d: int) {
    b.playoutSeq.Some? && exists k :: k in b.packets && b.playoutSeq.value <= k <= b.playoutSeq.value + d
  }

  /** A gentle push throws nothing away and leaves playout where it is. */
  lemma GentlePushKeeps(b: Buffer, e: Event, d: int)
    requires Valid(b) && e.Push? && Gentle(b, e) && HasWithin(b, d)
    ensures HasWithin(Step(b, e), d)
  {
    hide NextCycles, Extended, Least;
    var k :| k in b.packets && b.playoutSeq.value <= k <= b.playoutSeq.value + d;
    assert k in Step(b, e).packets;
  }

  /** Concealing moves playout one nearer to the packet it knows of, and never past. */
  lemma ConcealingNears(b: Buffer, e: Event, d: int)
    requires Valid(b) && e.Pop? && Plays(b, e).Some? && Plays(b, e).value !in b.packets
    requires HasWithin(b, d)
    ensures d > 0 && HasWithin(Step(b, e), d - 1)
  {
    hide Adapted;
    var k :| k in b.packets && b.playoutSeq.value <= k <= b.playoutSeq.value + d;
    assert k in From(b.packets.Keys, b.playoutSeq.value);
    assert k in Step(b, e).packets && b.playoutSeq.value < k;
  }

  /** It conceals only when there is a packet within `discontinuity`. */
  lemma ConcealsTowards(b: Buffer, e: Event)
    requires Valid(b) && e.Pop? && Plays(b, e).Some? && Plays(b, e).value !in b.packets
    ensures HasWithin(b, Discontinuity(b.config))
  {
    hide Discontinuity;
    var at := b.playoutSeq.value;
    var next := Least(From(b.packets.Keys, at));
    assert next in b.packets && at <= next <= at + Discontinuity(b.config);
  }

  /** Between evictions and restarts, whatever else is pushed, never more than `discontinuity` pops in
      a row conceal. */
  lemma {:induction false} LossRunsStayShort(b: Buffer, events: seq<Event>, i: nat, j: nat)
    requires Valid(b) && i <= j <= |events| && OnlyLosses(b, events, i, j)
    ensures PlaysIn(b, events, i, j) <= Discontinuity(b.config)
    ensures PlaysIn(b, events, i, j) > 0 ==>
              HasWithin(After(b, events[..j]), Discontinuity(b.config) - PlaysIn(b, events, i, j))
    decreases j
  {
    hide Step, Plays, Gentle, HasWithin, Discontinuity;
    if i < j {
      var n := j - 1;
      LossRunsStayShort(b, events, i, n);
      assert events[..j][..n] == events[..n];
      ReachableIsValid(b, events, n);
      var before, e, c := After(b, events[..n]), events[n], PlaysIn(b, events, i, n);
      OneGentleStep(before, e, Discontinuity(b.config) - c, c);
    }
  }

  lemma OneGentleStep(b: Buffer, e: Event, d: int, c: nat)
    requires Valid(b) && Gentle(b, e) && d + c == Discontinuity(b.config) && d >= 0
    requires Plays(b, e).Some? ==> Plays(b, e).value !in b.packets
    requires c > 0 ==> HasWithin(b, d)
    ensures if Plays(b, e).Some? then d > 0 && HasWithin(Step(b, e), d - 1)
            else c > 0 ==> HasWithin(Step(b, e), d)
  {
    hide HasWithin, Jitter.Valid, Discontinuity, Gentle, Pushed;
    if Plays(b, e).Some? {
      if c == 0 { ConcealsTowards(b, e); }
      ConcealingNears(b, e, d);
    } else if c > 0 && e.Push? {
      GentlePushKeeps(b, e, d);
    } else {
      GentleIsPushOrPop(b, e);
    }
  }

  lemma GentleIsPushOrPop(b: Buffer, e: Event)
    requires Gentle(b, e)
    ensures e.Push? || e.Pop?
  {
  }

  // ----- Where a packet played comes from

  /** A push under number `k`, late or not. */
  ghost predicate PushesUnder(b: Buffer, events: seq<Event>, m: nat, k: u32)
    requires ValidMode(b.config.mode) && m < |events|
  {
    events[m].Push? && NumberFor(After(b, events[..m]), events[m].s) == k
  }

  function PacketIn(e: Event): BufferedPacket
    requires e.Push?
  {
    BufferedPacket(e.s, e.timestamp, e.payload, e.at, false)
  }

  /** The packet is the one pushed at `m`, and none was pushed under its number from then to `n`. */
  ghost predicate LastPushed(b: Buffer, events: seq<Event>, m: nat, n: nat, k: u32, packet: BufferedPacket)
    requires ValidMode(b.config.mode) && m < n <= |events|
  {
    && PushesUnder(b, events, m, k) && packet == PacketIn(events[m])
    && forall i :: m < i < n ==> !PushesUnder(b, events, i, k)
  }

  ghost predicate CameFrom(b: Buffer, events: seq<Event>, n: nat, k: u32, packet: BufferedPacket)
    requires ValidMode(b.config.mode) && n <= |events|
  {
    exists m :: 0 <= m < n && LastPushed(b, events, m, n, k, packet)
  }

  /** A step files at most the packet it pushes; whatever else is buffered after it was before. */
  lemma StepFiles(b: Buffer, e: Event, k: u32)
    requires Valid(b) && k in Step(b, e).packets
    ensures if e.Push? && NumberFor(b, e.s) == k then Step(b, e).packets[k] == PacketIn(e)
            else k in b.packets && b.packets[k] == Step(b, e).packets[k]
  {
    hide NextCycles, Extended, Adapted, Target, Least;
  }

  /** Everything buffered is the last packet pushed under its number. */
  lemma {:induction false} BufferedCameFrom(config: Config, events: seq<Event>, n: nat, k: u32)
    requires ValidMode(config.mode) && n <= |events| && k in After(New(config), events[..n]).packets
    ensures CameFrom(New(config), events, n, k, After(New(config), events[..n]).packets[k])
  {
    NewIsValid(config);
    hide Step, Valid, NumberFor, PacketIn, New, CameFrom;
    var b := New(config);
    if n == 0 {
      NothingBuffered(config, events);
    } else {
      var m := n - 1;
      assert events[..n][..m] == events[..m];
      ReachableIsValid(b, events, m);
      StepFiles(After(b, events[..m]), events[m], k);
      if !PushesUnder(b, events, m, k) { BufferedCameFrom(config, events, m, k); }
      OneMoreFiled(b, events, m, k, After(b, events[..n]).packets[k]);
    }
  }

  lemma OneMoreFiled(b: Buffer, events: seq<Event>, m: nat, k: u32, packet: BufferedPacket)
    requires ValidMode(b.config.mode) && m < |events|
    requires if PushesUnder(b, events, m, k) then packet == PacketIn(events[m]) else CameFrom(b, events, m, k, packet)
    ensures CameFrom(b, events, m + 1, k, packet)
  {
    hide NumberFor, After, PacketIn;
    if PushesUnder(b, events, m, k) {
      assert LastPushed(b, events, m, m + 1, k, packet);
    } else {
      var i :| 0 <= i < m && LastPushed(b, events, i, m, k, packet);
      assert LastPushed(b, events, i, m + 1, k, packet);
    }
  }

  lemma NothingBuffered(config: Config, events: seq<Event>)
    requires ValidMode(config.mode)
    ensures After(New(config), events[..0]).packets == map[]
  {
  }

  /** Over any run, restarts and flushes included, a packet that a pop plays and that is no stand-in is the
      last one pushed under that number before. */
  lemma PlayedCameFrom(config: Config, events: seq<Event>, n: nat)
    requires ValidMode(config.mode) && n < |events| && events[n].Pop?
    ensures var b := After(New(config), events[..n]);
            var play := PopPlay(b, events[n].at, events[n].wanted);
            play.Some? && play.value.packet.Some? ==>
              0 <= play.value.number < TWO32 && CameFrom(New(config), events, n, play.value.number, play.value.packet.value)
  {
    hide CameFrom, After, Least, Adapted;
    var b := After(New(config), events[..n]);
    var play := PopPlay(b, events[n].at, events[n].wanted);
    if play.Some? && play.value.packet.Some? {
      BufferedCameFrom(config, events, n, play.value.number);
    }
  }

  /** What can be peeked at is what the next pop will play, at any time; and of what the next pop
      plays in its turn, all but a stand-in can be peeked at. */
  lemma PeekIsNextPop(b: Buffer, at: int, wanted: u32)
    requires Valid(b)
    ensures PeekNext(b).Some? ==> Popped(b, at, wanted).1 == PeekNext(b)
    ensures b.playoutSeq.Some? && Target(b, at) == b.playoutSeq && !Popped(b, at, wanted).1.value.synthesized ==>
              PeekNext(b) == Popped(b, at, wanted).1
  {
  }

  /** A push into a full buffer drops its smallest number, and no other. */
  lemma PushDropsOldest(b: Buffer, e: Event, k: u32)
    requires Valid(b) && e.Push? && !IsLate(b, NumberFor(b, e.s)) && !Restarts(b, e)
    requires k in b.packets && k != NumberFor(b, e.s)
    ensures k in Step(b, e).packets <==>
              |b.packets| < b.config.maxPackets || exists j :: j in b.packets && j < k
    ensures Step(b, e).stats.dropped == b.stats.dropped + if |b.packets| < b.config.maxPackets then 0 else 1
  {
    hide NextCycles, Extended;
  }

  // ----- Adaptive delay

  function Gap(x: int, y: int): nat {
    if x < y then y - x else x - y
  }

  /** After a pop in adaptive mode the delay is within its bounds, and is the target or strictly
      nearer to it than before, without passing it. */
  lemma DelayApproaches(mode: Mode, delay: u32, wanted: u32)
    requires ValidMode(mode) && mode.Adaptive?
    ensures var target, next := ClampMs(wanted, mode.minMs, mode.maxMs), Adapted(mode, delay, wanted);
            && mode.minMs <= next <= mode.maxMs
            && (delay == target ==> next == target)
            && (delay != target ==> Gap(next, target) < Gap(delay, target))
            && (delay <= target ==> next <= target) && (delay >= target ==> next >= target)
  {
  }

  /** It goes up by a quarter of the way and down by an eighth, rounded down but a millisecond at least. */
  lemma DelaySteps(mode: Mode, delay: u32, wanted: u32)
    requires ValidMode(mode) && mode.Adaptive? && mode.minMs <= delay <= mode.maxMs
    ensures var target, next := ClampMs(wanted, mode.minMs, mode.maxMs), Adapted(mode, delay, wanted);
            var up, down := next - delay, delay - next;
            && (target >= delay + 4 ==> 4 * up <= target - delay < 4 * up + 4)
            && (delay < target < delay + 4 ==> up == 1)
            && (target + 8 <= delay ==> 8 * down <= delay - target < 8 * down + 8)
            && (target < delay < target + 8 ==> down == 1)
  {
  }

  function DelayAfter(mode: Mode, delay: u32, wanted: u32, pops: nat): u32
    requires ValidMode(mode)
  {
    if pops == 0 then delay else Adapted(mode, DelayAfter(mode, delay, wanted, pops - 1), wanted)
  }

  /** A steady target is reached in at most as many pops as it is milliseconds away, and held. */
  lemma {:induction false} DelayConverges(mode: Mode, delay: u32, wanted: u32, pops: nat)
    requires ValidMode(mode) && mode.Adaptive?
    ensures var target := ClampMs(wanted, mode.minMs, mode.maxMs);
            var now := DelayAfter(mode, delay, wanted, pops);
            && (pops < Gap(delay, target) ==> Gap(now, target) <= Gap(delay, target) - pops)
            && (pops >= Gap(delay, target) ==> now == target)
  {
    if pops > 0 {
      DelayConverges(mode, delay, wanted, pops - 1);
      DelayApproaches(mode, DelayAfter(mode, delay, wanted, pops - 1), wanted);
      hide Adapted;
    }
  }

  /** The steps between are no resets, and call for the same delay throughout. */
  ghost predicate Steady(events: seq<Event>, wanted: u32) {
    forall e :: e in events ==> !e.Clear? && (e.Pop? ==> e.wanted == wanted)
  }

  /** A pop that plays adapts the delay; nothing else but a reset touches it. */
  lemma StepDelay(b: Buffer, e: Event)
    requires Valid(b) && !e.Clear?
    ensures Step(b, e).delayMs == if Plays(b, e).Some? then Adapted(b.config.mode, b.delayMs, e.wanted) else b.delayMs
  {
    hide Adapted, NextCycles, Extended, Least;
  }

  /** After any pop that plays the delay is within its bounds, whatever the targets, and stays there. */
  lemma {:induction false} DelayStaysInBounds(b: Buffer, events: seq<Event>, i: nat, j: nat)
    requires Valid(b) && b.config.mode.Adaptive? && i < j <= |events| && PlayedAt(b, events, i).Some?
    requires forall n :: i <= n < j ==> !events[n].Clear?
    ensures b.config.mode.minMs <= After(b, events[..j]).delayMs <= b.config.mode.maxMs
    decreases j
  {
    hide Step, Plays, Jitter.Valid;
    var n := j - 1;
    assert events[..j][..n] == events[..n];
    ReachableIsValid(b, events, n);
    ModeIsValid(b);
    var before := After(b, events[..n]);
    StepDelay(before, events[n]);
    if PlayedAt(b, events, n).Some? {
      PlaysOnlyPops(before, events[n]);
      DelayApproaches(b.config.mode, before.delayMs, events[n].wanted);
    } else {
      DelayStaysInBounds(b, events, i, n);
    }
  }

  lemma PlaysOnlyPops(b: Buffer, e: Event)
    ensures Plays(b, e).Some? ==> e.Pop?
  {
  }

  lemma ModeIsValid(b: Buffer)
    requires Valid(b)
    ensures ValidMode(b.config.mode)
  {
  }

  /** Over any steady run the delay is where as many pops as have played take it: at the target after
      at most as many as it was milliseconds away, and a millisecond nearer with each before that. */
  lemma {:induction false} DelaySettles(b: Buffer, events: seq<Event>, wanted: u32, n: nat)
    requires Valid(b) && b.config.mode.Adaptive? && Steady(events, wanted) && n <= |events|
    ensures ValidMode(b.config.mode)
    ensures var target := ClampMs(wanted, b.config.mode.minMs, b.config.mode.maxMs);
            var delay, pops := After(b, events[..n]).delayMs, PlaysIn(b, events, 0, n);
            && (pops < Gap(b.delayMs, target) ==> Gap(delay, target) <= Gap(b.delayMs, target) - pops)
            && (pops >= Gap(b.delayMs, target) ==> delay == target)
  {
    DelayCounts(b, events, wanted, n);
    DelayConverges(b.config.mode, b.delayMs, wanted, PlaysIn(b, events, 0, n));
  }

  lemma {:induction false} DelayCounts(b: Buffer, events: seq<Event>, wanted: u32, n: nat)
    requires Valid(b) && Steady(events, wanted) && n <= |events|
    ensures ValidMode(b.config.mode)
    ensures After(b, events[..n]).delayMs == DelayAfter(b.config.mode, b.delayMs, wanted, PlaysIn(b, events, 0, n))
  {
    hide Step, Plays, Jitter.Valid, Adapted;
    ModeIsValid(b);
    if n > 0 {
      assert events[..n][..n - 1] == events[..n - 1];
      DelayCounts(b, events, wanted, n - 1);
      ReachableIsValid(b, events, n - 1);
      assert events[n - 1] in events;
      StepDelay(After(b, events[..n - 1]), events[n - 1]);
      PlaysOnlyPops(After(b, events[..n - 1]), events[n - 1]);
    } else {
      assert events[..0] == [];
    }
  }
}
