/** How long playout waits: over any run of a jitter buffer, when the first pop plays. */
module JitterWait {
  import opened Bytes
  import opened Jitter
  import opened JitterRuns

  /** The push that began the wait under way, by its time: the first there is, or the last from a sender that had
      started over. */
  ghost function WaitsFrom(b: Buffer, events: seq<Event>): Option<int>
    requires ValidMode(b.config.mode)
  {
    if events == [] then None
    else
      var n := |events| - 1;
      var earlier := WaitsFrom(b, events[..n]);
      match events[n]
      case Push(_, _, _, at) => if earlier.None? || Restarts(After(b, events[..n]), events[n]) then Some(at) else earlier
      case Clear => None
      case _ => earlier
  }

  /** A pop has played since then. */
  ghost predicate HasPlayed(b: Buffer, events: seq<Event>)
    requires ValidMode(b.config.mode)
  {
    events != []
    && var n := |events| - 1;
       match events[n]
       case Push(_, _, _, _) => HasPlayed(b, events[..n]) && !Restarts(After(b, events[..n]), events[n])
       case Pop(_, _) => HasPlayed(b, events[..n]) || PlayedAt(b, events, n).Some?
       case Flush => HasPlayed(b, events[..n])
       case Clear => false
  }

  /** Something has come since the buffer was last emptied. */
  predicate Holding(events: seq<Event>) {
    events != []
    && var n := |events| - 1;
       match events[n]
       case Push(_, _, _, _) => true
       case Pop(_, _) => Holding(events[..n])
       case Flush => false
       case Clear => false
  }

  /** A pop has played since the start, or since the last reset. */
  ghost predicate EverPlayed(b: Buffer, events: seq<Event>)
    requires ValidMode(b.config.mode)
  {
    events != []
    && var n := |events| - 1;
       !events[n].Clear? && (EverPlayed(b, events[..n]) || PlayedAt(b, events, n).Some?)
  }

  /** The delay a buffer is set up with. */
  function Configured(config: Config): u32 {
    match config.mode
    case Fixed(delayMs) => delayMs
    case Adaptive(targetMs, _, _) => targetMs
  }

  /** What a buffer remembers of a run: when the wait began, whether it is over, whether there is anything. */
  ghost predicate Remembers(now: Buffer, from: Option<int>, played: bool, holding: bool, ever: bool) {
    && Valid(now) && now.baseTime == from && (played <==> now.playoutSeq.Some?) && (played <==> now.playing)
    && (!played ==> (holding <==> now.packets.Keys != {}))
    && (now.config.mode.Fixed? || !ever ==> now.delayMs == Configured(now.config))
  }

  lemma PushRemembers(b: Buffer, e: Event, from: Option<int>, played: bool, holding: bool, ever: bool)
    requires e.Push? && Remembers(b, from, played, holding, ever)
    ensures Remembers(Step(b, e), if from.None? || Restarts(b, e) then Some(e.at) else from,
                      played && !Restarts(b, e), true, ever)
    ensures Plays(b, e).None?
  {
    hide NextCycles, Extended, Capacity;
    StepKeepsValid(b, e);
    PushFills(b, e);
  }

  /** A push that is not late leaves its packet in the buffer. */
  lemma PushFills(b: Buffer, e: Event)
    requires e.Push? && Valid(b)
    ensures b.playoutSeq.None? || Restarts(b, e) ==> Step(b, e).packets.Keys != {}
  {
    hide NextCycles, Extended, Capacity, Evicted;
    if b.playoutSeq.None? || Restarts(b, e) {
      assert NumberFor(b, e.s) in Step(b, e).packets.Keys;
    }
  }

  lemma PopRemembers(b: Buffer, e: Event, from: Option<int>, played: bool, holding: bool, ever: bool)
    requires e.Pop? && Remembers(b, from, played, holding, ever)
    ensures Remembers(Step(b, e), from, played || Plays(b, e).Some?, holding, ever || Plays(b, e).Some?)
  {
    hide Adapted, Capacity, Least;
    StepKeepsValid(b, e);
    AdaptsOnlyAdaptive(b.config.mode, b.delayMs, e.wanted);
  }

  lemma AdaptsOnlyAdaptive(mode: Mode, delay: u32, wanted: u32)
    requires ValidMode(mode)
    ensures mode.Fixed? ==> Adapted(mode, delay, wanted) == delay
  {
  }

  lemma OtherRemembers(b: Buffer, e: Event, from: Option<int>, played: bool, holding: bool, ever: bool)
    requires (e.Flush? || e.Clear?) && Remembers(b, from, played, holding, ever)
    ensures e.Flush? ==> Remembers(Step(b, e), from, played, false, ever)
    ensures e.Clear? ==> Remembers(Step(b, e), None, false, false, false)
    ensures Plays(b, e).None?
  {
    StepKeepsValid(b, e);
  }

  lemma {:induction false} RunRemembers(config: Config, events: seq<Event>, n: nat)
    requires ValidMode(config.mode) && n <= |events|
    ensures var b, run := New(config), events[..n];
            Remembers(After(b, run), WaitsFrom(b, run), HasPlayed(b, run), Holding(run), EverPlayed(b, run))
  {
    hide Step, Plays, Restarts, Remembers;
    var b, run := New(config), events[..n];
    if n == 0 {
      NothingRemembered(config);
    } else {
      var m := n - 1;
      assert run[..m] == events[..m];
      RunRemembers(config, events, m);
      var before, e := After(b, run[..m]), events[m];
      var from, played := WaitsFrom(b, run[..m]), HasPlayed(b, run[..m]);
      var holding, ever := Holding(run[..m]), EverPlayed(b, run[..m]);
      match e
      case Push(_, _, _, _) => PushRemembers(before, e, from, played, holding, ever);
      case Pop(_, _) => PopRemembers(before, e, from, played, holding, ever);
      case Flush => OtherRemembers(before, e, from, played, holding, ever);
      case Clear => OtherRemembers(before, e, from, played, holding, ever);
    }
  }

  lemma NothingRemembered(config: Config)
    requires ValidMode(config.mode)
    ensures Remembers(After(New(config), []), None, false, false, false)
  {
  }

  /** Over any run: until one has played, a pop plays exactly when there is something buffered and it comes at least
      the delay, in milliseconds, after the push that began the wait. The delay is the configured one as long as it is
      fixed or nothing has been played; and the number played is then the smallest buffered. */
  lemma FirstPopIff(config: Config, events: seq<Event>, n: nat)
    requires ValidMode(config.mode) && n < |events| && events[n].Pop? && !HasPlayed(New(config), events[..n])
    ensures var b, run := New(config), events[..n];
            var from, delay, now := WaitsFrom(b, run), After(b, run).delayMs as int, events[n].at;
            && (PlayedAt(b, events, n).Some? <==>
                  Holding(run) && from.Some? && (delay == 0 || now - from.value >= delay * 1_000_000))
            && (config.mode.Fixed? || !EverPlayed(b, run) ==>
                  delay == match config.mode case Fixed(d) => d case Adaptive(target, _, _) => target)
            && (PlayedAt(b, events, n).Some? ==>
                  PlayedAt(b, events, n).value in After(b, run).packets
                  && forall k :: k in After(b, run).packets ==> PlayedAt(b, events, n).value <= k)
  {
    hide After, WaitsFrom, HasPlayed, Holding, EverPlayed, Valid;
    RunRemembers(config, events, n);
  }

  /** A buffer says it is playing exactly from the first pop that plays to the next restart or reset, flushed or not. */
  lemma PlayingIff(config: Config, events: seq<Event>, n: nat)
    requires ValidMode(config.mode) && n <= |events|
    ensures After(New(config), events[..n]).playing <==> HasPlayed(New(config), events[..n])
  {
    hide After, WaitsFrom, HasPlayed, Holding, EverPlayed, Valid;
    RunRemembers(config, events, n);
  }

  // ----- Stand-ins, late packets and restarts, by what was played

  /** The timestamp of the first packet since the start or the last reset. */
  function FirstTimestamp(events: seq<Event>): Option<u32> {
    if events == [] then None
    else
      var n := |events| - 1;
      var earlier := FirstTimestamp(events[..n]);
      match events[n]
      case Push(_, timestamp, _, _) => if earlier.None? then Some(timestamp) else earlier
      case Clear => None
      case _ => earlier
  }

  lemma StepTimestamp(b: Buffer, e: Event)
    requires Valid(b)
    ensures Step(b, e).baseTimestamp
         == match e
            case Push(_, timestamp, _, _) => if b.baseTimestamp.None? then Some(timestamp) else b.baseTimestamp
            case Clear => None
            case _ => b.baseTimestamp
  {
    hide NextCycles, Extended, Adapted, Least;
  }

  lemma {:induction false} TimestampIsFirst(config: Config, events: seq<Event>, n: nat)
    requires ValidMode(config.mode) && n <= |events|
    ensures After(New(config), events[..n]).baseTimestamp == FirstTimestamp(events[..n])
  {
    hide Step;
    if n > 0 {
      assert events[..n][..n - 1] == events[..n - 1];
      TimestampIsFirst(config, events, n - 1);
      NewIsValid(config);
      ReachableIsValid(New(config), events, n - 1);
      StepTimestamp(After(New(config), events[..n - 1]), events[n - 1]);
    } else {
      assert events[..0] == [];
    }
  }

  /** What a pop hands out for a number that is not there: an empty packet under that number, with the timestamp of the
      first packet there was. */
  lemma StandInIs(config: Config, events: seq<Event>, n: nat)
    requires ValidMode(config.mode) && n < |events| && events[n].Pop?
    requires var b := After(New(config), events[..n]);
             Target(b, events[n].at).Some? && Target(b, events[n].at).value !in b.packets
    ensures var b := After(New(config), events[..n]);
            var packet := Popped(b, events[n].at, events[n].wanted).1;
            packet == Some(BufferedPacket(Target(b, events[n].at).value % 0x1_0000, FirstTimestamp(events[..n]).UnwrapOr(0),
                                          [], events[n].at, true))
  {
    hide After, Target, Adapted;
    TimestampIsFirst(config, events, n);
  }

  /** Nothing since event `i` plays or starts over. */
  ghost predicate QuietSince(b: Buffer, events: seq<Event>, i: nat, j: nat)
    requires ValidMode(b.config.mode) && i < j <= |events|
  {
    forall n :: i < n < j ==> !Restarts(After(b, events[..n]), events[n]) && PlayedAt(b, events, n).None?
  }

  lemma {:induction false} PlayoutIsNext(b: Buffer, events: seq<Event>, i: nat, j: nat)
    requires Valid(b) && i < j <= |events| && QuietSince(b, events, i, j)
    requires PlayedAt(b, events, i).Some? && PlayedAt(b, events, i).value < 0xFFFF_FFFF
    ensures After(b, events[..j]).playoutSeq == Some(PlayedAt(b, events, i).value + 1)
    decreases j
  {
    hide Step, Plays, Restarts;
    var n := j - 1;
    assert events[..j][..n] == events[..n];
    ReachableIsValid(b, events, n);
    if i < n {
      PlayoutIsNext(b, events, i, n);
      PlayoutAdvances(After(b, events[..n]), events[n]);
    } else {
      OnlyPopsPlay(After(b, events[..n]), events[n]);
      PlayoutAdvances(After(b, events[..n]), events[n]);
    }
  }

  lemma OnlyPopsPlay(b: Buffer, e: Event)
    requires Plays(b, e).Some?
    ensures e.Pop? && !Restarts(b, e)
  {
  }

  /** Once number `p` has been played: a packet up to `p` and less than a full buffer behind it is late and dropped; one
      further behind is of a sender that has started over, and everything else buffered is cleared; one ahead of `p`
      joins the rest. */
  lemma LateIff(b: Buffer, events: seq<Event>, i: nat, j: nat)
    requires Valid(b) && i < j < |events| && QuietSince(b, events, i, j) && events[j].Push?
    requires PlayedAt(b, events, i).Some? && PlayedAt(b, events, i).value < 0xFFFF_FFFF && b.config.maxPackets < TWO32
    ensures IsPast(After(b, events[..j]), events[j], PlayedAt(b, events, i).value)
  {
    hide After, PlayedAt, QuietSince, Valid, IsPast, Step, Restarts, Plays, Target, NumberFor, ValidMode;
    ModeIsValid(b);
    PlayoutIsNext(b, events, i, j);
    ReachableIsValid(b, events, j);
    PushPast(After(b, events[..j]), events[j], PlayedAt(b, events, i).value);
  }

  ghost predicate IsPast(b: Buffer, e: Event, p: int)
    requires e.Push?
  {
    var k: int, full: int := NumberFor(b, e.s), if b.config.maxPackets == 0 then 1 else b.config.maxPackets;
    var (after, buffered) := Pushed(b, e.s, e.timestamp, e.payload, e.at);
    && (!buffered <==> p - full < k <= p)
    && (!buffered ==> after.packets == b.packets)
    && (k <= p - full ==> after.packets.Keys == {NumberFor(b, e.s)} && after.playoutSeq.None?)
    && (k > p ==> NumberFor(b, e.s) in after.packets && after.playoutSeq == b.playoutSeq)
  }

  lemma PushPast(b: Buffer, e: Event, p: u32)
    requires e.Push? && p < 0xFFFF_FFFF && b.playoutSeq == Some(p + 1) && b.config.maxPackets < TWO32
    ensures IsPast(b, e, p)
  {
    hide NextCycles, Extended, Least;
  }
}
