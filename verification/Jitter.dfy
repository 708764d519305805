/** The jitter buffer as a value: what a push, a pop, a flush and a reset each make of it.
    Times are nanoseconds. The jitter estimate is a floating-point filter outside this model, so
    the delay it calls for is an input to a pop. */
module Jitter {
  import opened Bytes

  const NANOS_PER_MS := 1_000_000

  datatype Mode = Fixed(delayMs: u32) | Adaptive(targetMs: u32, minMs: u32, maxMs: u32)

  datatype Config = Config(mode: Mode, clockRate: u32, maxPackets: u64)

  datatype BufferedPacket = BufferedPacket(
    sequence: u16, timestamp: u32, payload: seq<byte>, receivedAt: int, synthesized: bool)

  datatype Stats = Stats(received: nat, dropped: nat, lost: nat, played: nat)

  const NO_STATS := Stats(0, 0, 0, 0)

  datatype Buffer = Buffer(
    config: Config,
    /** What has arrived and not been played, by extended number. */
    packets: map<u32, BufferedPacket>,
    /** The extended number whose turn it is. */
    playoutSeq: Option<u32>,
    seqCycles: u16,
    lastSeq: Option<u16>,
    delayMs: u32,
    baseTimestamp: Option<u32>,
    baseTime: Option<int>,
    playing: bool,
    stats: Stats)

  function InitialDelay(mode: Mode): u32 {
    match mode
    case Fixed(delayMs) => delayMs
    case Adaptive(targetMs, _, _) => targetMs
  }

  function New(config: Config): Buffer {
    Buffer(config, map[], None, 0, None, InitialDelay(config.mode), None, None, false, NO_STATS)
  }

  /** The program clamps between the two, which must not cross. */
  predicate ValidMode(mode: Mode) {
    mode.Adaptive? ==> mode.minMs <= mode.maxMs
  }

  // ----- The smallest buffered number

  /** A non-empty set of numbers has a least: walk down from any element. */
  lemma {:induction false} LeastExists(s: set<u32>, from: u32)
    requires from in s
    ensures exists k :: k in s && forall x :: x in s ==> k <= x
    decreases from
  {
    if exists y :: y in s && y < from {
      var y :| y in s && y < from;
      LeastExists(s, y);
    }
  }

  ghost function Least(s: set<u32>): (k: u32)
    requires s != {}
    ensures k in s && forall x :: x in s ==> k <= x
  {
    var any :| any in s;
    LeastExists(s, any);
    var k :| k in s && forall x :: x in s ==> k <= x;
    k
  }

  /** The numbers from `from` on. */
  function From(s: set<u32>, from: u32): set<u32> {
    set k | k in s && from <= k
  }

  // ----- Extending sequence numbers

  /** How far off a number may be and still be loss or lateness; beyond it the sender has restarted. */
  function Discontinuity(config: Config): u32 {
    (if config.maxPackets < 1 then 1 else config.maxPackets) % TWO32
  }

  /** This buffer's copy of the nearest-cycle guess, in 16-bit cycles. */
  function NextCycles(seqCycles: u16, lastSeq: Option<u16>, s: u16): u16 {
    match lastSeq
    case None => seqCycles
    case Some(last) =>
      if s < last && last - s > 0x8000 then (seqCycles + 1) % TWO16
      else if s > last && s - last > 0x8000 then (seqCycles - 1) % TWO16
      else seqCycles
  }

  function Extended(cycles: u16, s: u16): u32 {
    var high: int := cycles;
    high * TWO16 + s
  }

  // ----- Push

  /** Times are counted from the first packet. */
  function Based(b: Buffer, s: u16, timestamp: u32, now: int): Buffer {
    if b.baseTimestamp.None?
    then b.(baseTimestamp := Some(timestamp), baseTime := Some(now), lastSeq := Some(s))
    else b
  }

  /** The extended number a push of `s` gets. */
  function NumberFor(b: Buffer, s: u16): u32 {
    Extended(NextCycles(b.seqCycles, if b.baseTimestamp.None? then Some(s) else b.lastSeq, s), s)
  }

  predicate IsLate(b: Buffer, number: u32) {
    b.playoutSeq.Some? && number < b.playoutSeq.value && b.playoutSeq.value - number <= Discontinuity(b.config)
  }

  predicate IsRestart(b: Buffer, number: u32) {
    b.playoutSeq.Some? && number < b.playoutSeq.value && b.playoutSeq.value - number > Discontinuity(b.config)
  }

  /** A sender that has started over: so does playout, from now. */
  function Restarted(b: Buffer, now: int): Buffer {
    b.(packets := map[], playoutSeq := None, playing := false, baseTime := Some(now))
  }

  /** Make room by dropping the oldest packet, when the buffer is full. */
  ghost function Evicted(b: Buffer): Buffer {
    if |b.packets| >= b.config.maxPackets && b.packets.Keys != {} then
      b.(packets := b.packets - {Least(b.packets.Keys)}, stats := b.stats.(dropped := b.stats.dropped + 1))
    else b
  }

  /** The buffer that the packet goes into, once it is known not to be late. */
  ghost function Ready(b: Buffer, s: u16, timestamp: u32, now: int): Buffer {
    var counted := Arrived(b, s, timestamp, now);
    Evicted(if IsRestart(b, NumberFor(b, s)) then Restarted(counted, now) else counted)
  }

  function Arrived(b: Buffer, s: u16, timestamp: u32, now: int): Buffer {
    var based := Based(b.(stats := b.stats.(received := b.stats.received + 1)), s, timestamp, now);
    based.(seqCycles := NextCycles(based.seqCycles, based.lastSeq, s))
  }

  ghost function Pushed(b: Buffer, s: u16, timestamp: u32, payload: seq<byte>, now: int): (Buffer, bool) {
    var number := NumberFor(b, s);
    if IsLate(b, number) then
      var counted := Arrived(b, s, timestamp, now);
      (counted.(stats := counted.stats.(dropped := counted.stats.dropped + 1)), false)
    else
      var ready := Ready(b, s, timestamp, now);
      var packet := BufferedPacket(s, timestamp, payload, now, false);
      (ready.(packets := ready.packets[number := packet], lastSeq := Some(s)), true)
  }

  // ----- Pop

  predicate ShouldStart(b: Buffer, now: int) {
    && b.packets.Keys != {}
    && b.baseTime.Some?
    && (if now < b.baseTime.value then 0 else now - b.baseTime.value) >= b.delayMs as int * NANOS_PER_MS
  }

  /** The number the next pop plays, if it plays anything: the playout position, or the next
      packet when that is missing and too far ahead to conceal up to. */
  ghost function Target(b: Buffer, now: int): Option<u32> {
    match b.playoutSeq
    case None => if ShouldStart(b, now) then Some(Least(b.packets.Keys)) else None
    case Some(at) =>
      if at in b.packets then Some(at)
      else if From(b.packets.Keys, at) == {} then None
      else
        var next := Least(From(b.packets.Keys, at));
        Some(if next - at > Discontinuity(b.config) then next else at)
  }

  /** The stand-in for a lost packet. The timestamp estimate it carries is the base timestamp: the
      number it is for is always the playout position itself. */
  function Synthesized(b: Buffer, number: u32, now: int): BufferedPacket {
    BufferedPacket(number % TWO16, b.baseTimestamp.UnwrapOr(0), [], now, true)
  }

  ghost function Popped(b: Buffer, now: int, wanted: u32): (Buffer, Option<BufferedPacket>)
    requires ValidMode(b.config.mode)
  {
    match Target(b, now)
    case None => (b, None)
    case Some(number) =>
      var found := number in b.packets;
      var stats := b.stats.(played := b.stats.played + 1, lost := b.stats.lost + if found then 0 else 1);
      (b.(packets := b.packets - {number},
          playoutSeq := Some((number + 1) % TWO32),
          playing := b.playing || b.playoutSeq.None?,
          stats := stats,
          delayMs := Adapted(b.config.mode, b.delayMs, wanted)),
       Some(if found then b.packets[number] else Synthesized(b, number, now)))
  }

  /** The packet that the next pop will play, if it has arrived. */
  function PeekNext(b: Buffer): Option<BufferedPacket> {
    if b.playoutSeq.Some? && b.playoutSeq.value in b.packets then Some(b.packets[b.playoutSeq.value]) else None
  }

  // ----- Adaptive delay

  function ClampMs(x: int, lo: u32, hi: u32): u32
    requires lo <= hi
  {
    if x < lo then lo else if x > hi then hi else x
  }

  function AtLeastOne(x: int): int {
    if x < 1 then 1 else x
  }

  /** One step from `delay` towards `wanted`: a quarter of the way up, an eighth of the way down. */
  function Adapted(mode: Mode, delay: u32, wanted: u32): u32
    requires ValidMode(mode)
  {
    match mode
    case Fixed(_) => delay
    case Adaptive(_, minMs, maxMs) =>
      var target := ClampMs(wanted, minMs, maxMs);
      var moved :=
        if target > delay then delay + AtLeastOne((target - delay) / 4)
        else if target < delay then delay - AtLeastOne((delay - target) / 8)
        else delay;
      ClampMs(moved, minMs, maxMs)
  }

  // ----- Flush and reset

  function Flushed(b: Buffer): Buffer {
    b.(packets := map[])
  }

  function Reset(b: Buffer): Buffer {
    New(b.config)
  }

  // ----- What every operation keeps

  function Capacity(config: Config): nat {
    if config.maxPackets < 1 then 1 else config.maxPackets
  }

  /** Nothing buffered is behind the playout position; the buffer is within its bound; every packet
      is filed under a number that ends in its own; the references are set together. */
  ghost predicate Valid(b: Buffer) {
    && ValidMode(b.config.mode)
    && (b.playoutSeq.Some? ==> forall k :: k in b.packets ==> b.playoutSeq.value <= k)
    && |b.packets| <= Capacity(b.config)
    && (forall k :: k in b.packets ==> b.packets[k].sequence == k % TWO16 && !b.packets[k].synthesized)
    && b.baseTimestamp.Some? == b.baseTime.Some? == b.lastSeq.Some?
    && (b.baseTimestamp.None? ==> b.packets == map[] && b.playoutSeq.None?)
  }

  lemma NewIsValid(config: Config)
    requires ValidMode(config.mode)
    ensures Valid(New(config))
  {
  }

  lemma RemovedSize(m: map<u32, BufferedPacket>, k: u32)
    requires k in m
    ensures |m - {k}| == |m| - 1
  {
    assert m.Keys == (m - {k}).Keys + {k};
  }

  lemma InsertedSize(m: map<u32, BufferedPacket>, k: u32, p: BufferedPacket)
    ensures |m[k := p]| == |m| + if k in m then 0 else 1
  {
    assert m[k := p].Keys == m.Keys + {k};
  }

  lemma ExtendedEndsIn(cycles: u16, s: u16)
    ensures Extended(cycles, s) % TWO16 == s && Extended(cycles, s) / TWO16 == cycles
  {
  }

  lemma EvictedIsValid(b: Buffer)
    requires Valid(b)
    ensures Valid(Evicted(b)) && |Evicted(b).packets| < Capacity(b.config)
  {
    if b.packets.Keys != {} {
      RemovedSize(b.packets, Least(b.packets.Keys));
    }
  }

  /** The packet's number is not behind playout, and there is room for it. */
  lemma ReadyIsValid(b: Buffer, s: u16, timestamp: u32, now: int)
    requires Valid(b) && !IsLate(b, NumberFor(b, s))
    ensures var ready := Ready(b, s, timestamp, now);
            && Valid(ready) && |ready.packets| < Capacity(b.config) && ready.config == b.config
            && ready.baseTimestamp.Some?
            && (ready.playoutSeq.Some? ==> ready.playoutSeq.value <= NumberFor(b, s))
  {
    hide NextCycles, Extended, Evicted;
    var counted := Arrived(b, s, timestamp, now);
    EvictedIsValid(if IsRestart(b, NumberFor(b, s)) then Restarted(counted, now) else counted);
    EvictedKeepsRest(if IsRestart(b, NumberFor(b, s)) then Restarted(counted, now) else counted);
  }

  lemma EvictedKeepsRest(b: Buffer)
    ensures Evicted(b).(packets := b.packets, stats := b.stats) == b
    ensures Evicted(b).packets.Keys <= b.packets.Keys
  {
  }

  /** A push keeps the buffer valid, whatever its number. */
  lemma PushKeepsValid(b: Buffer, s: u16, timestamp: u32, payload: seq<byte>, now: int)
    requires Valid(b)
    ensures Valid(Pushed(b, s, timestamp, payload, now).0)
  {
    hide NextCycles, Extended, Ready;
    var number := NumberFor(b, s);
    ExtendedEndsIn(NextCycles(b.seqCycles, if b.baseTimestamp.None? then Some(s) else b.lastSeq, s), s);
    if !IsLate(b, number) {
      ReadyIsValid(b, s, timestamp, now);
      InsertedSize(Ready(b, s, timestamp, now).packets, number, BufferedPacket(s, timestamp, payload, now, false));
    }
  }

  /** A pop keeps the buffer valid, at any time. */
  lemma PopKeepsValid(b: Buffer, now: int, wanted: u32)
    requires Valid(b)
    ensures Valid(Popped(b, now, wanted).0)
  {
    hide Adapted;
    var target := Target(b, now);
    if target.Some? {
      if target.value in b.packets {
        RemovedSize(b.packets, target.value);
      } else {
        assert b.packets - {target.value} == b.packets;
      }
      TargetIsNotPast(b, now);
    }
  }

  /** What is played is at or after the playout position and not after anything buffered. */
  lemma TargetIsNotPast(b: Buffer, now: int)
    requires Valid(b) && Target(b, now).Some?
    ensures var number := Target(b, now).value;
            && (b.playoutSeq.Some? ==> b.playoutSeq.value <= number)
            && (forall k :: k in b.packets ==> number <= k)
            && (number !in b.packets ==> b.packets.Keys != {})
  {
    if b.playoutSeq.Some? && From(b.packets.Keys, b.playoutSeq.value) != {} {
      var at := b.playoutSeq.value;
      forall k | k in b.packets ensures k in From(b.packets.Keys, at) {}
    }
  }
}
