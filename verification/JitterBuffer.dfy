/** The jitter buffer as the program keeps it: an object whose fields every push and pop update.
    Every method is proved to do what the function of its name in `Jitter` says. */
module JitterBuffer {
  import opened Bytes
  import opened Jitter

  /** The first key of an ordered map. */
  method FirstKey(keys: set<u32>) returns (k: u32)
    requires keys != {}
    ensures k == Least(keys)
  {
    ghost var any :| any in keys;
    LeastExists(keys, any);
    k :| k in keys && forall x :: x in keys ==> k <= x;
  }

  /** The packets of a map in ascending order of their numbers. */
  ghost function InOrder(packets: map<u32, BufferedPacket>): seq<BufferedPacket>
    decreases |packets|
  {
    if packets.Keys == {} then []
    else
      var k := Least(packets.Keys);
      RemovedSize(packets, k);
      [packets[k]] + InOrder(packets - {k})
  }

  /** How many numbers are below. */
  ghost function Below(s: set<u32>, k: u32): nat {
    |set j | j in s && j < k|
  }

  /** They are all there, each as far from the front as there are smaller numbers. */
  lemma {:induction false} InOrderIs(packets: map<u32, BufferedPacket>, k: u32)
    requires k in packets
    ensures |InOrder(packets)| == |packets| && Below(packets.Keys, k) < |packets|
    ensures InOrder(packets)[Below(packets.Keys, k)] == packets[k]
    decreases |packets|
  {
    var l := Least(packets.Keys);
    RemovedSize(packets, l);
    InOrderSize(packets);
    InOrderSize(packets - {l});
    if k == l {
      assert (set j | j in packets.Keys && j < k) == {};
    } else {
      InOrderIs(packets - {l}, k);
      assert (set j | j in packets.Keys && j < k) == (set j | j in (packets - {l}).Keys && j < k) + {l};
    }
  }

  lemma {:induction false} InOrderSize(packets: map<u32, BufferedPacket>)
    ensures |InOrder(packets)| == |packets|
    decreases |packets|
  {
    if packets.Keys != {} {
      RemovedSize(packets, Least(packets.Keys));
      InOrderSize(packets - {Least(packets.Keys)});
    }
  }

  lemma ArrivedKeepsPlayout(b: Buffer, s: u16, timestamp: u32, now: int)
    ensures Arrived(b, s, timestamp, now).playoutSeq == b.playoutSeq
    ensures Arrived(b, s, timestamp, now).config == b.config
  {
  }

  lemma StartsWithSomething(b: Buffer, now: int)
    requires ShouldStart(b, now)
    ensures b.packets.Keys != {}
  {
  }

  class JitterBuffer {
    const config: Config
    var packets: map<u32, BufferedPacket>
    var playoutSeq: Option<u32>
    var seqCycles: u16
    var lastSeq: Option<u16>
    var currentDelayMs: u32
    var baseTimestamp: Option<u32>
    var baseTime: Option<int>
    var playing: bool
    var stats: Stats

    constructor (config: Config)
      ensures Value() == New(config) && (ValidMode(config.mode) ==> Valid())
    {
      this.config := config;
      packets, playoutSeq, seqCycles, lastSeq := map[], None, 0, None;
      currentDelayMs := InitialDelay(config.mode);
      baseTimestamp, baseTime, playing, stats := None, None, false, NO_STATS;
    }

    ghost function Value(): Buffer
      reads this
    {
      Buffer(config, packets, playoutSeq, seqCycles, lastSeq, currentDelayMs, baseTimestamp, baseTime, playing, stats)
    }

    ghost predicate Valid()
      reads this
    {
      Jitter.Valid(Value())
    }

    method ExtendSeq(s: u16) returns (number: u32)
      modifies this`seqCycles
      ensures seqCycles == NextCycles(old(seqCycles), lastSeq, s) && number == Extended(seqCycles, s)
    {
      if lastSeq.Some? {
        var last := lastSeq.value;
        if s < last && last - s > 0x8000 {
          seqCycles := (seqCycles + 1) % TWO16;
        } else if s > last && s - last > 0x8000 {
          seqCycles := (seqCycles - 1) % TWO16;
        }
      }
      number := Extended(seqCycles, s);
    }

    /** Count an arrival, set the base references if it is the first, and number it. */
    method Arrive(s: u16, timestamp: u32, now: int) returns (number: u32)
      modifies this
      ensures Value() == Arrived(old(Value()), s, timestamp, now) && number == NumberFor(old(Value()), s)
    {
      hide NextCycles, Extended;
      stats := stats.(received := stats.received + 1);
      if baseTimestamp.None? {
        baseTimestamp, baseTime, lastSeq := Some(timestamp), Some(now), Some(s);
      }
      number := ExtendSeq(s);
    }

    /** Drop the oldest packet if the buffer is full. */
    method MakeRoom()
      modifies this`packets, this`stats
      ensures Value() == Evicted(old(Value()))
    {
      hide Least;
      if |packets| >= config.maxPackets {
        if packets.Keys != {} {
          var oldest := FirstKey(packets.Keys);
          packets := packets - {oldest};
          stats := stats.(dropped := stats.dropped + 1);
        }
      }
    }

    method PushAt(s: u16, timestamp: u32, payload: seq<byte>, now: int) returns (buffered: bool)
      requires Valid()
      modifies this
      ensures Valid()
      ensures (Value(), buffered) == Pushed(old(Value()), s, timestamp, payload, now)
    {
      PushKeepsValid(Value(), s, timestamp, payload, now);
      hide NumberFor, Arrived, Evicted, Jitter.Valid;
      var number := Arrive(s, timestamp, now);
      ghost var counted := Value();
      ArrivedKeepsPlayout(old(Value()), s, timestamp, now);
      if playoutSeq.Some? && number < playoutSeq.value {
        if playoutSeq.value - number <= Discontinuity(config) {
          stats := stats.(dropped := stats.dropped + 1);
          return false;
        }
        packets, playoutSeq, playing, baseTime := map[], None, false, Some(now);
        assert Value() == Restarted(counted, now);
      }
      MakeRoom();
      assert Value() == Ready(old(Value()), s, timestamp, now);
      packets := packets[number := BufferedPacket(s, timestamp, payload, now, false)];
      lastSeq := Some(s);
      return true;
    }

    /** The number to play. Starts playout, at the lowest buffered, when the delay is over. */
    method ChooseTarget(now: int) returns (target: Option<u32>)
      modifies this`playoutSeq, this`playing
      ensures target == Target(old(Value()), now)
      ensures target.None? ==> Value() == old(Value())
      ensures target.Some? ==>
        Value() == old(Value()).(playoutSeq := playoutSeq, playing := old(playing) || old(playoutSeq).None?)
    {
      hide Least, ShouldStart;
      if playoutSeq.None? {
        if !ShouldStartPlayout(now) {
          return None;
        }
        StartsWithSomething(Value(), now);
        var first := FirstKey(packets.Keys);
        playoutSeq, playing := Some(first), true;
        return Some(first);
      }
      var at := playoutSeq.value;
      if at in packets {
        return Some(at);
      }
      var following := From(packets.Keys, at);
      if following == {} {
        return None;
      }
      var next := FirstKey(following);
      return Some(if next - at > Discontinuity(config) then next else at);
    }

    /** `wanted` is the delay the jitter estimate calls for. */
    method PopAt(now: int, wanted: u32) returns (packet: Option<BufferedPacket>)
      requires Valid()
      modifies this
      ensures Valid()
      ensures (Value(), packet) == Popped(old(Value()), now, wanted)
    {
      assert ValidMode(config.mode);
      hide Adapted, Target, Synthesized, Jitter.Valid;
      PopKeepsValid(Value(), now, wanted);
      var target := ChooseTarget(now);
      if target.None? {
        assert Popped(old(Value()), now, wanted) == (Value(), None);
        return None;
      }
      packet := Take(target.value, now);
      AdaptDelay(wanted);
      assert Value() == Popped(old(Value()), now, wanted).0;
    }

    /** Take out the packet to play, or make one up, and move playout past it. */
    method Take(number: u32, now: int) returns (packet: Option<BufferedPacket>)
      modifies this`packets, this`stats, this`playoutSeq
      ensures packets == old(packets) - {number} && playoutSeq == Some((number + 1) % TWO32)
      ensures stats == old(stats).(played := old(stats.played) + 1,
                                   lost := old(stats.lost) + if number in old(packets) then 0 else 1)
      ensures packet == Some(if number in old(packets) then old(packets)[number]
                             else Synthesized(old(Value()), number, now))
    {
      if number in packets {
        packet := Some(packets[number]);
      } else {
        stats := stats.(lost := stats.lost + 1);
        packet := Some(BufferedPacket(number % TWO16, baseTimestamp.UnwrapOr(0), [], now, true));
      }
      packets := packets - {number};
      stats := stats.(played := stats.played + 1);
      playoutSeq := Some((number + 1) % TWO32);
    }

    method AdaptDelay(wanted: u32)
      requires ValidMode(config.mode)
      modifies this`currentDelayMs
      ensures currentDelayMs == Adapted(config.mode, old(currentDelayMs), wanted)
    {
      if config.mode.Fixed? {
        return;
      }
      var target := ClampMs(wanted, config.mode.minMs, config.mode.maxMs);
      var delay: int := currentDelayMs;
      if target > currentDelayMs {
        delay := delay + AtLeastOne((target - currentDelayMs) / 4);
      } else if target < currentDelayMs {
        delay := delay - AtLeastOne((currentDelayMs - target) / 8);
      }
      currentDelayMs := ClampMs(delay, config.mode.minMs, config.mode.maxMs);
    }

    predicate ShouldStartPlayout(now: int)
      reads this
      ensures ShouldStartPlayout(now) == ShouldStart(Value(), now)
    {
      if packets.Keys == {} || baseTime.None? then false
      else
        var elapsed := if now < baseTime.value then 0 else now - baseTime.value;
        elapsed >= currentDelayMs as int * NANOS_PER_MS
    }

    function PeekNextPacket(): (packet: Option<BufferedPacket>)
      reads this
      ensures packet == PeekNext(Value())
    {
      if playoutSeq.None? || playoutSeq.value !in packets then None else Some(packets[playoutSeq.value])
    }

    /** All buffered packets, oldest first. */
    method Flush() returns (flushed: seq<BufferedPacket>)
      requires Valid()
      modifies this`packets
      ensures Valid() && Value() == Flushed(old(Value()))
      ensures flushed == InOrder(old(packets))
    {
      flushed := [];
      while packets.Keys != {}
        invariant flushed + InOrder(packets) == InOrder(old(packets))
        decreases |packets|
      {
        var k := FirstKey(packets.Keys);
        RemovedSize(packets, k);
        flushed := flushed + [packets[k]];
        packets := packets - {k};
      }
      assert packets == map[];
    }

    method ResetAll()
      requires Valid()
      modifies this
      ensures Valid() && Value() == Reset(old(Value()))
    {
      packets, playoutSeq, seqCycles, lastSeq := map[], None, 0, None;
      baseTimestamp, baseTime, playing, stats := None, None, false, NO_STATS;
      currentDelayMs := InitialDelay(config.mode);
    }
  }
}
