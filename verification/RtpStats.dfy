/** Receive statistics on 16-bit sequence numbers (Appendix A.1 and A.3 of RFC 3550): the
    extended highest sequence number, and the loss it implies. */
module RtpStats {
  import opened Bytes
  import opened SequenceNumbers

  /** What `record_received` keeps about the sequence. */
  datatype Tracking = Tracking(initialized: bool, baseSeq: u32, highest: u32, expected: u64, received: u64)

  const FRESH := Tracking(false, 0, 0, 0, 0)

  /** 32-bit wrapping arithmetic. */
  function Wrap32(x: int): (r: u32)
    ensures 0 <= x < TWO32 ==> r == x
  {
    x % TWO32
  }

  /** This counter's copy of the nearest-cycle guess. */
  function NewCycles(highest: u32, s: u16): u32 {
    var prevSeq := highest % TWO16;
    var cycles := highest / TWO16;
    if s < prevSeq && prevSeq - s > 0x8000 then (cycles + 1) % TWO32
    else if s > prevSeq && s - prevSeq > 0x8000 then (cycles - 1) % TWO32
    else cycles
  }

  /** `cycles << 16 | s` in 32 bits. */
  function Extend(cycles: u32, s: u16): u32 {
    var low: int := cycles % TWO16;
    low * TWO16 + s
  }

  function Recorded(t: Tracking, s: u16): Tracking {
    var received := (t.received + 1) % 0x1_0000_0000_0000_0000;
    if !t.initialized then Tracking(true, s, s, 1, received)
    else
      var cycles := NewCycles(t.highest, s);
      var extended := Extend(cycles, s);
      if extended > t.highest || cycles > t.highest / TWO16 then
        t.(highest := extended, expected := Wrap32(extended - t.baseSeq + 1), received := received)
      else
        t.(received := received)
  }

  /** Packets lost, as a snapshot reports it. */
  function Lost(t: Tracking): u64 {
    if t.expected < t.received then 0 else t.expected - t.received
  }

  /** The loss fraction of a receiver report: lost over expected, in 256ths. */
  function LossFraction(t: Tracking): nat {
    if t.expected == 0 then 0 else Lost(t) * 256 / t.expected
  }

  // ----- The true indices behind the sequence numbers

  function Max(s: seq<int>): int
    requires s != []
  {
    var last := s[|s| - 1];
    if |s| == 1 then last else if last > Max(s[..|s| - 1]) then last else Max(s[..|s| - 1])
  }

  /** Every packet is within 2^15 of the highest before it. */
  ghost predicate Close(indices: seq<int>) {
    forall n :: 1 <= n < |indices| ==> -HALF < indices[n] - Max(indices[..n]) < HALF
  }

  ghost predicate NotBeforeCycleZero(indices: seq<int>) {
    forall n :: 0 <= n < |indices| ==> 0 <= indices[n] < TWO32
  }

  function RecordAll(indices: seq<int>): Tracking {
    if indices == [] then FRESH
    else Recorded(RecordAll(indices[..|indices| - 1]), Seq(indices[|indices| - 1]))
  }

  /** The counter knows the run: the highest true index, the span it implies, the count. */
  ghost predicate Knows(t: Tracking, indices: seq<int>)
    requires indices != []
  {
    && t.initialized && t.baseSeq == indices[0]
    && t.highest == Max(indices)
    && t.expected == Wrap32(Max(indices) - indices[0] + 1)
    && t.received == |indices|
  }

  /** This copy of the guess is the shared one, cycle counter wrap included. */
  lemma GuessIsCycleStep(highest: u32, s: u16)
    ensures NewCycles(highest, s) == (Cycle(highest) + CycleStep(Seq(highest), s)) % TWO32
  {
  }

  /** One more packet within 2^15 of the highest: the highest ends up right exactly when the
      packet is not from before cycle 0, where the cycle counter underflows. */
  lemma HighestIsRightIff(t: Tracking, index: int)
    requires t.initialized && -HALF < index - t.highest < HALF && index < TWO32
    ensures Recorded(t, Seq(index)).highest == (if index > t.highest then index else t.highest) <==> index >= 0
  {
    NearestCycle(t.highest, index);
    GuessIsCycleStep(t.highest, Seq(index));
    if index < 0 {
      Underflow(t.highest, index);
    } else {
      ExtendsTo(Cycle(index), index);
    }
  }

  lemma ExtendsTo(cycles: u32, index: int)
    requires 0 <= index < TWO32 && cycles == Cycle(index)
    ensures Extend(cycles, Seq(index)) == index
  {
  }

  /** A packet from before cycle 0 is taken for one from the last cycle of all. */
  lemma Underflow(highest: u32, index: int)
    requires -HALF < index - highest < HALF && index < 0
    ensures Cycle(index) == -1 && Extend((Cycle(index)) % TWO32, Seq(index)) == index + TWO32
    ensures index + TWO32 > highest
  {
  }

  /** The concrete run in which it goes wrong: packet 0, then the one before it, late. */
  lemma LatePacketBeforeTheFirst()
    ensures RecordAll([0, -1]).highest == 0xFFFF_FFFF
  {
    assert [0, -1][..1] == [0];
    assert RecordAll([0]) == Tracking(true, 0, 0, 1, 1) by {
      assert [0][..0] == [];
    }
  }

  lemma {:induction false} TrackingIsExactAt(indices: seq<int>, n: nat)
    requires 0 < n <= |indices| < TWO32 && 0 <= indices[0] < TWO16
    requires Close(indices) && NotBeforeCycleZero(indices)
    ensures Knows(RecordAll(indices[..n]), indices[..n])
  {
    hide Recorded, Cycle, Seq, Wrap32;
    var now, before := indices[..n], indices[..n - 1];
    assert now[..n - 1] == before;
    if n == 1 {
      FirstOne(indices[0]);
    } else {
      TrackingIsExactAt(indices, n - 1);
      OneMore(RecordAll(before), indices[n - 1], n - 1);
      assert RecordAll(now) == Recorded(RecordAll(before), Seq(indices[n - 1]));
    }
  }

  /** Over every run within the bounds the counters are exact. */
  lemma TrackingIsExact(indices: seq<int>)
    requires indices != [] && indices[0] < TWO16 && |indices| < TWO32
    requires Close(indices) && NotBeforeCycleZero(indices)
    ensures Knows(RecordAll(indices), indices)
  {
    assert indices[..|indices|] == indices;
    TrackingIsExactAt(indices, |indices|);
  }

  lemma FirstOne(index: u16)
    ensures Recorded(FRESH, Seq(index)) == Tracking(true, index, index, 1, 1)
  {
  }

  /** What one more packet does to a tracking that is right so far. */
  lemma OneMore(t: Tracking, index: int, count: nat)
    requires t.initialized && t.received == count < TWO32
    requires t.expected == Wrap32(t.highest - t.baseSeq + 1)
    requires 0 <= index < TWO32 && -HALF < index - t.highest < HALF
    ensures var after := Recorded(t, Seq(index));
            && after.initialized && after.baseSeq == t.baseSeq && after.received == count + 1
            && after.highest == (if index > t.highest then index else t.highest)
            && after.expected == Wrap32(after.highest - t.baseSeq + 1)
  {
    HighestIsRightIff(t, index);
    NearestCycle(t.highest, index);
    GuessIsCycleStep(t.highest, Seq(index));
    ExtendsTo(Cycle(index), index);
  }

  // ----- Loss is exactly what is missing

  /** The numbers from `lo` up to and including `hi`. */
  function Span(lo: int, hi: int): (span: set<int>)
    ensures forall i :: i in span <==> lo <= i <= hi
    ensures |span| == if lo <= hi then hi - lo + 1 else 0
    decreases hi - lo + 1
  {
    if lo <= hi then Span(lo, hi - 1) + {hi} else {}
  }

  function Elements(s: seq<int>): set<int> {
    set i | i in s
  }

  ghost predicate Distinct(s: seq<int>) {
    forall i, j :: 0 <= i < j < |s| ==> s[i] != s[j]
  }

  lemma {:induction false} DistinctSize(s: seq<int>)
    requires Distinct(s)
    ensures |Elements(s)| == |s|
  {
    if s == [] {
      assert Elements(s) == {};
    } else {
      var n := |s| - 1;
      DistinctSize(s[..n]);
      assert Elements(s) == Elements(s[..n]) + {s[n]};
    }
  }

  lemma {:induction false} MaxBounds(s: seq<int>)
    requires s != []
    ensures Max(s) in s && forall i :: i in s ==> i <= Max(s)
  {
    var n := |s| - 1;
    if n > 0 {
      MaxBounds(s[..n]);
      assert s == s[..n] + [s[n]];
    }
  }

  /** When no packet repeats and none is older than the first, the reported loss is the number of
      indices missing between the first and the highest, the extended highest number is the
      highest index, and the loss fraction fits the 8 bits of its report field. */
  lemma LossIsWhatIsMissing(indices: seq<int>)
    requires indices != [] && indices[0] < TWO16 && |indices| < TWO32
    requires Close(indices) && NotBeforeCycleZero(indices)
    requires Distinct(indices) && forall i :: i in indices ==> indices[0] <= i
    requires Max(indices) - indices[0] + 1 < TWO32
    ensures RecordAll(indices).highest == Max(indices)
    ensures Lost(RecordAll(indices)) == |Span(indices[0], Max(indices)) - Elements(indices)|
    ensures LossFraction(RecordAll(indices)) < 256
  {
    hide RecordAll, Max, Wrap32;
    TrackingIsExact(indices);
    MaxBounds(indices);
    DistinctSize(indices);
    var t := RecordAll(indices);
    assert t.expected == Max(indices) - indices[0] + 1;
    assert indices[0] in Elements(indices);
    Missing(Span(indices[0], Max(indices)), Elements(indices));
    FractionFits(Lost(t), t.expected);
  }

  /** Whatever repeats: the reported loss is the numbers from the first packet to the highest less the packets that
      came, or nothing when more came than that; and the fraction is that in 256ths of those numbers, rounded down. */
  lemma LossIs(indices: seq<int>)
    requires indices != [] && indices[0] < TWO16 && |indices| < TWO32
    requires Close(indices) && NotBeforeCycleZero(indices) && Max(indices) - indices[0] + 1 < TWO32
    ensures var t, span := RecordAll(indices), Max(indices) - indices[0] + 1;
            && Lost(t) == (if span >= |indices| then span - |indices| else 0)
            && LossFraction(t) * span <= Lost(t) * 256 < (LossFraction(t) + 1) * span
  {
    hide RecordAll, Max, Wrap32;
    TrackingIsExact(indices);
    MaxBounds(indices);
    var t := RecordAll(indices);
    assert indices[0] in indices;
    Quotient(Lost(t) * 256, t.expected);
  }

  lemma Quotient(x: int, n: int)
    requires n > 0
    ensures x / n * n <= x < (x / n + 1) * n
  {
  }

  lemma {:induction false} EveryPacketIsReceived(indices: seq<int>)
    requires |indices| < 0x1_0000_0000_0000_0000
    ensures RecordAll(indices).received == |indices|
  {
    hide NewCycles, Extend, Wrap32;
    if indices != [] {
      EveryPacketIsReceived(indices[..|indices| - 1]);
    }
  }

  /** Whatever arrives, in whatever order and however often, the loss fraction fits its 8 bits. */
  lemma FractionAlwaysFits(indices: seq<int>)
    requires |indices| < 0x1_0000_0000_0000_0000
    ensures LossFraction(RecordAll(indices)) < 256
  {
    hide RecordAll;
    EveryPacketIsReceived(indices);
    NothingExpected();
    var t := RecordAll(indices);
    if t.expected > 0 {
      FractionFits(Lost(t), t.expected);
    }
  }

  lemma NothingExpected()
    ensures RecordAll([]).expected == 0
  {
  }

  lemma Missing(span: set<int>, got: set<int>)
    requires got <= span && got != {}
    ensures |span - got| == |span| - |got| < |span|
  {
    assert span == (span - got) + got;
  }

  lemma FractionFits(lost: nat, expected: nat)
    requires lost < expected
    ensures lost * 256 / expected < 256
  {
    assert lost * 256 / expected * expected <= lost * 256;
    FactorBelow(lost * 256 / expected, 256, expected);
  }

  lemma FactorBelow(a: int, b: int, n: nat)
    requires a * n < b * n
    ensures a < b
  {
  }

  // ----- The counters as the program keeps them

  const TWO64 := 0x1_0000_0000_0000_0000

  /** What a snapshot reports; the jitter in microseconds. */
  datatype Report = Report(
    packetsSent: u64, packetsReceived: u64, bytesSent: u64, bytesReceived: u64, lost: u64, jitterUs: u64,
    codec: string, highest: u32, cycles: u16)

  /** What has been sent, what has been received and in how many bytes, and the jitter. */
  datatype Totals = Totals(packetsSent: u64, bytesSent: u64, bytesReceived: u64, jitterUs: u64)

  const NO_TOTALS := Totals(0, 0, 0, 0)

  class RtpCounters {
    const codec: string
    var packetsSent: u64
    var packetsReceived: u64
    var bytesSent: u64
    var bytesReceived: u64
    var packetsLost: u64
    var jitterUs: u64
    var highestSeq: u32
    var expectedPackets: u64
    var initialized: bool
    var baseSeq: u32

    constructor (codec: string)
      ensures Value() == FRESH && Others() == NO_TOTALS && packetsLost == 0 && this.codec == codec
    {
      this.codec := codec;
      packetsSent, packetsReceived, bytesSent, bytesReceived, packetsLost, jitterUs := 0, 0, 0, 0, 0, 0;
      highestSeq, expectedPackets, initialized, baseSeq := 0, 0, false, 0;
    }

    ghost function Value(): Tracking
      reads this
    {
      Tracking(initialized, baseSeq, highestSeq, expectedPackets, packetsReceived)
    }

    ghost function Others(): Totals
      reads this
    {
      Totals(packetsSent, bytesSent, bytesReceived, jitterUs)
    }

    method RecordSent(bytes: u64)
      modifies this`packetsSent, this`bytesSent
      ensures Value() == old(Value()) && packetsLost == old(packetsLost)
      ensures Others() == old(Others()).(packetsSent := (old(packetsSent) + 1) % TWO64,
                                         bytesSent := (old(bytesSent) + bytes) % TWO64)
    {
      packetsSent := (packetsSent + 1) % TWO64;
      bytesSent := (bytesSent + bytes) % TWO64;
    }

    method RecordReceived(bytes: u64, s: u16)
      modifies this
      ensures Value() == Recorded(old(Value()), s) && packetsLost == old(packetsLost)
      ensures Others() == old(Others()).(bytesReceived := (old(bytesReceived) + bytes) % TWO64)
    {
      packetsReceived := (packetsReceived + 1) % TWO64;
      bytesReceived := (bytesReceived + bytes) % TWO64;
      if !initialized {
        initialized := true;
        baseSeq := s;
        highestSeq := s;
        expectedPackets := 1;
        return;
      }
      var prevExtended := highestSeq;
      var cycles := prevExtended / TWO16;
      var newCycles := NewCycles(prevExtended, s);
      var newExtended := Extend(newCycles, s);
      if newExtended > prevExtended || newCycles > cycles {
        highestSeq := newExtended;
        expectedPackets := Wrap32(newExtended - baseSeq + 1);
      }
    }

    /** A sixteenth of the way to the new difference, rounded down to whole microseconds: never past
        it, and never the other way. */
    method UpdateJitter(difference: u64)
      modifies this`jitterUs
      ensures jitterUs * 16 <= old(jitterUs) * 15 + difference < jitterUs * 16 + 16
      ensures old(jitterUs) <= difference ==> old(jitterUs) <= jitterUs <= difference
      ensures old(jitterUs) >= difference ==> difference <= jitterUs <= old(jitterUs)
      ensures Value() == old(Value()) && packetsLost == old(packetsLost)
      ensures Others() == old(Others()).(jitterUs := jitterUs)
    {
      var previous: int, d: int := jitterUs, difference;
      jitterUs := (previous * 15 + d) / 16;
    }

    /** Works out the loss, keeps it, and reports everything. */
    method Snapshot() returns (report: Report)
      modifies this`packetsLost
      ensures packetsLost == report.lost == Lost(Value())
      ensures report == Report(packetsSent, packetsReceived, bytesSent, bytesReceived, Lost(Value()), jitterUs,
                               codec, highestSeq, Cycle(highestSeq))
      ensures Value() == old(Value()) && Others() == old(Others())
    {
      packetsLost := if expectedPackets < packetsReceived then 0 else expectedPackets - packetsReceived;
      report := Report(packetsSent, packetsReceived, bytesSent, bytesReceived, packetsLost, jitterUs,
                       codec, highestSeq, highestSeq / TWO16 % TWO16);
    }

    method Reset()
      modifies this
      ensures Value() == FRESH && Others() == NO_TOTALS && packetsLost == 0
    {
      packetsSent, packetsReceived, bytesSent, bytesReceived, packetsLost, jitterUs := 0, 0, 0, 0, 0, 0;
      highestSeq, expectedPackets, initialized, baseSeq := 0, 0, false, 0;
    }
  }
}
