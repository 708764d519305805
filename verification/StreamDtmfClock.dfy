/** Telephone-event timestamps on a clock of their own. The sender converts its wrapped audio
    timestamp; the receiver compares two of the results in signed 32 bits. When it can tell which of
    two presses came later is a matter of the two clock rates and of where the audio timestamp wraps. */
module StreamDtmfClock {
  import opened Bytes
  import opened StreamConfig
  import opened StreamSender
  import R = StreamReceiver

  const HALF_RANGE := 0x8000_0000

  /** Audio time `t`, counted without wrap, as the conversion sees it: wrapped first, then scaled. */
  function Converted(config: Config, t: nat): nat {
    Scaled(t % TWO32, config.dtmfClockRate, config.codec.ClockRate())
  }

  function Scaled(x: nat, event: nat, audio: nat): nat
    requires audio > 0
  {
    x * event / audio
  }

  /** Less than 2^31 event ticks from one audio time to a later one. */
  predicate Near(config: Config, first: nat, later: nat) {
    var elapsed, event, audio: int := later - first, config.dtmfClockRate, config.codec.ClockRate();
    elapsed * event <= (HALF_RANGE - 1) * audio
  }

  /** What the order of two presses hangs on. In one cycle of the audio timestamp: that the converted
      times are an event tick or more, and less than half the 32-bit range apart. Across its wrap: that
      the conversion falls by more than half the range, which is what makes the receiver take the fall
      for a wrap of its own clock. */
  predicate ClockTells(config: Config, first: nat, later: nat) {
    if first / TWO32 == later / TWO32 then 0 < (Converted(config, later) - Converted(config, first)) % TWO32 < HALF_RANGE
    else (Converted(config, first) - Converted(config, later)) % TWO32 > HALF_RANGE
  }

  // ----- Arithmetic

  lemma RatesAre(config: Config)
    ensures config.codec.ClockRate() == 8000 || config.codec.ClockRate() == 48000
  {
  }

  lemma FactorCancels(x: nat, a: nat)
    requires a == 8000 || a == 48000
    ensures x * a / a == x
  {
    if a == 8000 {
      assert x * 8000 / 8000 == x;
    }
  }

  lemma ProductGrows(x: int, y: int, a: int)
    requires x <= y && a >= 0
    ensures x * a <= y * a && (x < y && a > 0 ==> x * a < y * a)
  {
  }

  /** Dividing keeps order, and `n` divisors more make the quotient exactly `n` more. */
  lemma QuotientGrows(x: int, y: int, n: int, a: int)
    requires a == 8000 || a == 48000
    ensures x <= y ==> x / a <= y / a
    ensures (x + n * a) / a == x / a + n
  {
    if a == 8000 {
      assert (x + n * 8000) / 8000 == x / 8000 + n;
    } else {
      assert (x + n * 48000) / 48000 == x / 48000 + n;
    }
  }

  lemma ScaledGrows(x: nat, y: nat, event: nat, audio: nat)
    requires (audio == 8000 || audio == 48000) && x <= y
    ensures Scaled(x, event, audio) <= Scaled(y, event, audio)
    ensures (y - x) * event <= (HALF_RANGE - 1) * audio ==> Scaled(y, event, audio) - Scaled(x, event, audio) < HALF_RANGE
    ensures (y - x) * event >= audio ==> Scaled(x, event, audio) < Scaled(y, event, audio)
  {
    assert y * event == x * event + (y - x) * event;
    ProductGrows(x, y, event);
    QuotientGrows(x * event, y * event, 1, audio);
    QuotientGrows(x * event + 1 * audio, y * event, 1, audio);
    QuotientGrows(y * event, x * event + (HALF_RANGE - 1) * audio, 1, audio);
    QuotientGrows(x * event, y * event, HALF_RANGE - 1, audio);
  }

  lemma Opposite(z: int)
    ensures 0 < z % TWO32 < HALF_RANGE <==> -z % TWO32 > HALF_RANGE
  {
    var q, r := z / TWO32, z % TWO32;
    assert -z == TWO32 - r + (-q - 1) * TWO32;
    MultipleVanishes(TWO32 - r, -q - 1);
  }

  lemma DifferenceWraps(a: nat, b: nat)
    ensures (a % TWO32 - b % TWO32) % TWO32 == (a - b) % TWO32
  {
  }

  lemma SmallIsItself(z: int)
    requires 0 <= z < TWO32
    ensures z % TWO32 == z
  {
  }

  /** Where two times are in their cycles. */
  lemma InCycles(first: nat, later: nat)
    requires first < later
    ensures var x, y := first % TWO32, later % TWO32;
            && (first / TWO32 == later / TWO32 ==> y - x == later - first)
            && (first / TWO32 != later / TWO32 && later < first + TWO32 ==> y < x)
  {
  }

  // ----- What the receiver can tell

  /** The conversion as the sender does it, in 64 bits and then cut to 32. */
  lemma StampIsConverted(config: Config, t: nat)
    ensures DtmfTimestamp(config, t % TWO32) == Converted(config, t) % TWO32
  {
    RatesAre(config);
    if config.codec.ClockRate() == config.dtmfClockRate {
      FactorCancels(t % TWO32, config.codec.ClockRate());
      SmallIsItself(t % TWO32);
    }
  }

  lemma NewerByDifference(a: nat, b: nat)
    ensures R.IsNewer(a % TWO32, b % TWO32) <==> 0 < (a - b) % TWO32 < HALF_RANGE
  {
    DifferenceWraps(a, b);
  }

  /** Signed 32-bit comparison orders times less than 2^31 apart, across wrap. */
  lemma NewerIff(a: nat, b: nat)
    requires -HALF_RANGE < a - b < HALF_RANGE
    ensures R.IsNewer(a % TWO32, b % TWO32) <==> a > b
  {
    NewerByDifference(a, b);
  }

  /** For every pair of clocks and any two times: the later is newer to the receiver exactly when
      `ClockTells`. */
  lemma ClockTellsIff(config: Config, first: nat, later: nat)
    ensures R.IsNewer(DtmfTimestamp(config, later % TWO32), DtmfTimestamp(config, first % TWO32))
       <==> ClockTells(config, first, later)
  {
    hide DtmfTimestamp, R.IsNewer, Scaled;
    StampIsConverted(config, first);
    StampIsConverted(config, later);
    var c: int, d: int := Converted(config, first), Converted(config, later);
    NewerByDifference(d, c);
    Opposite(d - c);
  }

  /** Newer is one way: what the receiver takes for later it does not take for earlier. */
  lemma NewerIsOneWay(a: u32, b: u32)
    ensures R.IsNewer(a, b) ==> !R.IsNewer(b, a)
    ensures !R.IsNewer(a, a)
  {
  }

  // ----- Clock by clock

  /** Within one cycle of the audio timestamp any event clock does, from one event tick between the
      presses up to 2^31. */
  lemma OneCycleTells(config: Config, first: nat, later: nat)
    requires first < later && first / TWO32 == later / TWO32 && Near(config, first, later)
    requires (later - first) * config.dtmfClockRate >= config.codec.ClockRate()
    ensures ClockTells(config, first, later)
  {
    hide Scaled;
    RatesAre(config);
    InCycles(first, later);
    ScaledGrows(first % TWO32, later % TWO32, config.dtmfClockRate, config.codec.ClockRate());
    SmallIsItself(Converted(config, later) - Converted(config, first));
  }

  /** For event clocks up to the audio clock that is exact: the converted times themselves tell. */
  lemma OneCycleTellsIff(config: Config, first: nat, later: nat)
    requires config.dtmfClockRate <= config.codec.ClockRate()
    requires first < later && first / TWO32 == later / TWO32
    ensures ClockTells(config, first, later)
       <==> Converted(config, first) < Converted(config, later) < Converted(config, first) + HALF_RANGE
  {
    hide Scaled;
    RatesAre(config);
    InCycles(first, later);
    ScaledGrows(first % TWO32, later % TWO32, config.dtmfClockRate, config.codec.ClockRate());
    ScaledBelow(later % TWO32, config.dtmfClockRate, config.codec.ClockRate(), TWO32);
    SmallIsItself(Converted(config, later) - Converted(config, first));
  }

  /** An event clock no faster than the audio clock, and a press in the cycle after: it is newer
      exactly when its converted time is more than 2^31 below that of the press before. */
  lemma SlowerClockIff(config: Config, first: nat, later: nat)
    requires config.dtmfClockRate <= config.codec.ClockRate()
    requires first < later < first + TWO32 && first / TWO32 != later / TWO32
    ensures ClockTells(config, first, later) <==> Converted(config, first) - Converted(config, later) > HALF_RANGE
  {
    hide Scaled;
    RatesAre(config);
    InCycles(first, later);
    ScaledGrows(later % TWO32, first % TWO32, config.dtmfClockRate, config.codec.ClockRate());
    ScaledBelow(first % TWO32, config.dtmfClockRate, config.codec.ClockRate(), TWO32);
    SmallIsItself(Converted(config, first) - Converted(config, later));
  }

  /** Scaling by no more than limit / 2^32 leaves less than the limit. */
  lemma ScaledBelow(x: u32, event: nat, audio: nat, limit: nat)
    requires (audio == 8000 || audio == 48000) && limit > 0 && TWO32 * event <= limit * audio
    ensures Scaled(x, event, audio) < limit
  {
    var t: int := x;
    if event == 0 {
      assert t * event == 0;
    } else {
      ProductGrows(t, TWO32, event);
      assert t * event < limit * audio;
      QuotientBelow(t * event, limit, audio);
    }
  }

  lemma QuotientBelow(x: int, limit: int, a: int)
    requires (a == 8000 || a == 48000) && x < limit * a
    ensures x / a < limit
  {
    if a == 8000 {
      assert x / 8000 < limit;
    }
  }

  /** At half the audio clock or slower that is never so. Of presses within 2^32 audio ticks, with an
      event tick between them, the later is newer exactly when the audio timestamp does not wrap. */
  lemma SlowEventClockIff(config: Config, first: nat, later: nat)
    requires 2 * config.dtmfClockRate <= config.codec.ClockRate()
    requires first < later < first + TWO32
    requires (later - first) * config.dtmfClockRate >= config.codec.ClockRate()
    ensures R.IsNewer(DtmfTimestamp(config, later % TWO32), DtmfTimestamp(config, first % TWO32))
       <==> first / TWO32 == later / TWO32
  {
    hide Scaled, R.IsNewer, DtmfTimestamp;
    RatesAre(config);
    InCycles(first, later);
    StampIsConverted(config, first);
    StampIsConverted(config, later);
    var x: int, y: int, event, audio := first % TWO32, later % TWO32, config.dtmfClockRate, config.codec.ClockRate();
    ScaledBelow(x, event, audio, HALF_RANGE);
    ScaledBelow(y, event, audio, HALF_RANGE);
    NewerIff(Converted(config, later), Converted(config, first));
    if first / TWO32 == later / TWO32 {
      ScaledGrows(x, y, event, audio);
    } else {
      ScaledGrows(y, x, event, audio);
    }
  }

  /** A clock slower than the audio clock may yet tell presses apart across a wrap, and a faster one
      may not. */
  lemma NotBySpeedAlone(slower: Config, faster: Config)
    requires slower.codec == Opus && slower.dtmfClockRate == 32000
    requires faster.codec == Pcmu && faster.dtmfClockRate == 12000
    ensures ClockTells(slower, 0xFFFF_8000, 0xFFFF_8000 + 48000)
    ensures !ClockTells(faster, 0xFFFF_F000, 0xFFFF_F000 + 8000)
  {
  }

  /** Event ticks to an audio tick, when the event clock is the audio clock or a multiple of it. */
  function Ratio(config: Config): nat {
    config.dtmfClockRate / config.codec.ClockRate()
  }

  predicate WholeClocks(config: Config) {
    config.dtmfClockRate > 0 && config.dtmfClockRate % config.codec.ClockRate() == 0
  }

  /** Such a conversion commutes with the wrap of both clocks. */
  lemma ConvertsAcrossWrap(config: Config, t: nat)
    requires WholeClocks(config)
    ensures Ratio(config) > 0
    ensures DtmfTimestamp(config, t % TWO32) == Ratio(config) * t % TWO32
  {
    var k, wrapped := Ratio(config), t % TWO32;
    RatesAre(config);
    StampIsConverted(config, t);
    assert config.dtmfClockRate == k * config.codec.ClockRate();
    assert wrapped * (k * config.codec.ClockRate()) == wrapped * k * config.codec.ClockRate();
    FactorCancels(wrapped * k, config.codec.ClockRate());
    ProductWraps(k, t);
  }

  lemma ProductWraps(k: nat, t: nat)
    ensures t % TWO32 * k % TWO32 == k * t % TWO32
  {
    var q, m := t / TWO32, t % TWO32;
    assert k * t == m * k + (k * q) * TWO32 by {
      assert t == q * TWO32 + m;
      assert k * t == k * (q * TWO32) + k * m;
      assert k * (q * TWO32) == (k * q) * TWO32;
    }
    MultipleVanishes(m * k, k * q);
  }

  lemma MultipleVanishes(x: int, q: int)
    ensures (x + q * TWO32) % TWO32 == x % TWO32
  {
  }

  /** So the wrap of the audio timestamp does not matter, only the event ticks that pass: the later is
      newer exactly when they are, modulo 2^32, more than none and less than 2^31. */
  lemma WholeClocksTellIff(config: Config, first: nat, later: nat)
    requires WholeClocks(config) && first < later
    ensures ClockTells(config, first, later) <==> 0 < Ratio(config) * (later - first) % TWO32 < HALF_RANGE
  {
    hide DtmfTimestamp, R.IsNewer, Converted;
    var k := Ratio(config);
    ConvertsAcrossWrap(config, first);
    ConvertsAcrossWrap(config, later);
    assert k * later - k * first == k * (later - first);
    NewerByDifference(k * later, k * first);
    ClockTellsIff(config, first, later);
  }

  /** In particular when they are less than 2^31 in all, over any number of wraps. */
  lemma WholeClocksTell(config: Config, first: nat, later: nat)
    requires WholeClocks(config) && first < later && Near(config, first, later)
    ensures ClockTells(config, first, later)
  {
    hide Converted;
    var k, audio: int := Ratio(config), config.codec.ClockRate();
    RatesAre(config);
    ConvertsAcrossWrap(config, first);
    assert config.dtmfClockRate == k * audio;
    WholeTicks(later - first, k, audio);
    SmallIsItself(k * (later - first));
    WholeClocksTellIff(config, first, later);
  }

  lemma WholeTicks(elapsed: int, k: int, audio: int)
    requires (audio == 8000 || audio == 48000) && elapsed > 0 && k > 0
    requires elapsed * (k * audio) <= (HALF_RANGE - 1) * audio
    ensures 0 < k * elapsed < HALF_RANGE
  {
    ProductGrows(0, elapsed, k);
    assert elapsed * (k * audio) == (k * elapsed) * audio;
  }
}
