/** The G.722 coder and decoder over two sub-bands, one byte at a time. */
module G722Coder {
  import opened Bytes
  import opened G722

  type Sample = x: i32 | -0x8000 <= x <= 0x7FFF

  // ----- The quadrature mirror filters

  /** The taps on even-numbered samples, the first `n` of 12. */
  function SumOdd(x: seq<i32>, n: nat): (sum: i32)
    requires All16(x, 24) && n <= 12
    ensures -(0x8000 * MassOdd(n)) <= sum as int <= 0x8000 * MassOdd(n)
  {
    if n == 0 then 0
    else
      MassOddBound(n);
      SumOdd(x, n - 1) + Mul(QMF[n - 1], x[2 * n - 2], Magnitude(n - 1), 0x8000)
  }

  /** The taps on odd-numbered samples. */
  function SumEven(x: seq<i32>, n: nat): (sum: i32)
    requires All16(x, 24) && n <= 12
    ensures -(0x8000 * MassEven(n)) <= sum as int <= 0x8000 * MassEven(n)
  {
    if n == 0 then 0
    else
      MassEvenBound(n);
      SumEven(x, n - 1) + Mul(QMF[12 - n], x[2 * n - 1], Magnitude(12 - n), 0x8000)
  }

  ghost function Magnitude(i: nat): int
    requires i < 12
  {
    if QMF[i] < 0 then -QMF[i] as int else QMF[i] as int
  }

  ghost function MassOdd(n: nat): int
    requires n <= 12
  {
    if n == 0 then 0 else MassOdd(n - 1) + Magnitude(n - 1)
  }

  ghost function MassEven(n: nat): int
    requires n <= 12
  {
    if n == 0 then 0 else MassEven(n - 1) + Magnitude(12 - n)
  }

  lemma MassOddBound(n: nat)
    requires n <= 12
    ensures MassOdd(n) <= 6482
  {
    assert MassOdd(4) == 58;
    assert MassOdd(8) == 58 + 5842;
    assert MassOdd(12) == 6482;
    if n < 12 { MassOddMonotone(n); }
  }

  lemma {:induction false} MassOddMonotone(n: nat)
    requires n <= 12
    ensures MassOdd(n) <= MassOdd(12)
    decreases 12 - n
  {
    if n < 12 { MassOddMonotone(n + 1); }
  }

  lemma MassEvenBound(n: nat)
    requires n <= 12
    ensures MassEven(n) <= 6482
  {
    assert MassEven(4) == 582;
    assert MassEven(8) == 582 + 5842;
    assert MassEven(12) == 6482;
    if n < 12 { MassEvenMonotone(n); }
  }

  lemma {:induction false} MassEvenMonotone(n: nat)
    requires n <= 12
    ensures MassEven(n) <= MassEven(12)
    decreases 12 - n
  {
    if n < 12 { MassEvenMonotone(n + 1); }
  }

  /** Shift two new samples into the filter history. */
  function Shifted(x: seq<i32>, first: i32, second: i32): (x': seq<i32>)
    requires All16(x, 24) && Is16(first) && Is16(second)
    ensures All16(x', 24)
  {
    x[2..] + [first, second]
  }

  // ----- Quantizers

  /** The lower bound of decision interval `i + 1`, at scale factor `det`. */
  function Level(i: nat, det: i32): (level: i32)
    requires i < 30 && 0 <= det <= 16384
    ensures 0 <= level
  {
    Mul(DecisionLevel(i), det, 2919, 16384) / 0x1000
  }

  /** The first decision interval from `i` on whose upper bound is above `wd`; 30 is overload. */
  function Interval(wd: i32, det: i32, i: nat): (mil: nat)
    requires 1 <= i <= 30 && 0 <= det <= 16384
    ensures i <= mil <= 30
    decreases 30 - i
  {
    if i < 30 && wd >= Level(i, det) then Interval(wd, det, i + 1) else i
  }

  /** The magnitude that is compared with the levels: one's complement for negatives. */
  function OnesMagnitude(e: i32): i32
    requires Is16(e)
  {
    if e >= 0 then e else -(e + 1)
  }

  function LowCode(el: i32, det: i32): (ilow: i32)
    requires Is16(el) && 0 <= det <= 16384
    ensures 4 <= ilow <= 63
  {
    IntervalCode(el < 0, Interval(OnesMagnitude(el), det, 1))
  }

  function HighCode(eh: i32, det: i32): (ihigh: i32)
    requires Is16(eh) && 0 <= det <= 16384
    ensures 0 <= ihigh <= 3
  {
    var mih := if OnesMagnitude(eh) >= 564 * det / 0x1000 then 2 else 1;
    if eh < 0 then IHN[mih] else IHP[mih]
  }

  /** The difference the low band code stands for: with all 6 bits, and with the 4 that drive
      adaptation. */
  function LowDifference6(ilow: i32, det: i32): (d: i32)
    requires 0 <= ilow < 64 && 0 <= det <= 16384
    ensures Is16(d)
  {
    Mul(det, Qm6(ilow), 16384, 24808) / 0x8000
  }

  function LowDifference4(ilow: i32, det: i32): (d: i32)
    requires 0 <= ilow < 64 && 0 <= det <= 16384
    ensures Is16(d)
  {
    Mul(det, Qm4(ilow / 4), 16384, 20456) / 0x8000
  }

  function HighDifference(ihigh: i32, det: i32): (d: i32)
    requires 0 <= ihigh < 4 && 0 <= det <= 16384
    ensures Is16(d)
  {
    Mul(det, QM2[ihigh], 16384, 7408) / 0x8000
  }

  // ----- Adaptation, common to both ends

  function AdaptLow(low: Band, ilow: i32): (low': Band)
    requires LowInRange(low) && 0 <= ilow < 64
    ensures LowInRange(low')
  {
    var dlow := LowDifference4(ilow, low.det);
    var scaled := Scaled(low, LowStep(ilow / 4), LOW_MAX_NB, LOW_SHIFT);
    PredictedInRange(scaled, dlow);
    Predicted(scaled, dlow)
  }

  function AdaptHigh(high: Band, ihigh: i32): (high': Band)
    requires HighInRange(high) && 0 <= ihigh < 4
    ensures HighInRange(high')
  {
    var dhigh := HighDifference(ihigh, high.det);
    var scaled := Scaled(high, HighStep(ihigh), HIGH_MAX_NB, HIGH_SHIFT);
    PredictedInRange(scaled, dhigh);
    Predicted(scaled, dhigh)
  }

  // ----- Encoder

  /** Filter history and the two bands; an encoder and a decoder hold the same. */
  datatype Codec = Codec(x: seq<i32>, low: Band, high: Band)

  const FRESH_X: seq<i32> := [0, 0, 0, 0, 0, 0, 0, 0] + [0, 0, 0, 0, 0, 0, 0, 0] + [0, 0, 0, 0, 0, 0, 0, 0]
  const FRESH := Codec(FRESH_X, NewBand(32), NewBand(8))

  predicate InRange(c: Codec) {
    All16(c.x, 24) && LowInRange(c.low) && HighInRange(c.high)
  }

  /** The low and high sub-band samples for the filter history. */
  function Analyze(x: seq<i32>): (bands: (i32, i32))
    requires All16(x, 24)
    ensures -25928 <= bands.0 <= 25928 && -25928 <= bands.1 <= 25928
  {
    MassOddBound(12); MassEvenBound(12);
    var even, odd := SumEven(x, 12), SumOdd(x, 12);
    ((even + odd) / 0x4000, (even - odd) / 0x4000)
  }

  function ToSample(x: i32): Sample {
    Saturate(x)
  }

  /** The two output samples for the filter history, first and second. */
  function Synthesize(x: seq<i32>): (Sample, Sample)
    requires All16(x, 24)
  {
    (ToSample(SumEven(x, 12) / 0x800), ToSample(SumOdd(x, 12) / 0x800))
  }

  /** The codes for the two samples just shifted in. */
  function Codes(c: Codec): (codes: (i32, i32))
    requires InRange(c)
    ensures 4 <= codes.0 <= 63 && 0 <= codes.1 <= 3
  {
    var (xlow, xhigh) := Analyze(c.x);
    (LowCode(Saturate(xlow - c.low.s), c.low.det), HighCode(Saturate(xhigh - c.high.s), c.high.det))
  }

  function EncodePair(c: Codec, first: Sample, second: Sample): (result: (Codec, byte))
    requires InRange(c)
    ensures InRange(result.0)
  {
    var c1 := c.(x := Shifted(c.x, first, second));
    var (ilow, ihigh) := Codes(c1);
    (Codec(c1.x, AdaptLow(c1.low, ilow), AdaptHigh(c1.high, ihigh)), (ihigh * 64 + ilow) as int)
  }

  // ----- Decoder

  /** The two sub-band samples a pair of codes stands for. */
  function Reconstructed(c: Codec, ilow: i32, ihigh: i32): (r: (i32, i32))
    requires InRange(c) && 0 <= ilow < 64 && 0 <= ihigh < 4
    ensures -16384 <= r.0 <= 16383 && -16384 <= r.1 <= 16383
  {
    (Clamp(c.low.s + LowDifference6(ilow, c.low.det), -16384, 16383),
     Clamp(HighDifference(ihigh, c.high.det) + c.high.s, -16384, 16383))
  }

  function DecodeByte(c: Codec, code: byte): (result: (Codec, seq<Sample>))
    requires InRange(c)
    ensures InRange(result.0) && |result.1| == 2
  {
    var ilow, ihigh := (code % 64) as i32, (code / 64) as i32;
    var (rlow, rhigh) := Reconstructed(c, ilow, ihigh);
    var x := Shifted(c.x, rlow + rhigh, rlow - rhigh);
    var (out1, out2) := Synthesize(x);
    (Codec(x, AdaptLow(c.low, ilow), AdaptHigh(c.high, ihigh)), [out1, out2])
  }
}
