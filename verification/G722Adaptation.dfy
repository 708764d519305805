/** How the G.722 predictor and its scale factor adapt, against the formulas of the recommendation in exact
    arithmetic: what the integer form rounds away. A coefficient of 1 is 2^14, a scale factor doubles every 2048. */
module G722Adaptation {
  import opened G722
  import opened G722Coder
  import R = G722Runs

  function Limited(x: int, limit: int): int {
    if x < -limit then -limit else if x > limit then limit else x
  }

  predicate Within(x: int, y: int, off: int) {
    -off <= x - y <= off
  }

  /** 1 for two of one sign, -1 otherwise. */
  function Agreement(x: i32, y: i32): int {
    if (x < 0) == (y < 0) then 1 else -1
  }

  lemma SignIs(x: i32)
    requires Is16(x)
    ensures Sign(x) == if x < 0 then -1 else 0
  {
  }

  // ----- The poles

  /** a2 moves from 127/128 of itself by 2^-7 with the signs of a signal two apart, and by 2^-7 of 4 a1, but 2 at
      most, against those of neighbours; and stays within 3/4. */
  lemma UpPol2Is(a1: i32, a2: i32, p0: i32, p1: i32, p2: i32)
    requires -27648 <= a1 <= 27648 && -12288 <= a2 <= 12288 && Is16(p0) && Is16(p1) && Is16(p2)
    ensures var exact := 127 * a2 as int + 128 * 128 * Agreement(p0, p2) - Agreement(p0, p1) * Limited(4 * a1 as int, 0x8000);
            Within(128 * UpPol2(a1, a2, Sign(p0), Sign(p1), Sign(p2)) as int, Limited(exact, 128 * 12288), 256)
  {
    SignIs(p0);
    SignIs(p1);
    SignIs(p2);
    hide Sign;
  }

  /** a1 moves from 255/256 of itself by 3 * 2^-8 with the signs of neighbours; and stays within 15/16 - a2. */
  lemma UpPol1Is(a1: i32, ap2: i32, p0: i32, p1: i32)
    requires -27648 <= a1 <= 27648 && -12288 <= ap2 <= 12288 && Is16(p0) && Is16(p1)
    ensures var exact := 255 * a1 as int + 256 * 192 * Agreement(p0, p1);
            Within(256 * UpPol1(a1, ap2, Sign(p0), Sign(p1)) as int, Limited(exact, 256 * (15360 - ap2 as int)), 256)
  {
    SignIs(p0);
    SignIs(p1);
    hide Sign;
  }

  // ----- The zeros

  /** A zero coefficient moves from 255/256 of itself by 2^-7 with the signs of the newest difference and its own,
      and only decays when the newest is nothing. */
  lemma UpZeroIs(b: i32, d: i32, newest: i32)
    requires Is16(b) && Is16(d) && Is16(newest)
    ensures var exact := 255 * b as int + if newest == 0 then 0 else 256 * 128 * Agreement(d, newest);
            Within(256 * UpZero(b, d, newest) as int, Limited(exact, 256 * 0x8000), 256)
  {
    SignIs(d);
    SignIs(newest);
    hide Sign;
  }

  // ----- The prediction

  predicate Half(x: i32) {
    -0x4000 <= x <= 0x3FFF
  }

  /** One tap, of a signal that doubles without limit, is the product, rounded down. */
  lemma TapIs(c: i32, x: i32)
    requires Is16(c) && Half(x)
    ensures 0x4000 * Tap(c, x) as int <= c as int * x as int < 0x4000 * Tap(c, x) as int + 0x4000
  {
    TwiceIs(c as int, x as int);
  }

  lemma TwiceIs(c: int, x: int)
    ensures c * (x + x) == 2 * (c * x)
  {
  }

  /** What the coefficients and histories, the newest first, predict, in 2^-14. */
  function Exactly(a: seq<i32>, r: seq<i32>, b: seq<i32>, d: seq<i32>): int
    requires |a| == |r| == 3 && |b| == |d| == 7
  {
    Poles(a, r) + Zeros(b, d)
  }

  function Poles(a: seq<i32>, r: seq<i32>): int
    requires |a| == |r| == 3
  {
    a[1] as int * r[1] as int + a[2] as int * r[2] as int
  }

  function Zeros(b: seq<i32>, d: seq<i32>): int
    requires |b| == |d| == 7
  {
    b[1] as int * d[1] as int + b[2] as int * d[2] as int + b[3] as int * d[3] as int
    + b[4] as int * d[4] as int + b[5] as int * d[5] as int + b[6] as int * d[6] as int
  }

  lemma FilterPolesIs(a: seq<i32>, r: seq<i32>)
    requires Stable(a) && All16(r, 3) && Half(r[1]) && Half(r[2])
    ensures -0x8000 * 0x4000 <= Poles(a, r) <= 0x7FFF * 0x4000 ==>
              Within(0x4000 * FilterPoles(a, r) as int, Poles(a, r), 2 * 0x4000)
  {
    hide Tap;
    TapIs(a[1], r[1]);
    TapIs(a[2], r[2]);
  }

  lemma FilterZerosIs(b: seq<i32>, d: seq<i32>)
    requires All16(b, 7) && All16(d, 7) && forall i :: 1 <= i < 7 ==> Half(d[i])
    ensures Within(0x4000 * FilterZeros(b, d, 1) as int, Zeros(b, d), 6 * 0x4000)
  {
    hide Tap;
    TapIs(b[1], d[1]);
    TapIs(b[2], d[2]);
    TapIs(b[3], d[3]);
    TapIs(b[4], d[4]);
    TapIs(b[5], d[5]);
    TapIs(b[6], d[6]);
    assert FilterZeros(b, d, 4) == Tap(b[6], d[6]) + Tap(b[5], d[5]) + Tap(b[4], d[4]);
    assert FilterZeros(b, d, 1) == FilterZeros(b, d, 4) + Tap(b[3], d[3]) + Tap(b[2], d[2]) + Tap(b[1], d[1]);
  }

  /** After difference `diff`: the histories have moved on by one, with what was reconstructed in front, and the
      prediction is what the new coefficients and the new histories make, within 8, when nothing is out of range. */
  lemma PredictionIs(band: Band, diff: i32)
    requires PredictorInRange(band) && Is16(diff)
    ensures var next := Predicted(band, diff);
            && next.d[1] == diff && next.r[1] == Saturate(band.s + diff) && next.p[1] == Saturate(band.sz + diff)
            && next.d[2..] == band.d[1..6] && next.r[2] == band.r[1] && next.p[2] == band.p[1]
            && (Half(next.r[1]) && Half(next.r[2]) && (forall i :: 1 <= i < 7 ==> Half(next.d[i]))
                && -0x7000 * 0x4000 <= Poles(next.a, next.r) <= 0x7000 * 0x4000
                && -0x7000 * 0x4000 <= Zeros(next.b, next.d) <= 0x7000 * 0x4000
                && -0x7000 * 0x4000 <= Exactly(next.a, next.r, next.b, next.d) <= 0x7000 * 0x4000 ==>
                  Within(0x4000 * next.s as int, Exactly(next.a, next.r, next.b, next.d), 8 * 0x4000))
  {
    PredictedInRange(band, diff);
    var next := Predicted(band, diff);
    PredictedFrom(band, diff);
    hide Predicted, FilterPoles, FilterZeros, Poles, Zeros;
    if Half(next.r[1]) && Half(next.r[2]) && forall i :: 1 <= i < 7 ==> Half(next.d[i]) {
      FilterPolesIs(next.a, next.r);
      FilterZerosIs(next.b, next.d);
    }
  }

  lemma PredictedFrom(band: Band, diff: i32)
    requires PredictorInRange(band) && Is16(diff)
    ensures PredictorInRange(Predicted(band, diff))
    ensures var next := Predicted(band, diff);
            && next.s == Saturate(FilterPoles(next.a, next.r) + Saturate(FilterZeros(next.b, next.d, 1)))
            && next.d[1] == diff && next.r[1] == Saturate(band.s + diff) && next.p[1] == Saturate(band.sz + diff)
            && next.d[2..] == band.d[1..6] && next.r[2] == band.r[1] && next.p[2] == band.p[1]
  {
    PredictedInRange(band, diff);
    hide UpZeros, UpPol1, UpPol2, FilterPoles, FilterZeros;
  }

  /** And the coefficients are the old ones, adapted as above to the signs of the new histories. */
  lemma CoefficientsAre(band: Band, diff: i32)
    requires PredictorInRange(band) && Is16(diff)
    ensures var next := Predicted(band, diff);
            && next.a[2] == UpPol2(band.a[1], band.a[2], Sign(next.p[1]), Sign(next.p[2]), Sign(band.p[2]))
            && next.a[1] == UpPol1(band.a[1], next.a[2], Sign(next.p[1]), Sign(next.p[2]))
            && forall i :: 1 <= i < 7 ==> next.b[i] == UpZero(band.b[i], band.d[i], diff)
  {
    hide UpZero, UpPol1, UpPol2, FilterPoles, FilterZeros;
  }

  // ----- The scale factor

  /** The logarithm moves from 127/128 of itself by the step of the code, and stays in range. */
  lemma NextLogIs(nb: i32, w: i32, maxNb: i32)
    requires 0 <= nb <= maxNb <= HIGH_MAX_NB && -214 <= w <= 3042
    ensures 0 <= NextLog(nb, w, maxNb) <= maxNb
    ensures var exact := 127 * nb as int + 128 * w as int;
            Within(128 * NextLog(nb, w, maxNb) as int,
                   if exact < 0 then 0 else if exact > 128 * maxNb as int then 128 * maxNb as int else exact, 128)
  {
  }

  /** The larger the difference a code stands for, the larger the step; its sign does not matter. */
  lemma StepsGrow(i: i32, j: i32)
    requires 0 < i < 16 && 0 < j < 16
    ensures Loud(Qm4(i)) <= Loud(Qm4(j)) ==> LowStep(i) <= LowStep(j)
    ensures Loud(Qm4(i)) < Loud(Qm4(j)) ==> LowStep(i) < LowStep(j)
  {
  }

  function Loud(x: i32): int {
    if x < 0 then -(x as int) else x as int
  }

  lemma HighStepsGrow(i: i32, j: i32)
    requires 0 <= i < 4 && 0 <= j < 4
    ensures Loud(QM2[i]) < Loud(QM2[j]) ==> HighStep(i) < 0 < HighStep(j)
    ensures Loud(QM2[i]) == Loud(QM2[j]) ==> HighStep(i) == HighStep(j)
  {
  }

  /** A 32nd further, and how many doublings short of the top. */
  lemma PlaceOf(nb: i32, shift: i32)
    requires OfOneBand(nb, shift)
    ensures ScaleFactor(nb, shift) == Antilog(nb / 64 % 32, shift - nb / 2048) * 4
  {
  }

  lemma Octave(nb: int)
    requires 0 <= nb
    ensures (nb + 2048) / 2048 == nb / 2048 + 1 && (nb + 2048) / 64 % 32 == nb / 64 % 32
  {
    assert (nb + 2048) / 64 == nb / 64 + 32;
  }

  lemma AntilogDoubles(m: i32, k: i32)
    requires 0 <= m < 32 && 0 <= k <= 10
    ensures 2 * Antilog(m, k) <= Antilog(m, k - 1) <= 2 * Antilog(m, k) + 1
  {
    hide Mantissa;
  }

  /** The scale factor doubles every 2048, and is what it should be at both ends. */
  lemma ScaleDoubles(nb: i32, shift: i32)
    requires OfOneBand(nb, shift) && OfOneBand(nb + 2048, shift)
    ensures 2 * ScaleFactor(nb, shift) <= ScaleFactor(nb + 2048, shift) <= 2 * ScaleFactor(nb, shift) + 4
  {
    hide Antilog, ScaleFactor;
    PlaceOf(nb, shift);
    PlaceOf(nb + 2048, shift);
    Octave(nb as int);
    AntilogDoubles(nb / 64 % 32, shift - nb / 2048);
  }

  lemma ScaleEnds()
    ensures ScaleFactor(0, LOW_SHIFT) == 32 && ScaleFactor(0, HIGH_SHIFT) == 8
    ensures ScaleFactor(LOW_MAX_NB, LOW_SHIFT) == 16384 && ScaleFactor(HIGH_MAX_NB, HIGH_SHIFT) == 16384
  {
  }

  lemma AntilogGrows(m: i32, k: i32)
    requires 0 <= m < 31 && 0 <= k <= 10
    ensures Antilog(m, k) <= Antilog(m + 1, k)
  {
    MantissasGrow(m);
    hide Mantissa;
  }

  lemma MantissasGrow(m: i32)
    requires 0 <= m < 31
    ensures Mantissa(m) < Mantissa(m + 1)
  {
  }

  lemma AntilogCarries(k: i32)
    requires 0 <= k <= 10
    ensures Antilog(31, k) <= Antilog(0, k - 1)
  {
  }

  lemma OneFurther(nb: int)
    requires 0 <= nb
    ensures var (m, q, m', q') := (nb / 64 % 32, nb / 2048, (nb + 1) / 64 % 32, (nb + 1) / 2048);
            (m' == m && q' == q) || (m' == m + 1 && q' == q) || (m == 31 && m' == 0 && q' == q + 1)
  {
    InTwoSteps(nb);
    InTwoSteps(nb + 1);
    OneCarry(nb / 64);
    assert (nb + 1) / 64 == nb / 64 || (nb + 1) / 64 == nb / 64 + 1;
  }

  lemma InTwoSteps(nb: int)
    requires 0 <= nb
    ensures nb / 2048 == nb / 64 / 32
  {
  }

  lemma OneCarry(c: int)
    requires 0 <= c
    ensures if c % 32 == 31 then (c + 1) % 32 == 0 && (c + 1) / 32 == c / 32 + 1
            else (c + 1) % 32 == c % 32 + 1 && (c + 1) / 32 == c / 32
  {
  }

  /** It never falls as the logarithm grows. */
  lemma ScaleGrows(nb: i32, shift: i32)
    requires OfOneBand(nb, shift) && OfOneBand(nb + 1, shift)
    ensures ScaleFactor(nb, shift) <= ScaleFactor(nb + 1, shift)
  {
    hide Antilog, ScaleFactor;
    PlaceOf(nb, shift);
    PlaceOf(nb + 1, shift);
    OneFurther(nb as int);
    var m, k := nb / 64 % 32, shift - nb / 2048;
    if m < 31 { AntilogGrows(m, k); } else { AntilogCarries(k); }
  }

  /** The steps of a 32nd in between are even: each is, as a factor, the mean of its neighbours, but for rounding. */
  lemma MantissasAreEven(m: i32)
    requires 1 <= m < 31
    ensures Even(m)
  {
    if m <= 8 { FirstMantissas(m); } else if m <= 16 { SecondMantissas(m); } else if m <= 24 { ThirdMantissas(m); }
    else { LastMantissas(m); }
    hide Even;
  }

  predicate Even(m: i32)
    requires 1 <= m < 31
  {
    Within(Mantissa(m) as int * Mantissa(m) as int, Mantissa(m - 1) as int * Mantissa(m + 1) as int, 5329)
  }

  lemma FirstMantissas(m: i32)
    requires 1 <= m <= 8
    ensures Even(m)
  {
  }

  lemma SecondMantissas(m: i32)
    requires 9 <= m <= 16
    ensures Even(m)
  {
  }

  lemma ThirdMantissas(m: i32)
    requires 17 <= m <= 24
    ensures Even(m)
  {
  }

  lemma LastMantissas(m: i32)
    requires 25 <= m < 31
    ensures Even(m)
  {
  }

  // ----- What the codes stand for

  /** A code stands for a difference of the sign it was chosen for, overload included. */
  lemma SignIsKept(el: i32, det: i32)
    requires Is16(el) && 32 <= det <= 16384
    ensures el < 0 <==> LowDifference6(LowCode(el, det), det) < 0
  {
    var mil := Interval(OnesMagnitude(el), det, 1);
    LowSign(IntervalCode(el < 0, mil), el < 0, mil);
    hide Interval, IntervalCode, Qm6;
    SignOfProduct(det as int, Qm6(IntervalCode(el < 0, mil)) as int);
  }

  lemma SignOfProduct(det: int, q: int)
    requires det > 0 && q != 0
    ensures det * q / 0x8000 < 0 <==> q < 0
  {
    if q > 0 { assert det * q > 0; } else { assert det * -q > 0 && det * q == -(det * -q); }
  }

  /** So in the high band; and beyond the inner interval the code stands for the larger difference. */
  lemma HighSignIsKept(eh: i32, det: i32)
    requires Is16(eh) && 8 <= det <= 16384
    ensures eh < 0 <==> HighDifference(HighCode(eh, det), det) < 0
    ensures Loud(QM2[HighCode(eh, det)]) == if OnesMagnitude(eh) >= 564 * det / 0x1000 then 7408 else 1616
  {
    SignOfProduct(det as int, QM2[HighCode(eh, det)] as int);
  }

  lemma LowSign(code: i32, negative: bool, mil: int)
    requires 1 <= mil <= 30 && code == IntervalCode(negative, mil)
    ensures if negative then Qm6(code) < 0 else Qm6(code) > 0
  {
    hide Qm6, IntervalCode;
    if mil < 30 {
      R.PointsInside(mil);
    } else {
      Overload();
    }
  }

  /** In overload, the largest difference there is. */
  lemma Overload()
    ensures IntervalCode(false, 30) == 32 && IntervalCode(true, 30) == 4
    ensures Qm6(32) == 24808 && Qm6(4) == -24808 && forall code: i32 :: 0 <= code < 64 ==> -24808 <= Qm6(code) <= 24808
  {
  }

  /** What the predictor sees of a code is between the differences its four codes stand for. */
  lemma CoarseIsBetween(code: i32)
    requires 1 <= code < 16
    ensures Qm6(4 * code) <= Qm4(code) <= Qm6(4 * code + 3) || Qm6(4 * code + 3) <= Qm4(code) <= Qm6(4 * code)
  {
    if code < 8 { CoarseNegative(code); } else { CoarsePositive(code); }
    hide Qm6, Qm4;
  }

  lemma CoarseNegative(code: i32)
    requires 1 <= code < 8
    ensures Qm6(4 * code) <= Qm4(code) <= Qm6(4 * code + 3)
  {
  }

  lemma CoarsePositive(code: i32)
    requires 8 <= code < 16
    ensures Qm6(4 * code + 3) <= Qm4(code) <= Qm6(4 * code)
  {
  }

  /** A code adapts a band by its coarse difference at the scale factor it was coded with; the step for the next is
      taken besides. */
  lemma AdaptLowIs(low: Band, ilow: i32)
    requires LowInRange(low) && 0 <= ilow < 64
    ensures var next := AdaptLow(low, ilow);
            && 0x8000 * next.d[1] as int <= low.det as int * Qm4(ilow / 4) as int < 0x8000 * next.d[1] as int + 0x8000
            && next.nb == NextLog(low.nb, LowStep(ilow / 4), LOW_MAX_NB) && next.det == ScaleFactor(next.nb, LOW_SHIFT)
            && next == Predicted(low, next.d[1]).(nb := next.nb, det := next.det)
  {
    hide ScaleFactor, NextLog, LowStep, Qm4, UpZeros, UpPol1, UpPol2, FilterPoles, FilterZeros;
  }

  lemma AdaptHighIs(high: Band, ihigh: i32)
    requires HighInRange(high) && 0 <= ihigh < 4
    ensures var next := AdaptHigh(high, ihigh);
            && 0x8000 * next.d[1] as int <= high.det as int * QM2[ihigh] as int < 0x8000 * next.d[1] as int + 0x8000
            && next.nb == NextLog(high.nb, HighStep(ihigh), HIGH_MAX_NB) && next.det == ScaleFactor(next.nb, HIGH_SHIFT)
            && next == Predicted(high, next.d[1]).(nb := next.nb, det := next.det)
  {
    hide ScaleFactor, NextLog, HighStep, UpZeros, UpPol1, UpPol2, FilterPoles, FilterZeros;
  }
}
