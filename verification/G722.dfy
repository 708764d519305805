/** G.722 at 64 kbit/s in the integer form of the reference implementation: the quantizers, the
    adaptive predictor of one sub-band, and the coder and decoder built from two of them.

    All arithmetic is in `i32`, so that every intermediate result of every reachable state
    fitting 32 bits is part of what is proved. A shift right is a division rounding down. */
module G722 {
  newtype i32 = x: int | -0x8000_0000 <= x <= 0x7FFF_FFFF

  /** The mirror filter's coefficients: half of its 24, the other half being the same in reverse. */
  const QMF: seq<i32> := [3, -11, 12, 32, -210, 951] + [3876, -805, 362, -156, 53, -11]

  /** Where the intervals of the low band quantizer end, before scaling. */
  const Q6: seq<i32> :=
    [0, 35, 72, 110, 150, 190, 233, 276] + [323, 370, 422, 473, 530, 587, 650, 714]
    + [786, 858, 940, 1023, 1121, 1219, 1339, 1458] + [1612, 1765, 1980, 2195, 2557, 2919, 0, 0]
  /** What is sent for an interval below zero. */
  const ILN: seq<i32> :=
    [0, 63, 62, 31, 30, 29, 28, 27] + [26, 25, 24, 23, 22, 21, 20, 19]
    + [18, 17, 16, 15, 14, 13, 12, 11] + [10, 9, 8, 7, 6, 5, 4, 0]
  /** What is sent for one above. */
  const ILP: seq<i32> :=
    [0, 61, 60, 59, 58, 57, 56, 55] + [54, 53, 52, 51, 50, 49, 48, 47]
    + [46, 45, 44, 43, 42, 41, 40, 39] + [38, 37, 36, 35, 34, 33, 32, 0]
  /** How far a low band code moves the logarithm of the scale factor. */
  const WL: seq<i32> := [-60, -30, 58, 172, 334, 538, 1198, 3042]
  /** Which entry of `WL` belongs to the upper four bits of a code. */
  const RL42: seq<i32> := [0, 7, 6, 5, 4, 3, 2, 1] + [7, 6, 5, 4, 3, 2, 1, 0]
  /** Powers of two in steps of a 32nd, times 2048. */
  const ILB: seq<i32> :=
    [2048, 2093, 2139, 2186, 2233, 2282, 2332, 2383] + [2435, 2489, 2543, 2599, 2656, 2714, 2774, 2834]
    + [2896, 2960, 3025, 3091, 3158, 3228, 3298, 3371] + [3444, 3520, 3597, 3676, 3756, 3838, 3922, 4008]
  /** What the upper four bits of a low band code stand for: all the predictor sees of it. */
  const QM4: seq<i32> :=
    [0, -20456, -12896, -8968, -6288, -4240, -2584, -1200] + [20456, 12896, 8968, 6288, 4240, 2584, 1200, 0]
  /** What all six bits stand for. */
  const QM6: seq<i32> :=
    [-136, -136, -136, -136, -24808, -21904, -19008, -16704]
    + [-14984, -13512, -12280, -11192, -10232, -9360, -8576, -7856]
    + [-7192, -6576, -6000, -5456, -4944, -4464, -4008, -3576]
    + [-3168, -2776, -2400, -2032, -1688, -1360, -1040, -728]
    + [24808, 21904, 19008, 16704, 14984, 13512, 12280, 11192]
    + [10232, 9360, 8576, 7856, 7192, 6576, 6000, 5456]
    + [4944, 4464, 4008, 3576, 3168, 2776, 2400, 2032]
    + [1688, 1360, 1040, 728, 432, 136, -432, -136]
  /** What a high band code stands for. */
  const QM2: seq<i32> := [-7408, -1616, 7408, 1616]
  /** What is sent for a high band interval below zero, and above. */
  const IHN: seq<i32> := [0, 1, 0]
  const IHP: seq<i32> := [0, 3, 2]
  /** How far a high band code moves its logarithm. */
  const WH: seq<i32> := [0, -214, 798]
  /** Which entry of `WH` belongs to a code. */
  const RH2: seq<i32> := [2, 1, 2, 1]

  const LOW_MAX_NB: i32 := 18432
  const HIGH_MAX_NB: i32 := 22528
  const LOW_SHIFT: i32 := 8
  const HIGH_SHIFT: i32 := 10

  // ----- Arithmetic

  function Clamp(x: i32, lo: i32, hi: i32): i32
    requires lo <= hi
  {
    if x < lo then lo else if x > hi then hi else x
  }

  function Saturate(x: i32): i32 {
    Clamp(x, -0x8000, 0x7FFF)
  }

  function Min(x: i32, y: i32): i32 {
    if x < y then x else y
  }

  /** `x >> 15`, which for 16-bit `x` is -1 or 0. */
  function Sign(x: i32): i32 {
    x / 0x8000
  }

  predicate Is16(x: i32) {
    -0x8000 <= x <= 0x7FFF
  }

  lemma MulBound(x: int, y: int, m: int, n: int)
    requires 0 <= m && 0 <= n && -m <= x <= m && -n <= y <= n
    ensures -(m * n) <= x * y <= m * n
  {
    if x >= 0 {
      assert x * -n <= x * y <= x * n;
      assert x * n <= m * n;
    } else {
      var z := -x;
      assert z * -n <= z * y <= z * n;
      assert z * n <= m * n;
      assert x * y == -(z * y);
    }
  }

  /** A product that fits 32 bits whenever the factors keep to their bounds. */
  function Mul(x: i32, y: i32, ghost m: int, ghost n: int): (z: i32)
    requires 0 <= m && 0 <= n && -m <= x as int <= m && -n <= y as int <= n && m * n <= 0x7FFF_FFFF
    ensures z as int == x as int * y as int && -(m * n) <= z as int <= m * n
  {
    MulBound(x as int, y as int, m, n);
    x * y
  }

  // ----- Table lookups

  function Qm6(code: i32): (q: i32)
    requires 0 <= code < 64
    ensures -24808 <= q <= 24808
  {
    QM6[code]
  }

  function Qm4(code: i32): (q: i32)
    requires 0 <= code < 16
    ensures -20456 <= q <= 20456
  {
    QM4[code]
  }

  /** The log scale factor step for a 4-bit low band code. */
  function LowStep(code: i32): (w: i32)
    requires 0 <= code < 16
    ensures -60 <= w <= 3042
  {
    WL[RL42[code]]
  }

  function HighStep(code: i32): (w: i32)
    requires 0 <= code < 4
    ensures -214 <= w <= 798
  {
    WH[RH2[code]]
  }

  function Mantissa(i: i32): (m: i32)
    requires 0 <= i < 32
    ensures 2048 <= m <= 4008 && (i == 0 ==> m == 2048)
  {
    ILB[i]
  }

  function DecisionLevel(i: int): (level: i32)
    requires 0 <= i < 30
    ensures 0 <= level <= 2919 && (i == 0 ==> level == 0)
  {
    Q6[i]
  }

  /** The low band code of a decision interval, by the sign of the difference. Codes 0 to 3 are
      never emitted. */
  function IntervalCode(negative: bool, mil: int): (code: i32)
    requires 1 <= mil <= 30
    ensures 4 <= code < 64
  {
    if negative then ILN[mil] else ILP[mil]
  }

  // ----- One sub-band

  /** The adaptive predictor and scale factor state. */
  datatype Band = Band(
    s: i32, sp: i32, sz: i32,
    r: seq<i32>, a: seq<i32>, ap: seq<i32>, p: seq<i32>,
    d: seq<i32>, b: seq<i32>, bp: seq<i32>,
    nb: i32, det: i32)

  function NewBand(det: i32): Band {
    Band(0, 0, 0, [0, 0, 0], [0, 0, 0], [0, 0, 0], [0, 0, 0],
         [0, 0, 0, 0, 0, 0, 0], [0, 0, 0, 0, 0, 0, 0], [0, 0, 0, 0, 0, 0, 0], 0, det)
  }

  predicate All16(s: seq<i32>, n: nat) {
    |s| == n && forall i :: 0 <= i < n ==> Is16(s[i])
  }

  /** The pole coefficients are inside the stability triangle. */
  predicate Stable(a: seq<i32>) {
    |a| == 3 && -12288 <= a[2] <= 12288 && -(15360 - a[2]) <= a[1] <= 15360 - a[2] && a[0] == 0
  }

  /** Signals and histories are 16-bit, the poles stable. */
  predicate PredictorInRange(band: Band) {
    && Is16(band.s) && Is16(band.sp) && Is16(band.sz)
    && All16(band.r, 3) && All16(band.p, 3)
    && Stable(band.a) && Stable(band.ap)
    && All16(band.d, 7) && All16(band.b, 7) && All16(band.bp, 7)
  }

  predicate ScaleInRange(nb: i32, det: i32, maxNb: i32, minDet: i32) {
    0 <= nb <= maxNb && minDet <= det <= 16384
  }

  predicate LowInRange(band: Band) {
    PredictorInRange(band) && ScaleInRange(band.nb, band.det, LOW_MAX_NB, 32)
  }

  predicate HighInRange(band: Band) {
    PredictorInRange(band) && ScaleInRange(band.nb, band.det, HIGH_MAX_NB, 8)
  }

  // ----- Blocks 3L and 3H: the scale factor

  /** 2^k, for the shift amounts the antilog uses. */
  function PowerOf2(k: i32): (p: i32)
    requires 0 <= k <= 10
  {
    if k == 0 then 1 else if k == 1 then 2 else if k == 2 then 4 else if k == 3 then 8
    else if k == 4 then 16 else if k == 5 then 32 else if k == 6 then 64 else if k == 7 then 128
    else if k == 8 then 256 else if k == 9 then 512 else 1024
  }

  /** The antilog of mantissa `wd1`, shifted right by `wd2`, or left when that is negative. */
  function Antilog(wd1: i32, wd2: i32): (wd3: i32)
    requires 0 <= wd1 < 32 && -1 <= wd2 <= 10
    ensures 2 <= wd3 && (wd2 <= 8 ==> 8 <= wd3)
    ensures (wd2 >= 0 ==> wd3 <= 4008) && (wd1 == 0 ==> wd3 <= 4096)
  {
    if wd2 < 0 then Mantissa(wd1) * PowerOf2(-wd2) else Mantissa(wd1) / PowerOf2(wd2)
  }

  predicate OfOneBand(nb: i32, shift: i32) {
    (shift == LOW_SHIFT && 0 <= nb <= LOW_MAX_NB) || (shift == HIGH_SHIFT && 0 <= nb <= HIGH_MAX_NB)
  }

  function ScaleFactor(nb: i32, shift: i32): (det: i32)
    requires OfOneBand(nb, shift)
    ensures (if shift == LOW_SHIFT then 32 else 8) <= det <= 16384
  {
    var wd1 := nb / 64 % 32;
    var wd2 := shift - nb / 2048;
    assert wd2 >= 0 || nb == LOW_MAX_NB || nb == HIGH_MAX_NB;
    Antilog(wd1, wd2) * 4
  }

  function NextLog(nb: i32, w: i32, maxNb: i32): i32
    requires 0 <= nb <= maxNb <= HIGH_MAX_NB && -214 <= w <= 3042
  {
    Clamp(nb * 127 / 128 + w, 0, maxNb)
  }

  function Scaled(band: Band, w: i32, maxNb: i32, shift: i32): Band
    requires (shift == LOW_SHIFT && maxNb == LOW_MAX_NB) || (shift == HIGH_SHIFT && maxNb == HIGH_MAX_NB)
    requires 0 <= band.nb <= maxNb && -214 <= w <= 3042
  {
    var nb := NextLog(band.nb, w, maxNb);
    band.(nb := nb, det := ScaleFactor(nb, shift))
  }

  // ----- Block 4: the predictor

  /** UPPOL2: the second pole coefficient, from the signs of the last three partial signals. */
  function UpPol2(a1: i32, a2: i32, sg0: i32, sg1: i32, sg2: i32): (ap2: i32)
    requires -27648 <= a1 <= 27648 && -12288 <= a2 <= 12288
    ensures -12288 <= ap2 <= 12288
  {
    var wd1 := Saturate(a1 * 4);
    var wd2 := Min(if sg0 == sg1 then -wd1 else wd1, 32767);
    var wd3 := wd2 / 128 + (if sg0 == sg2 then 128 else -128);
    Clamp(wd3 + a2 * 32512 / 0x8000, -12288, 12288)
  }

  /** UPPOL1: the first, held within the stability limit the second leaves. */
  function UpPol1(a1: i32, ap2: i32, sg0: i32, sg1: i32): (ap1: i32)
    requires -27648 <= a1 <= 27648 && -12288 <= ap2 <= 12288
    ensures -(15360 - ap2) <= ap1 <= 15360 - ap2
  {
    var wd1 := if sg0 == sg1 then 192 else -192;
    var wd2 := a1 * 32640 / 0x8000;
    var limit := Saturate(15360 - ap2);
    Clamp(Saturate(wd1 + wd2), -limit, limit)
  }

  /** UPZERO: one zero coefficient. */
  function UpZero(b: i32, d: i32, newest: i32): i32
    requires Is16(b)
  {
    var step := if newest == 0 then 0 else 128;
    var wd2 := if Sign(d) == Sign(newest) then step else -step;
    var wd3 := b * 32640 / 0x8000;
    Saturate(wd2 + wd3)
  }

  /** UPZERO over the history, of which the newest difference is `d[0]`. */
  function UpZeros(b: seq<i32>, d: seq<i32>, bp: seq<i32>): (bp': seq<i32>)
    requires All16(b, 7) && |d| == 7 && All16(bp, 7)
    ensures All16(bp', 7)
  {
    seq<i32>(7, i requires 0 <= i < 7 => if i == 0 then bp[0] else UpZero(b[i], d[i], d[0]))
  }

  /** One tap of either filter. */
  function Tap(c: i32, x: i32): (y: i32)
    requires Is16(c) && Is16(x)
    ensures -0x8000 <= y <= 0x8000
  {
    Mul(c, Saturate(x + x), 0x8000, 0x8000) / 0x8000
  }

  /** FILTEP: the pole section. */
  function FilterPoles(a: seq<i32>, r: seq<i32>): (sp: i32)
    requires Stable(a) && All16(r, 3)
    ensures Is16(sp)
  {
    Saturate(Tap(a[1], r[1]) + Tap(a[2], r[2]))
  }

  /** FILTEZ: the zero section, taps 6 down to `from`. */
  function FilterZeros(b: seq<i32>, d: seq<i32>, from: nat): (sz: i32)
    requires All16(b, 7) && All16(d, 7) && 1 <= from <= 7
    ensures -0x8000 * (7 - from as i32) <= sz <= 0x8000 * (7 - from as i32)
    decreases 7 - from
  {
    if from == 7 then 0 else FilterZeros(b, d, from + 1) + Tap(b[from], d[from])
  }

  /** Drop the oldest and repeat the newest entry, which stays in place 0 until overwritten. */
  function Delay(s: seq<i32>): seq<i32>
    requires |s| > 0
  {
    [s[0]] + s[..|s| - 1]
  }

  /** Everything block 4 does with quantized difference `diff`. */
  function Predicted(band: Band, diff: i32): Band
    requires PredictorInRange(band) && Is16(diff)
  {
    var d := band.d[0 := diff];
    var r := band.r[0 := Saturate(band.s + diff)];
    var p := band.p[0 := Saturate(band.sz + diff)];
    var (sg0, sg1, sg2) := (Sign(p[0]), Sign(p[1]), Sign(p[2]));
    var ap2 := UpPol2(band.a[1], band.a[2], sg0, sg1, sg2);
    var ap1 := UpPol1(band.a[1], ap2, sg0, sg1);
    var bp := UpZeros(band.b, d, band.bp);
    var a := [0, ap1, ap2];
    var b := [band.b[0]] + bp[1..];
    var sp := FilterPoles(a, Delay(r));
    var sz := Saturate(FilterZeros(b, Delay(d), 1));
    band.(d := Delay(d), r := Delay(r), p := Delay(p), a := a, ap := [0, ap1, ap2], b := b, bp := bp,
          sp := sp, sz := sz, s := Saturate(sp + sz))
  }

  /** The predictor stays in range whatever difference it is fed. */
  lemma PredictedInRange(band: Band, diff: i32)
    requires PredictorInRange(band) && Is16(diff)
    ensures PredictorInRange(Predicted(band, diff))
    ensures Predicted(band, diff).nb == band.nb && Predicted(band, diff).det == band.det
  {
  }
}
