/** The G.722 encoder and decoder as the program runs them: predictor histories shifted in place
    in fixed-size arrays. Every method is proved to do to the state what the functions of `G722`,
    `G722Coder` and `G722Runs` say. */
module G722Codec {
  import opened Bytes
  import opened G722
  import opened G722Coder
  import opened G722Runs

  /** One sub-band. */
  class SubBand {
    var s: i32
    var sp: i32
    var sz: i32
    const r: array<i32>
    const a: array<i32>
    const ap: array<i32>
    const p: array<i32>
    const d: array<i32>
    const b: array<i32>
    const bp: array<i32>
    var nb: i32
    var det: i32

    constructor (det: i32)
      ensures Shaped() && fresh(Repr()) && Value() == NewBand(det)
    {
      s, sp, sz, nb := 0, 0, 0, 0;
      r, a, ap, p := new i32[3](_ => 0), new i32[3](_ => 0), new i32[3](_ => 0), new i32[3](_ => 0);
      d, b, bp := new i32[7](_ => 0), new i32[7](_ => 0), new i32[7](_ => 0);
      this.det := det;
      new;
      assert r[..] == a[..] == ap[..] == p[..] == [0, 0, 0];
      assert d[..] == b[..] == bp[..] == [0, 0, 0, 0, 0, 0, 0];
    }

    ghost predicate Shaped() {
      && r.Length == a.Length == ap.Length == p.Length == 3
      && d.Length == b.Length == bp.Length == 7
      && r != a && r != ap && r != p && a != ap && a != p && ap != p
      && d != b && d != bp && b != bp
    }

    ghost function Repr(): set<object> {
      {this, r, a, ap, p, d, b, bp}
    }

    ghost function Value(): Band
      reads Repr()
    {
      Band(s, sp, sz, r[..], a[..], ap[..], p[..], d[..], b[..], bp[..], nb, det)
    }

    /** Blocks 3L and 3H. */
    method Scale(w: i32, maxNb: i32, shift: i32)
      requires (shift == LOW_SHIFT && maxNb == LOW_MAX_NB) || (shift == HIGH_SHIFT && maxNb == HIGH_MAX_NB)
      requires 0 <= nb <= maxNb && -214 <= w <= 3042
      modifies this`nb, this`det
      ensures Value() == Scaled(old(Value()), w, maxNb, shift)
    {
      nb := nb * 127 / 128 + w;
      nb := Clamp(nb, 0, maxNb);
      var wd1 := nb / 64 % 32;
      var wd2 := shift - nb / 2048;
      var wd3 := Antilog(wd1, wd2);
      det := wd3 * 4;
    }

    /** Block 4. */
    method Predict(diff: i32)
      requires Shaped() && PredictorInRange(Value()) && Is16(diff)
      modifies this`s, this`sp, this`sz, r, a, ap, p, d, b, bp
      ensures Value() == Predicted(old(Value()), diff)
    {
      hide UpPol2, UpPol1, UpZero, UpZeros, FilterPoles, FilterZeros, Sign, Tap;
      ghost var before := Value();
      d[0] := diff;
      r[0] := Saturate(s + diff);
      p[0] := Saturate(sz + diff);
      var sg0, sg1, sg2 := Sign(p[0]), Sign(p[1]), Sign(p[2]);
      ap[2] := UpPol2(a[1], a[2], sg0, sg1, sg2);
      ap[1] := UpPol1(a[1], ap[2], sg0, sg1);
      UpdateZeros();
      DelayLong();
      DelayShort();
      assert a[..] == [0, ap[1], ap[2]] && ap[..] == [0, ap[1], ap[2]];
      PredictNext();
      assert d[..] == Delay(before.d[0 := diff]);
    }

    /** UPZERO. */
    method UpdateZeros()
      requires Shaped() && All16(b[..], 7) && All16(bp[..], 7)
      modifies bp
      ensures bp[..] == UpZeros(b[..], d[..], old(bp[..]))
    {
      for i := 1 to 7
        invariant bp[0] == old(bp[0])
        invariant forall k :: 1 <= k < i ==> bp[k] == UpZero(b[k], d[k], d[0])
      {
        bp[i] := UpZero(b[i], d[i], d[0]);
      }
    }

    /** DELAYA, difference and zero section. */
    method DelayLong()
      requires Shaped()
      modifies d, b
      ensures d[..] == Delay(old(d[..]))
      ensures b[..] == [old(b[0])] + bp[1..]
    {
      for i := 7 downto 1
        invariant forall k :: 0 <= k < i ==> d[k] == old(d[k]) && b[k] == old(b[k])
        invariant forall k :: i <= k < 7 ==> d[k] == old(d[k - 1]) && b[k] == bp[k]
      {
        d[i] := d[i - 1];
        b[i] := bp[i];
      }
    }

    /** DELAYA, signals and pole section. */
    method DelayShort()
      requires Shaped()
      modifies r, p, a
      ensures r[..] == Delay(old(r[..])) && p[..] == Delay(old(p[..]))
      ensures a[..] == [old(a[0])] + ap[1..]
    {
      for i := 3 downto 1
        invariant forall k :: 0 <= k < i ==> r[k] == old(r[k]) && p[k] == old(p[k]) && a[k] == old(a[k])
        invariant forall k :: i <= k < 3 ==> r[k] == old(r[k - 1]) && p[k] == old(p[k - 1]) && a[k] == ap[k]
      {
        r[i] := r[i - 1];
        p[i] := p[i - 1];
        a[i] := ap[i];
      }
    }

    /** FILTEP, FILTEZ and PREDIC. */
    method PredictNext()
      requires Shaped() && Stable(a[..]) && All16(r[..], 3) && All16(b[..], 7) && All16(d[..], 7)
      modifies this`s, this`sp, this`sz
      ensures sp == FilterPoles(a[..], r[..]) && sz == Saturate(FilterZeros(b[..], d[..], 1))
      ensures s == Saturate(sp + sz)
    {
      sp := FilterPoles(a[..], r[..]);
      var sum: i32 := 0;
      for i := 7 downto 1
        invariant sum == FilterZeros(b[..], d[..], i)
      {
        sum := sum + Tap(b[i], d[i]);
      }
      sz := Saturate(sum);
      s := Saturate(sp + sz);
    }
  }

  /** Shift two new samples into a filter history, in place. */
  method ShiftIn(x: array<i32>, first: i32, second: i32)
    requires x.Length == 24 && All16(x[..], 24) && Is16(first) && Is16(second)
    modifies x
    ensures x[..] == Shifted(old(x[..]), first, second)
  {
    forall i | 0 <= i < 22 {
      x[i] := x[i + 2];
    }
    x[22] := first;
    x[23] := second;
  }

  /** Both filter sums over a history, in one pass. */
  method Sums(x: array<i32>) returns (even: i32, odd: i32)
    requires x.Length == 24 && All16(x[..], 24)
    ensures even == SumEven(x[..], 12) && odd == SumOdd(x[..], 12)
  {
    even, odd := 0, 0;
    for i := 0 to 12
      invariant even == SumEven(x[..], i) && odd == SumOdd(x[..], i)
    {
      OddStep(x[..], i);
      EvenStep(x[..], i);
      odd := odd + Mul(QMF[i], x[2 * i], Magnitude(i), 0x8000);
      even := even + Mul(QMF[11 - i], x[2 * i + 1], Magnitude(11 - i), 0x8000);
    }
  }

  lemma OddStep(x: seq<i32>, i: nat)
    requires All16(x, 24) && i < 12
    ensures SumOdd(x, i + 1) as int
         == SumOdd(x, i) as int + Mul(QMF[i], x[2 * i], Magnitude(i), 0x8000) as int
  {
    MassOddBound(i + 1);
  }

  lemma EvenStep(x: seq<i32>, i: nat)
    requires All16(x, 24) && i < 12
    ensures SumEven(x, i + 1) as int
         == SumEven(x, i) as int + Mul(QMF[11 - i], x[2 * i + 1], Magnitude(11 - i), 0x8000) as int
  {
    MassEvenBound(i + 1);
  }

  /** The QUANTL search for the decision interval. */
  method FindInterval(wd: i32, det: i32) returns (mil: nat)
    requires 0 <= det <= 16384
    ensures mil == Interval(wd, det, 1)
  {
    mil := 1;
    while mil < 30 && wd >= Level(mil, det)
      invariant 1 <= mil <= 30 && Interval(wd, det, 1) == Interval(wd, det, mil)
      decreases 30 - mil
    {
      mil := mil + 1;
    }
  }

  lemma ZerosAreFresh(x: seq<i32>)
    requires |x| == 24 && forall i :: 0 <= i < 24 ==> x[i] == 0
    ensures x == FRESH_X
    ensures InRange(FRESH)
  {
    FreshInRange();
  }

  /** An encoder: the filter history, both bands, and the sample that waits for its pair. */
  class G722Encoder {
    const x: array<i32>
    const low: SubBand
    const high: SubBand
    var pending: Option<Sample>

    constructor ()
      ensures Valid() && fresh(Repr()) && Value() == FRESH_ENCODER
    {
      x := new i32[24](_ => 0);
      low := new SubBand(32);
      high := new SubBand(8);
      pending := None;
      new;
      ZerosAreFresh(x[..]);
      hide PredictorInRange, LowInRange, HighInRange;
    }

    ghost predicate Separate() {
      && x.Length == 24 && low.Shaped() && high.Shaped()
      && low.Repr() !! high.Repr() && {this, x} !! low.Repr() && {this, x} !! high.Repr()
    }

    ghost function Repr(): set<object> {
      {this, x} + low.Repr() + high.Repr()
    }

    ghost function State(): Codec
      reads Repr()
    {
      Codec(x[..], low.Value(), high.Value())
    }

    ghost function Value(): Encoder
      reads Repr()
    {
      Encoder(State(), pending)
    }

    /** Every state reached is in range. */
    ghost predicate Valid()
      reads Repr()
    {
      Separate() && InRange(State())
    }

    /** Transmit QMF. */
    method Filter(first: Sample, second: Sample) returns (xlow: i32, xhigh: i32)
      requires Valid()
      modifies x
      ensures State() == old(State()).(x := Shifted(old(State()).x, first, second))
      ensures (xlow, xhigh) == Analyze(x[..])
    {
      hide Shifted, SumEven, SumOdd, MassOdd, MassEven, LowInRange, HighInRange;
      ShiftIn(x, first, second);
      var even, odd := Sums(x);
      MassOddBound(12);
      MassEvenBound(12);
      xlow, xhigh := (even + odd) / 0x4000, (even - odd) / 0x4000;
    }

    /** SUBTRA and QUANTL of the low band; then adapt. */
    method CodeLow(xlow: i32) returns (ilow: i32)
      requires low.Shaped() && LowInRange(low.Value()) && -25928 <= xlow <= 25928
      modifies low.Repr()
      ensures 4 <= ilow < 64 && ilow == LowCode(Saturate(xlow - old(low.s)), old(low.det))
      ensures low.Value() == AdaptLow(old(low.Value()), ilow)
    {
      hide Interval, IntervalCode, AdaptLow, AdaptHigh;
      var el := Saturate(xlow - low.s);
      var wd := if el >= 0 then el else -(el + 1);
      var mil := FindInterval(wd, low.det);
      ilow := IntervalCode(el < 0, mil);
      AdaptLowInPlace(low, ilow);
    }

    /** SUBTRA and QUANTH of the high band; then adapt. */
    method CodeHigh(xhigh: i32) returns (ihigh: i32)
      requires high.Shaped() && HighInRange(high.Value()) && -25928 <= xhigh <= 25928
      modifies high.Repr()
      ensures 0 <= ihigh < 4 && ihigh == HighCode(Saturate(xhigh - old(high.s)), old(high.det))
      ensures high.Value() == AdaptHigh(old(high.Value()), ihigh)
    {
      hide AdaptLow, AdaptHigh;
      var eh := Saturate(xhigh - high.s);
      var wd := if eh >= 0 then eh else -(eh + 1);
      var mih := if wd >= 564 * high.det / 0x1000 then 2 else 1;
      ihigh := if eh < 0 then IHN[mih] else IHP[mih];
      AdaptHighInPlace(high, ihigh);
    }

    method EncodePair(first: Sample, second: Sample) returns (code: byte)
      requires Valid()
      modifies Repr() - {this}
      ensures Valid()
      ensures (State(), code) == G722Coder.EncodePair(old(State()), first, second)
    {
      hide Shifted, Analyze, LowCode, HighCode, AdaptLow, AdaptHigh;
      var xlow, xhigh := Filter(first, second);
      ghost var filtered := State();
      var ilow := CodeLow(xlow);
      var ihigh := CodeHigh(xhigh);
      assert (ilow, ihigh) == Codes(filtered);
      code := (ihigh * 64 + ilow) as int;
    }

    /** Consumes all of `pcm`: two samples a byte, and what is left over waits for the next call. */
    method Encode(pcm: seq<Sample>, output: seq<byte>) returns (consumed: nat, output': seq<byte>)
      requires Valid()
      modifies Repr()
      ensures Valid() && consumed == |pcm|
      ensures var (after, codes) := EncodeAll(old(Value()), pcm);
              Value() == after && output' == output + codes
    {
      hide G722Coder.EncodePair, InRange;
      ghost var start := Value();
      var n := 0;
      output' := output;
      if pending.Some? {
        if |pcm| == 0 {
          return 0, output;
        }
        var first := pending.value;
        pending := None;
        var code := EncodePair(first, pcm[0]);
        output' := output' + [code];
        n := 1;
      }
      while n + 1 < |pcm|
        invariant Valid() && pending == None && n <= |pcm|
        invariant var (after, codes) := EncodeAll(Value(), pcm[n..]);
                  EncodeAll(start, pcm).0 == after && output + EncodeAll(start, pcm).1 == output' + codes
        decreases |pcm| - n
      {
        var code := EncodePair(pcm[n], pcm[n + 1]);
        output' := output' + [code];
        n := n + 2;
      }
      if n < |pcm| {
        pending := Some(pcm[n]);
      }
      consumed := |pcm|;
    }
  }

  /** INVQAL, LOGSCL, SCALEL and block 4 of the low band, from its 6-bit code. */
  method AdaptLowInPlace(low: SubBand, ilow: i32)
    requires low.Shaped() && LowInRange(low.Value()) && 0 <= ilow < 64
    modifies low.Repr()
    ensures low.Value() == AdaptLow(old(low.Value()), ilow)
  {
    var dlow := LowDifference4(ilow, low.det);
    low.Scale(LowStep(ilow / 4), LOW_MAX_NB, LOW_SHIFT);
    low.Predict(dlow);
  }

  /** The same for the high band, from its 2-bit code. */
  method AdaptHighInPlace(high: SubBand, ihigh: i32)
    requires high.Shaped() && HighInRange(high.Value()) && 0 <= ihigh < 4
    modifies high.Repr()
    ensures high.Value() == AdaptHigh(old(high.Value()), ihigh)
  {
    var dhigh := HighDifference(ihigh, high.det);
    high.Scale(HighStep(ihigh), HIGH_MAX_NB, HIGH_SHIFT);
    high.Predict(dhigh);
  }

  /** A decoder: the filter history and both bands. */
  class G722Decoder {
    const x: array<i32>
    const low: SubBand
    const high: SubBand

    constructor ()
      ensures Valid() && fresh(Repr()) && State() == FRESH
    {
      x := new i32[24](_ => 0);
      low := new SubBand(32);
      high := new SubBand(8);
      new;
      ZerosAreFresh(x[..]);
      hide PredictorInRange, LowInRange, HighInRange;
    }

    ghost predicate Separate() {
      && x.Length == 24 && low.Shaped() && high.Shaped()
      && low.Repr() !! high.Repr() && {this, x} !! low.Repr() && {this, x} !! high.Repr()
    }

    ghost function Repr(): set<object> {
      {this, x} + low.Repr() + high.Repr()
    }

    ghost function State(): Codec
      reads Repr()
    {
      Codec(x[..], low.Value(), high.Value())
    }

    ghost predicate Valid()
      reads Repr()
    {
      Separate() && InRange(State())
    }

    /** Both bands: reconstruct, limit, and adapt as the encoder did. */
    method ReadBands(ilow: i32, ihigh: i32) returns (rlow: i32, rhigh: i32)
      requires Valid() && 0 <= ilow < 64 && 0 <= ihigh < 4
      modifies low.Repr(), high.Repr()
      ensures (rlow, rhigh) == Reconstructed(old(State()), ilow, ihigh)
      ensures State() == Codec(old(x[..]), AdaptLow(old(State()).low, ilow), AdaptHigh(old(State()).high, ihigh))
    {
      hide LowDifference6, HighDifference, AdaptLow, AdaptHigh;
      rlow := Clamp(low.s + LowDifference6(ilow, low.det), -16384, 16383);
      AdaptLowInPlace(low, ilow);
      rhigh := Clamp(HighDifference(ihigh, high.det) + high.s, -16384, 16383);
      AdaptHighInPlace(high, ihigh);
    }

    /** Receive QMF. */
    method Emit(rlow: i32, rhigh: i32) returns (samples: seq<Sample>)
      requires Valid() && -16384 <= rlow <= 16383 && -16384 <= rhigh <= 16383
      modifies x
      ensures State() == old(State()).(x := Shifted(old(State()).x, rlow + rhigh, rlow - rhigh))
      ensures var (out1, out2) := Synthesize(x[..]); samples == [out1, out2]
    {
      hide Shifted, SumEven, SumOdd, MassOdd, MassEven, LowInRange, HighInRange, ToSample;
      ShiftIn(x, rlow + rhigh, rlow - rhigh);
      var out1, out2 := Sums(x);
      samples := [ToSample(out1 / 0x800), ToSample(out2 / 0x800)];
    }

    method DecodeByte(code: byte) returns (samples: seq<Sample>)
      requires Valid()
      modifies Repr()
      ensures Valid()
      ensures (State(), samples) == G722Coder.DecodeByte(old(State()), code)
    {
      hide Shifted, Reconstructed, Synthesize, AdaptLow, AdaptHigh;
      var ilow, ihigh := (code % 64) as i32, (code / 64) as i32;
      var rlow, rhigh := ReadBands(ilow, ihigh);
      samples := Emit(rlow, rhigh);
    }

    method Decode(encoded: seq<byte>, output: seq<Sample>) returns (output': seq<Sample>)
      requires Valid()
      modifies Repr()
      ensures Valid()
      ensures var (after, samples) := DecodeAll(old(State()), encoded);
              State() == after && output' == output + samples
    {
      hide G722Coder.DecodeByte, InRange;
      ghost var start := State();
      output' := output;
      for n := 0 to |encoded|
        invariant Valid()
        invariant var (after, samples) := DecodeAll(State(), encoded[n..]);
                  DecodeAll(start, encoded).0 == after && output + DecodeAll(start, encoded).1 == output' + samples
      {
        var samples := DecodeByte(encoded[n]);
        output' := output' + samples;
      }
    }
  }
}
