/** What holds of whole G.722 streams: every reachable state in range, decoder in lockstep with
    encoder, no trace of how the PCM was cut up, and how far off the quantizers are. */
module G722Runs {
  import opened Bytes
  import opened G722
  import opened G722Coder

  /** An encoder: the codec state, and the sample that waits for its pair. */
  datatype Encoder = Encoder(codec: Codec, pending: Option<Sample>)

  const FRESH_ENCODER := Encoder(FRESH, None)

  /** Encode PCM: samples pair up across calls. */
  function EncodeAll(e: Encoder, pcm: seq<Sample>): (result: (Encoder, seq<byte>))
    requires InRange(e.codec)
    ensures InRange(result.0.codec)
    decreases pcm
  {
    if pcm == [] then (e, [])
    else match e.pending
         case None => EncodeAll(e.(pending := Some(pcm[0])), pcm[1..])
         case Some(first) =>
           var (codec, code) := EncodePair(e.codec, first, pcm[0]);
           var (after, codes) := EncodeAll(Encoder(codec, None), pcm[1..]);
           (after, [code] + codes)
  }

  function DecodeAll(c: Codec, codes: seq<byte>): (result: (Codec, seq<Sample>))
    requires InRange(c)
    ensures InRange(result.0)
    decreases codes
  {
    if codes == [] then (c, [])
    else
      var (codec, samples) := DecodeByte(c, codes[0]);
      var (after, rest) := DecodeAll(codec, codes[1..]);
      (after, samples + rest)
  }

  // ----- Bounds

  lemma FreshInRange()
    ensures InRange(FRESH)
  {
  }

  /** In every state an encoder or a decoder can reach, whatever the samples and whatever the
      bytes: log and linear scale factors in range, poles in the stability triangle, every
      signal and history entry in 16 bits. */
  lemma ReachableInRange(pcm: seq<Sample>, codes: seq<byte>)
    ensures InRange(FRESH) && InRange(EncodeAll(FRESH_ENCODER, pcm).0.codec) && InRange(DecodeAll(FRESH, codes).0)
  {
    FreshInRange();
  }

  // ----- Chunks

  /** Cutting the PCM anywhere, also between the two samples of a pair, changes no byte and no
      later state. */
  lemma {:induction false} ChunksDoNotMatter(e: Encoder, a: seq<Sample>, b: seq<Sample>)
    requires InRange(e.codec)
    ensures var (middle, first) := EncodeAll(e, a);
            var (after, second) := EncodeAll(middle, b);
            EncodeAll(e, a + b) == (after, first + second)
    decreases a
  {
    hide EncodePair, InRange;
    if a == [] {
      assert a + b == b && [] + EncodeAll(e, b).1 == EncodeAll(e, b).1;
    } else {
      assert (a + b)[1..] == a[1..] + b;
      match e.pending
      case None => ChunksDoNotMatter(e.(pending := Some(a[0])), a[1..], b);
      case Some(first) =>
        var (codec, code) := EncodePair(e.codec, first, a[0]);
        ChunksDoNotMatter(Encoder(codec, None), a[1..], b);
        var (middle, codes) := EncodeAll(Encoder(codec, None), a[1..]);
        var second := EncodeAll(middle, b).1;
        assert ([code] + codes) + second == [code] + (codes + second);
    }
  }

  /** Two samples make one byte, and every sample is accounted for. */
  lemma {:induction false} NoSampleIsLost(e: Encoder, pcm: seq<Sample>)
    requires InRange(e.codec)
    ensures var (after, codes) := EncodeAll(e, pcm);
            (if e.pending.Some? then 1 else 0) + |pcm| == 2 * |codes| + (if after.pending.Some? then 1 else 0)
    decreases pcm
  {
    if pcm != [] {
      match e.pending
      case None => NoSampleIsLost(e.(pending := Some(pcm[0])), pcm[1..]);
      case Some(first) => NoSampleIsLost(Encoder(EncodePair(e.codec, first, pcm[0]).0, None), pcm[1..]);
    }
  }

  // ----- Lockstep

  predicate SameBands(c: Codec, d: Codec) {
    c.low == d.low && c.high == d.high
  }

  lemma Unpack(ilow: int, ihigh: int)
    requires 0 <= ilow < 64 && 0 <= ihigh < 4
    ensures (ihigh * 64 + ilow) % 64 == ilow && (ihigh * 64 + ilow) / 64 == ihigh
  {
  }

  /** One byte: the decoder reads the codes the encoder chose and adapts as it did. */
  lemma LockstepByte(c: Codec, d: Codec, first: Sample, second: Sample)
    requires InRange(c) && InRange(d) && SameBands(c, d)
    ensures var (c', code) := EncodePair(c, first, second);
            SameBands(c', DecodeByte(d, code).0)
  {
    hide Codes, AdaptLow, AdaptHigh, Reconstructed, Synthesize;
    var (ilow, ihigh) := Codes(c.(x := Shifted(c.x, first, second)));
    Unpack(ilow as int, ihigh as int);
  }

  /** After decoding all the encoder emitted, the decoder's bands are the encoder's. */
  lemma {:induction false} Lockstep(e: Encoder, d: Codec, pcm: seq<Sample>)
    requires InRange(e.codec) && InRange(d) && SameBands(e.codec, d)
    ensures var (after, codes) := EncodeAll(e, pcm);
            SameBands(after.codec, DecodeAll(d, codes).0)
    decreases pcm
  {
    hide EncodePair, DecodeByte;
    if pcm != [] {
      match e.pending
      case None => Lockstep(e.(pending := Some(pcm[0])), d, pcm[1..]);
      case Some(first) =>
        var (codec, code) := EncodePair(e.codec, first, pcm[0]);
        LockstepByte(e.codec, d, first, pcm[0]);
        Lockstep(Encoder(codec, None), DecodeByte(d, code).0, pcm[1..]);
    }
  }

  // ----- Quantization error

  /** The interval found is the one the magnitude lies in. */
  lemma {:induction false} IntervalIs(wd: i32, det: i32, i: nat)
    requires 1 <= i <= 30 && 0 <= det <= 16384
    ensures var mil := Interval(wd, det, i);
            (mil > i ==> wd >= Level(mil - 1, det)) && (mil < 30 ==> wd < Level(mil, det))
    decreases 30 - i
  {
    hide Level;
    if i < 30 && wd >= Level(i, det) {
      IntervalIs(wd, det, i + 1);
    }
  }

  /** The two reconstruction points of an interval are opposite and strictly inside it. */
  lemma PointsInside(mil: int)
    requires 1 <= mil <= 29
    ensures 8 * DecisionLevel(mil - 1) < Qm6(IntervalCode(false, mil)) < 8 * DecisionLevel(mil)
    ensures Qm6(IntervalCode(true, mil)) == -Qm6(IntervalCode(false, mil))
  {
    hide Qm6, DecisionLevel, IntervalCode;
    CodesRunDown(mil);
    PositivePoint(mil);
    NegativePoint(mil);
  }

  lemma CodesRunDown(mil: int)
    requires 1 <= mil <= 30
    ensures IntervalCode(false, mil) == 62 - mil as i32
    ensures IntervalCode(true, mil) == (if mil <= 2 then 64 else 34) - mil as i32
  {
  }

  lemma PositivePoint(mil: int)
    requires 1 <= mil <= 29
    ensures 8 * DecisionLevel(mil - 1) < Qm6(62 - mil as i32) < 8 * DecisionLevel(mil)
  {
    hide Qm6, DecisionLevel;
    if mil <= 10 { FirstPoints(mil); } else if mil <= 20 { MiddlePoints(mil); } else { LastPoints(mil); }
  }

  lemma FirstPoints(mil: int)
    requires 1 <= mil <= 10
    ensures 8 * DecisionLevel(mil - 1) < Qm6(62 - mil as i32) < 8 * DecisionLevel(mil)
  {
  }

  lemma MiddlePoints(mil: int)
    requires 11 <= mil <= 20
    ensures 8 * DecisionLevel(mil - 1) < Qm6(62 - mil as i32) < 8 * DecisionLevel(mil)
  {
  }

  lemma LastPoints(mil: int)
    requires 21 <= mil <= 29
    ensures 8 * DecisionLevel(mil - 1) < Qm6(62 - mil as i32) < 8 * DecisionLevel(mil)
  {
  }

  lemma NegativePoint(mil: int)
    requires 1 <= mil <= 29
    ensures Qm6((if mil <= 2 then 64 else 34) - mil as i32) == -Qm6(62 - mil as i32)
  {
    hide Qm6;
    if mil <= 10 { FirstPointsNegated(mil); } else if mil <= 20 { MiddlePointsNegated(mil); } else { LastPointsNegated(mil); }
  }

  lemma FirstPointsNegated(mil: int)
    requires 1 <= mil <= 10
    ensures Qm6((if mil <= 2 then 64 else 34) - mil as i32) == -Qm6(62 - mil as i32)
  {
  }

  lemma MiddlePointsNegated(mil: int)
    requires 11 <= mil <= 20
    ensures Qm6(34 - mil as i32) == -Qm6(62 - mil as i32)
  {
  }

  lemma LastPointsNegated(mil: int)
    requires 21 <= mil <= 29
    ensures Qm6(34 - mil as i32) == -Qm6(62 - mil as i32)
  {
  }

  /** Scaling and rounding down keep a point between its levels, on either side of zero. */
  lemma RoundedBetween(det: int, lo: int, q: int, hi: int)
    requires 0 < det && 8 * lo < q <= 8 * hi
    ensures lo * det / 0x1000 <= det * q / 0x8000 <= hi * det / 0x1000
    ensures lo * det / 0x1000 <= -(det * -q / 0x8000) - 1 <= hi * det / 0x1000
  {
    var a, b, c := lo * det, det * q, hi * det;
    assert 8 * a < b by { assert (8 * lo) * det < q * det; }
    assert b <= 8 * c by { assert q * det <= (8 * hi) * det; }
    assert det * -q == -b;
  }

  function Distance(x: i32, y: i32): int {
    if x < y then y as int - x as int else x as int - y as int
  }

  /** Outside overload, the 6-bit reconstruction of a low band difference is off by at most the
      width of the decision interval, for both signs and every reachable scale factor. */
  lemma LowQuantizerError(el: i32, det: i32)
    requires Is16(el) && 32 <= det <= 16384
    ensures var mil := Interval(OnesMagnitude(el), det, 1);
            mil < 30 ==>
              Distance(el, LowDifference6(LowCode(el, det), det)) <= Level(mil, det) as int - Level(mil - 1, det) as int
  {
    hide Interval, Qm6, DecisionLevel, IntervalCode;
    var mil := Interval(OnesMagnitude(el), det, 1);
    if mil < 30 {
      IntervalIs(OnesMagnitude(el), det, 1);
      PointsInside(mil);
      RoundedBetween(det as int, DecisionLevel(mil - 1) as int, Qm6(IntervalCode(false, mil)) as int,
                     DecisionLevel(mil) as int);
    }
  }

  /** The same for the high band's inner interval. */
  lemma HighQuantizerError(eh: i32, det: i32)
    requires Is16(eh) && 8 <= det <= 16384
    ensures var width := 564 * det / 0x1000;
            OnesMagnitude(eh) < width ==> Distance(eh, HighDifference(HighCode(eh, det), det)) <= width as int
  {
    RoundedBetween(det as int, 0, 1616, 564);
  }

  /** End to end, one sub-band sample: as long as neither the difference nor the sample is beyond
      the coder's range, the decoder's low band sample is within the width of the decision
      interval of the encoder's, and its high band sample likewise. */
  lemma BandFidelity(c: Codec, d: Codec, first: Sample, second: Sample)
    requires InRange(c) && InRange(d) && SameBands(c, d)
    ensures var c1 := c.(x := Shifted(c.x, first, second));
            var (xlow, xhigh) := Analyze(c1.x);
            var code := EncodePair(c, first, second).1;
            var (rlow, rhigh) := Reconstructed(d, (code % 64) as i32, (code / 64) as i32);
            var (el, eh) := (xlow - c.low.s, xhigh - c.high.s);
            && (Is16(el) && -16384 <= xlow <= 16383 ==>
                 var mil := Interval(OnesMagnitude(el), c.low.det, 1);
                 mil < 30 ==>
                   Distance(xlow, rlow) <= Level(mil, c.low.det) as int - Level(mil - 1, c.low.det) as int)
            && (Is16(eh) && -16384 <= xhigh <= 16383 && OnesMagnitude(eh) < 564 * c.high.det / 0x1000 ==>
                 Distance(xhigh, rhigh) <= (564 * c.high.det / 0x1000) as int)
  {
    hide AdaptLow, AdaptHigh, Analyze, LowCode, HighCode, LowDifference6, HighDifference, Interval, Level;
    var c1 := c.(x := Shifted(c.x, first, second));
    var (ilow, ihigh) := Codes(c1);
    Unpack(ilow as int, ihigh as int);
    var (xlow, xhigh) := Analyze(c1.x);
    if Is16(xlow - c.low.s) { LowQuantizerError(xlow - c.low.s, c.low.det); }
    if Is16(xhigh - c.high.s) { HighQuantizerError(xhigh - c.high.s, c.high.det); }
  }
}
