/** G.722 end to end, in PCM: what the decoder makes of what the encoder sends is the sample that went in eleven
    pairs before, within a bound that grows with how far off the sub-bands are coded. */
module G722Fidelity {
  import opened Bytes
  import opened G722
  import opened G722Coder
  import opened G722Runs
  import opened G722Bank

  // ----- Pair by pair

  /** The pairs a run of PCM makes; an odd sample at the end waits. */
  function PairsOf(pcm: seq<Sample>): (ps: seq<Pair>)
    ensures |ps| == |pcm| / 2
  {
    seq(|pcm| / 2, k requires 0 <= k < |pcm| / 2 => Pair(pcm[2 * k], pcm[2 * k + 1]))
  }

  /** An encoder's state after these pairs, and what it sends. */
  function Coded(c: Codec, ps: seq<Pair>): (result: (Codec, seq<byte>))
    requires InRange(c)
    ensures InRange(result.0) && |result.1| == |ps|
  {
    if ps == [] then (c, [])
    else
      var n := |ps| - 1;
      var (before, codes) := Coded(c, ps[..n]);
      var (after, code) := EncodePair(before, ps[n].first, ps[n].second);
      (after, codes + [code])
  }

  /** A decoder's state after these bytes, and what it makes of them. */
  function Decoded(c: Codec, codes: seq<byte>): (result: (Codec, seq<Sample>))
    requires InRange(c)
    ensures InRange(result.0) && |result.1| == 2 * |codes|
  {
    if codes == [] then (c, [])
    else
      var n := |codes| - 1;
      var (before, samples) := Decoded(c, codes[..n]);
      var (after, pair) := DecodeByte(before, codes[n]);
      (after, samples + pair)
  }

  /** The sub-band samples that byte `k` stands for. */
  function ReadAt(c: Codec, codes: seq<byte>, k: int): (bands: (int, int))
    requires InRange(c) && k < |codes|
  {
    if k < 0 then (0, 0)
    else
      var (low, high) := Reconstructed(Decoded(c, codes[..k]).0, (codes[k] % 64) as i32, (codes[k] / 64) as i32);
      (low as int, high as int)
  }

  /** What goes into the joining filter with a byte, and with all of them. */
  function FedOne(c: Codec, code: byte): Pair
    requires InRange(c)
  {
    var (low, high) := Reconstructed(c, (code % 64) as i32, (code / 64) as i32);
    Pair(low + high, low - high)
  }

  function FedBy(c: Codec, codes: seq<byte>): (fed: seq<Pair>)
    requires InRange(c)
    ensures |fed| == |codes|
  {
    seq(|codes|, k requires 0 <= k < |codes| => FedOne(Decoded(c, codes[..k]).0, codes[k]))
  }

  /** The two filters see the PCM, and what was read. */
  lemma {:induction false} CoderHistory(c: Codec, ps: seq<Pair>, n: nat)
    requires InRange(c) && c.x == FRESH_X && n <= |ps|
    ensures Coded(c, ps[..n]).0.x == History(ps[..n])
  {
    hide AdaptLow, AdaptHigh, Codes, Shifted, InRange;
    if n > 0 {
      assert ps[..n][..n - 1] == ps[..n - 1];
      CoderHistory(c, ps, n - 1);
    } else {
      assert ps[..0] == [];
    }
  }

  lemma DecodesNext(c: Codec, codes: seq<byte>, n: nat)
    requires InRange(c) && n < |codes|
    ensures Decoded(c, codes[..n + 1]).0 == DecodeByte(Decoded(c, codes[..n]).0, codes[n]).0
    ensures Decoded(c, codes[..n + 1]).1 == Decoded(c, codes[..n]).1 + DecodeByte(Decoded(c, codes[..n]).0, codes[n]).1
  {
    hide DecodeByte, InRange;
    assert codes[..n + 1][..n] == codes[..n];
  }

  lemma ByteShifts(c: Codec, code: byte)
    requires InRange(c)
    ensures var x := Shifted(c.x, FedOne(c, code).first, FedOne(c, code).second);
            DecodeByte(c, code).0.x == x && DecodeByte(c, code).1 == [Synthesize(x).0, Synthesize(x).1]
  {
    hide AdaptLow, AdaptHigh, Synthesize, Shifted, Reconstructed;
  }

  lemma {:induction false} DecoderHistory(c: Codec, codes: seq<byte>, n: nat)
    requires InRange(c) && c.x == FRESH_X && n <= |codes|
    ensures Decoded(c, codes[..n]).0.x == History(FedBy(c, codes)[..n])
  {
    hide DecodeByte, Decoded, Shifted, InRange, Synthesize, FedOne;
    var fed := FedBy(c, codes);
    if n > 0 {
      DecoderHistory(c, codes, n - 1);
      DecodesNext(c, codes, n - 1);
      ByteShifts(Decoded(c, codes[..n - 1]).0, codes[n - 1]);
      assert fed[..n][..n - 1] == fed[..n - 1];
    } else {
      assert fed[..0] == [] && codes[..0] == [];
      NothingDecoded(c);
    }
  }

  lemma NothingDecoded(c: Codec)
    requires InRange(c)
    ensures Decoded(c, []) == (c, [])
  {
  }

  /** What is decoded first stays. */
  lemma {:induction false} DecodedGrows(c: Codec, codes: seq<byte>, n: nat)
    requires InRange(c) && n <= |codes|
    ensures Decoded(c, codes[..n]).1 == Decoded(c, codes).1[..2 * n]
    decreases |codes|
  {
    hide DecodeByte, InRange;
    if n == |codes| {
      assert codes[..n] == codes;
    } else {
      var last := |codes| - 1;
      assert codes[..last][..n] == codes[..n];
      DecodedGrows(c, codes[..last], n);
    }
  }

  /** Pair `k` of what is decoded. */
  lemma DecodedAt(c: Codec, codes: seq<byte>, k: nat)
    requires InRange(c) && c.x == FRESH_X && k < |codes|
    ensures var out, (first, second) := Decoded(c, codes).1, Synthesize(History(FedBy(c, codes)[..k + 1]));
            out[2 * k] == first && out[2 * k + 1] == second
  {
    hide DecodeByte, Decoded, Shifted, InRange, Synthesize, FedOne, History, FedBy;
    DecoderHistory(c, codes, k);
    DecoderHistory(c, codes, k + 1);
    DecodesNext(c, codes, k);
    ByteShifts(Decoded(c, codes[..k]).0, codes[k]);
    DecodedGrows(c, codes, k + 1);
    var out := Decoded(c, codes).1;
    assert out[2 * k] == out[..2 * (k + 1)][2 * k] && out[2 * k + 1] == out[..2 * (k + 1)][2 * k + 1];
  }

  /** The sub-bands as the decoder reads them are within `d`, both together, of what the encoder heard. */
  predicate BandsWithin(ps: seq<Pair>, c: Codec, codes: seq<byte>, k: int, d: int)
    requires InRange(c) && k < |ps| && k < |codes|
  {
    var (low, high) := Bands(ps, k);
    var (low', high') := ReadAt(c, codes, k);
    Difference(low, low') + Difference(high, high') <= d
  }

  function Difference(x: int, y: int): int {
    if x < y then y - x else x - y
  }

  lemma ReadFollows(ps: seq<Pair>, c: Codec, codes: seq<byte>, k: int, d: int)
    requires InRange(c) && k < |ps| && k < |codes| && BandsWithin(ps, c, codes, k, d)
    ensures Follows(ps, FedBy(c, codes), k, d)
  {
    hide Bands, Reconstructed, Decoded, InRange;
  }

  /** The codec from silence: with the sub-bands coded within `d`, every sample comes back eleven pairs later,
      in its place, within `Off`. */
  lemma PairsReconstruct(c: Codec, ps: seq<Pair>, k: nat, m: int, d: int)
    requires InRange(c) && c.x == FRESH_X && k < |ps| && 0 <= m && 0 <= d && Quiet(ps, k - 22, 23, m)
    requires forall i :: k - 12 < i <= k ==> BandsWithin(ps, c, Coded(c, ps).1, i, d)
    ensures var out := Decoded(c, Coded(c, ps).1).1;
            && IsNear(out[2 * k] as int, At(ps, k - 11).first as int, Off(m, d))
            && IsNear(out[2 * k + 1] as int, At(ps, k - 11).second as int, Off(m, d))
  {
    hide Coded, Decoded, InRange, Synthesize, History, FedBy, Quiet, Follows, BandsWithin, IsNear, Off;
    var codes := Coded(c, ps).1;
    forall i | k - 12 < i <= k ensures Follows(ps, FedBy(c, codes), i, d) { ReadFollows(ps, c, codes, i, d); }
    Reconstructs(ps, FedBy(c, codes), k, m, d);
    DecodedAt(c, codes, k);
  }

  // ----- The same of whole streams

  lemma EncodesTwo(e: Encoder, first: Sample, second: Sample)
    requires InRange(e.codec) && e.pending.None?
    ensures var (codec, code) := EncodePair(e.codec, first, second);
            EncodeAll(e, [first, second]) == (Encoder(codec, None), [code])
    ensures EncodeAll(e, [first]) == (e.(pending := Some(first)), [])
  {
    hide EncodePair, InRange;
    assert [first, second][1..] == [second] && [second][1..] == [] && [first][1..] == [];
    var (codec, code) := EncodePair(e.codec, first, second);
    assert EncodeAll(Encoder(codec, None), []) == (Encoder(codec, None), []);
    assert [code] + [] == [code];
    assert EncodeAll(e.(pending := Some(first)), [second]) == (Encoder(codec, None), [code]);
    assert EncodeAll(e.(pending := Some(first)), []) == (e.(pending := Some(first)), []);
    assert EncodeAll(e, [first, second]) == EncodeAll(e.(pending := Some(first)), [first, second][1..]);
  }

  /** Encoding a stream is encoding its pairs. */
  lemma {:induction false} EncodeAllIsCoded(c: Codec, pcm: seq<Sample>, n: nat)
    requires InRange(c) && n <= |pcm| / 2
    ensures EncodeAll(Encoder(c, None), pcm[..2 * n])
         == (Encoder(Coded(c, PairsOf(pcm)[..n]).0, None), Coded(c, PairsOf(pcm)[..n]).1)
  {
    hide EncodePair, InRange;
    var ps, e := PairsOf(pcm), Encoder(c, None);
    if n > 0 {
      EncodeAllIsCoded(c, pcm, n - 1);
      var x, y := pcm[2 * n - 2], pcm[2 * n - 1];
      assert pcm[..2 * n] == pcm[..2 * (n - 1)] + [x, y] && ps[..n][..n - 1] == ps[..n - 1];
      ChunksDoNotMatter(e, pcm[..2 * (n - 1)], [x, y]);
      EncodesTwo(EncodeAll(e, pcm[..2 * (n - 1)]).0, x, y);
    } else {
      assert pcm[..0] == [] && ps[..0] == [];
    }
  }

  lemma StreamIsCoded(c: Codec, pcm: seq<Sample>)
    requires InRange(c)
    ensures EncodeAll(Encoder(c, None), pcm).1 == Coded(c, PairsOf(pcm)).1
  {
    hide EncodePair, InRange, Coded;
    var n, e := |pcm| / 2, Encoder(c, None);
    EncodeAllIsCoded(c, pcm, n);
    assert PairsOf(pcm)[..n] == PairsOf(pcm);
    if |pcm| % 2 == 0 {
      assert pcm[..2 * n] == pcm;
    } else {
      assert pcm == pcm[..2 * n] + [pcm[2 * n]];
      ChunksDoNotMatter(e, pcm[..2 * n], [pcm[2 * n]]);
      EncodesTwo(EncodeAll(e, pcm[..2 * n]).0, pcm[2 * n], 0);
    }
  }

  lemma {:induction false} DecodesInChunks(c: Codec, a: seq<byte>, b: seq<byte>)
    requires InRange(c)
    ensures var (middle, first) := DecodeAll(c, a);
            var (after, second) := DecodeAll(middle, b);
            DecodeAll(c, a + b) == (after, first + second)
    decreases a
  {
    hide DecodeByte, InRange;
    if a == [] {
      assert a + b == b && [] + DecodeAll(c, b).1 == DecodeAll(c, b).1;
    } else {
      assert (a + b)[1..] == a[1..] + b;
      var (codec, samples) := DecodeByte(c, a[0]);
      DecodesInChunks(codec, a[1..], b);
      var (middle, first) := DecodeAll(codec, a[1..]);
      var second := DecodeAll(middle, b).1;
      assert (samples + first) + second == samples + (first + second);
    }
  }

  lemma DecodesOne(c: Codec, code: byte)
    requires InRange(c)
    ensures DecodeAll(c, [code]) == DecodeByte(c, code)
  {
    hide DecodeByte, InRange;
    var (codec, samples) := DecodeByte(c, code);
    assert [code][1..] == [] && samples + [] == samples;
    assert DecodeAll(codec, []) == (codec, []);
  }

  lemma {:induction false} StreamIsDecoded(c: Codec, codes: seq<byte>, n: nat)
    requires InRange(c) && n <= |codes|
    ensures DecodeAll(c, codes[..n]) == Decoded(c, codes[..n])
  {
    hide DecodeByte, InRange;
    if n > 0 {
      assert codes[..n] == codes[..n - 1] + [codes[n - 1]] && codes[..n][..n - 1] == codes[..n - 1];
      StreamIsDecoded(c, codes, n - 1);
      DecodesInChunks(c, codes[..n - 1], [codes[n - 1]]);
      DecodesOne(DecodeAll(c, codes[..n - 1]).0, codes[n - 1]);
    } else {
      assert codes[..0] == [];
    }
  }

  /** From a new encoder to a new decoder, any PCM: as long as the sub-bands of the twelve pairs up to pair `k` are
      coded within `d`, sample by sample what comes out with it is what went in eleven pairs before. */
  lemma CodecReconstructs(pcm: seq<Sample>, k: nat, m: int, d: int)
    requires 2 * k + 1 < |pcm| && 0 <= m && 0 <= d && Quiet(PairsOf(pcm), k - 22, 23, m)
    requires InRange(FRESH)
    requires forall i :: k - 12 < i <= k ==> BandsWithin(PairsOf(pcm), FRESH, Coded(FRESH, PairsOf(pcm)).1, i, d)
    ensures var out := DecodeAll(FRESH, EncodeAll(FRESH_ENCODER, pcm).1).1;
            && |out| > 2 * k + 1
            && IsNear(out[2 * k] as int, if k < 11 then 0 else pcm[2 * (k - 11)] as int, Off(m, d))
            && IsNear(out[2 * k + 1] as int, if k < 11 then 0 else pcm[2 * (k - 11) + 1] as int, Off(m, d))
  {
    hide Coded, Decoded, EncodeAll, DecodeAll, IsNear, Off, Quiet, BandsWithin;
    hide InRange;
    var ps, codes := PairsOf(pcm), Coded(FRESH, PairsOf(pcm)).1;
    StreamIsCoded(FRESH, pcm);
    StreamIsDecoded(FRESH, codes, |codes|);
    assert codes[..|codes|] == codes;
    PairsReconstruct(FRESH, ps, k, m, d);
  }

  // ----- How far off the sub-bands are

  /** The codes of the first pairs are the first codes. */
  lemma {:induction false} CodedGrows(c: Codec, ps: seq<Pair>, n: nat)
    requires InRange(c) && n <= |ps|
    ensures Coded(c, ps[..n]).1 == Coded(c, ps).1[..n]
    decreases |ps|
  {
    hide EncodePair, InRange;
    if n == |ps| {
      assert ps[..n] == ps;
    } else {
      var last := |ps| - 1;
      assert ps[..last][..n] == ps[..n];
      CodedGrows(c, ps[..last], n);
    }
  }

  lemma CodesNext(c: Codec, ps: seq<Pair>, n: nat)
    requires InRange(c) && n < |ps|
    ensures var (codec, code) := EncodePair(Coded(c, ps[..n]).0, ps[n].first, ps[n].second);
            && Coded(c, ps[..n + 1]).0 == codec && Coded(c, ps).1[n] == code
  {
    hide EncodePair, InRange;
    assert ps[..n + 1][..n] == ps[..n];
    CodedGrows(c, ps, n + 1);
    assert Coded(c, ps).1[n] == Coded(c, ps).1[..n + 1][n];
  }

  /** Pair by pair in lockstep. */
  lemma {:induction false} PairsInLockstep(c: Codec, ps: seq<Pair>, n: nat)
    requires InRange(c) && n <= |ps|
    ensures SameBands(Coded(c, ps[..n]).0, Decoded(c, Coded(c, ps).1[..n]).0)
  {
    hide EncodePair, DecodeByte, InRange, Coded, Decoded;
    var codes := Coded(c, ps).1;
    if n > 0 {
      PairsInLockstep(c, ps, n - 1);
      CodesNext(c, ps, n - 1);
      DecodesNext(c, codes, n - 1);
      LockstepByte(Coded(c, ps[..n - 1]).0, Decoded(c, codes[..n - 1]).0, ps[n - 1].first, ps[n - 1].second);
    } else {
      assert ps[..0] == [] && codes[..0] == [];
      NothingDecoded(c);
      NothingCoded(c);
    }
  }

  lemma NothingCoded(c: Codec)
    requires InRange(c)
    ensures Coded(c, []) == (c, [])
  {
  }

  /** Neither the sub-bands nor their differences are beyond the coder's range, and the decision intervals the
      differences are in are together no wider than `d`. */
  predicate Codable(c: Codec, low: int, high: int, d: int)
    requires InRange(c)
  {
    var el, eh, high564 := low - c.low.s as int, high - c.high.s as int, 564 * c.high.det / 0x1000;
    && -0x8000 <= el <= 0x7FFF && -0x8000 <= eh <= 0x7FFF && -16384 <= low <= 16383 && -16384 <= high <= 16383
    && OnesMagnitude(eh as i32) < high564
    && var mil := Interval(OnesMagnitude(el as i32), c.low.det, 1);
       mil < 30 && Level(mil, c.low.det) as int - Level(mil - 1, c.low.det) as int + high564 as int <= d
  }

  /** One pair. */
  lemma CodableFidelity(c: Codec, c': Codec, first: Sample, second: Sample, d: int)
    requires InRange(c) && InRange(c') && SameBands(c, c')
    requires var (low, high) := Analyze(Shifted(c.x, first, second)); Codable(c, low as int, high as int, d)
    ensures var (low, high) := Analyze(Shifted(c.x, first, second));
            var code := EncodePair(c, first, second).1;
            var (low', high') := Reconstructed(c', (code % 64) as i32, (code / 64) as i32);
            Difference(low as int, low' as int) + Difference(high as int, high' as int) <= d
  {
    hide EncodePair, Analyze, Reconstructed, Interval, Level, Shifted, PredictorInRange;
    BandFidelity(c, c', first, second);
  }

  /** Then the sub-bands are coded within `d`. */
  lemma CodableIsWithin(c: Codec, ps: seq<Pair>, k: nat, d: int)
    requires InRange(c) && c.x == FRESH_X && k < |ps|
    requires Codable(Coded(c, ps[..k]).0, Bands(ps, k).0, Bands(ps, k).1, d)
    ensures BandsWithin(ps, c, Coded(c, ps).1, k, d)
  {
    hide EncodePair, DecodeByte, Coded, Decoded, Analyze, Reconstructed, Shifted, History, InRange, Codable;
    var before, codes := Coded(c, ps[..k]).0, Coded(c, ps).1;
    CodesNext(c, ps, k);
    PairsInLockstep(c, ps, k);
    CoderHistory(c, ps, k);
    HistoryNext(ps, k);
    CodableFidelity(before, Decoded(c, codes[..k]).0, ps[k].first, ps[k].second, d);
  }

  lemma HistoryNext(ps: seq<Pair>, k: nat)
    requires k < |ps|
    ensures History(ps[..k + 1]) == Shifted(History(ps[..k]), ps[k].first, ps[k].second)
  {
    assert ps[..k + 1][..k] == ps[..k];
  }
}
