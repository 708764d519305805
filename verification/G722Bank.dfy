/** The two mirror filters of G.722 back to back: splitting PCM into two sub-bands and joining them again
    gives back each sample, eleven pairs later and in its place, within a bound that the coefficients fix. */
module G722Bank {
  import opened G722
  import opened G722Coder

  // ----- The twelve coefficients, forwards and backwards

  /** Twelve numbers from `k` on, weighted by the coefficients. */
  function Forwards(s: seq<int>, k: nat): int
    requires k + 12 <= |s|
  {
    3 * s[k] - 11 * s[k + 1] + 12 * s[k + 2] + 32 * s[k + 3] - 210 * s[k + 4] + 951 * s[k + 5]
    + 3876 * s[k + 6] - 805 * s[k + 7] + 362 * s[k + 8] - 156 * s[k + 9] + 53 * s[k + 10] - 11 * s[k + 11]
  }

  /** And weighted by them in reverse. */
  function Backwards(s: seq<int>, k: nat): int
    requires k + 12 <= |s|
  {
    -11 * s[k] + 53 * s[k + 1] - 156 * s[k + 2] + 362 * s[k + 3] - 805 * s[k + 4] + 3876 * s[k + 5]
    + 951 * s[k + 6] - 210 * s[k + 7] + 32 * s[k + 8] + 12 * s[k + 9] - 11 * s[k + 10] + 3 * s[k + 11]
  }

  /** One after the other: the correlation of the coefficients with themselves, of which the middle is the
      sum of their squares, 2^24 and a little. */
  function Both(s: seq<int>): int
    requires |s| == 23
  {
    -33 * s[0] + 280 * s[1] - 1183 * s[2] + 3086 * s[3] - 4263 * s[4] - 1756 * s[5] + 2668 * s[6] - 432 * s[7]
    - 141 * s[8] - 2325 * s[9] + 2952 * s[10] + 16779510 * s[11] + 2952 * s[12] - 2325 * s[13] - 141 * s[14]
    - 432 * s[15] + 2668 * s[16] - 1756 * s[17] - 4263 * s[18] + 3086 * s[19] - 1183 * s[20] + 280 * s[21] - 33 * s[22]
  }

  lemma BackwardsOfForwardsWeights(s: seq<int>)
    requires |s| == 23
    ensures -11 * Forwards(s, 0) + 53 * Forwards(s, 1) - 156 * Forwards(s, 2) + 362 * Forwards(s, 3) - 805 *
         Forwards(s, 4) + 3876 * Forwards(s, 5) + 951 * Forwards(s, 6) - 210 * Forwards(s, 7) + 32 *
         Forwards(s, 8) + 12 * Forwards(s, 9) - 11 * Forwards(s, 10) + 3 * Forwards(s, 11)
         == Both(s)
  {
  }

  lemma BackwardsOfForwards(s: seq<int>, f: seq<int>)
    requires |s| == 23 && |f| == 12 && forall k :: 0 <= k < 12 ==> f[k] == Forwards(s, k)
    ensures Backwards(f, 0) == Both(s)
  {
    hide Forwards, Both;
    BackwardsOfForwardsWeights(s);
  }

  lemma ForwardsOfBackwardsWeights(s: seq<int>)
    requires |s| == 23
    ensures 3 * Backwards(s, 0) - 11 * Backwards(s, 1) + 12 * Backwards(s, 2) + 32 * Backwards(s, 3) - 210 *
         Backwards(s, 4) + 951 * Backwards(s, 5) + 3876 * Backwards(s, 6) - 805 * Backwards(s, 7) + 362 *
         Backwards(s, 8) - 156 * Backwards(s, 9) + 53 * Backwards(s, 10) - 11 * Backwards(s, 11)
         == Both(s)
  {
  }

  lemma ForwardsOfBackwards(s: seq<int>, f: seq<int>)
    requires |s| == 23 && |f| == 12 && forall k :: 0 <= k < 12 ==> f[k] == Backwards(s, k)
    ensures Forwards(f, 0) == Both(s)
  {
    hide Backwards, Both;
    ForwardsOfBackwardsWeights(s);
  }

  predicate Within(s: seq<int>, m: int) {
    forall i :: 0 <= i < |s| ==> -m <= s[i] <= m
  }

  /** All but the middle sample weigh less than 1/400 of it between them. */
  lemma MiddleWeighsMost(s: seq<int>, m: int)
    requires |s| == 23 && Within(s, m)
    ensures -40532 * m <= Both(s) - 0x100_0000 * s[11] <= 40532 * m
  {
  }

  /** Twelve small changes make a small change. */
  predicate Near(a: seq<int>, b: seq<int>, e: int) {
    |a| == |b| && forall i :: 0 <= i < |a| ==> -e <= a[i] - b[i] <= e
  }

  lemma ForwardsNear(a: seq<int>, b: seq<int>, e: int)
    requires |a| == 12 && |b| == 12 && Near(a, b, e)
    ensures -6482 * e <= Forwards(a, 0) - Forwards(b, 0) <= 6482 * e
  {
  }

  lemma BackwardsNear(a: seq<int>, b: seq<int>, e: int)
    requires |a| == 12 && |b| == 12 && Near(a, b, e)
    ensures -6482 * e <= Backwards(a, 0) - Backwards(b, 0) <= 6482 * e
  {
  }

  function Times(s: seq<int>, c: int): (r: seq<int>)
    ensures |r| == |s|
  {
    seq(|s|, i requires 0 <= i < |s| => c * s[i])
  }

  lemma WeightedTimes(s: seq<int>, c: int)
    requires |s| == 12 && c == 8192
    ensures Forwards(Times(s, c), 0) == c * Forwards(s, 0) && Backwards(Times(s, c), 0) == c * Backwards(s, 0)
  {
  }

  // ----- The filters of the program

  /** Every other entry of a filter history. */
  function Evens(x: seq<i32>): (e: seq<int>)
    requires |x| == 24
    ensures |e| == 12
  {
    seq(12, i requires 0 <= i < 12 => x[2 * i] as int)
  }

  function Odds(x: seq<i32>): (o: seq<int>)
    requires |x| == 24
    ensures |o| == 12
  {
    seq(12, i requires 0 <= i < 12 => x[2 * i + 1] as int)
  }

  lemma SumOddFirst(x: seq<i32>)
    requires All16(x, 24)
    ensures SumOdd(x, 6) as int
         == 3 * x[0] as int - 11 * x[2] as int + 12 * x[4] as int + 32 * x[6] as int - 210 * x[8] as int + 951 * x[10] as int
  {
    assert SumOdd(x, 1) as int == 3 * x[0] as int;
    assert SumOdd(x, 2) as int == SumOdd(x, 1) as int - 11 * x[2] as int;
    assert SumOdd(x, 3) as int == SumOdd(x, 2) as int + 12 * x[4] as int;
    assert SumOdd(x, 4) as int == SumOdd(x, 3) as int + 32 * x[6] as int;
    assert SumOdd(x, 5) as int == SumOdd(x, 4) as int - 210 * x[8] as int;
    assert SumOdd(x, 6) as int == SumOdd(x, 5) as int + 951 * x[10] as int;
  }

  lemma SumOddIs(x: seq<i32>)
    requires All16(x, 24)
    ensures SumOdd(x, 12) as int == Forwards(Evens(x), 0)
  {
    SumOddFirst(x);
    assert SumOdd(x, 7) as int == SumOdd(x, 6) as int + 3876 * x[12] as int;
    assert SumOdd(x, 8) as int == SumOdd(x, 7) as int - 805 * x[14] as int;
    assert SumOdd(x, 9) as int == SumOdd(x, 8) as int + 362 * x[16] as int;
    assert SumOdd(x, 10) as int == SumOdd(x, 9) as int - 156 * x[18] as int;
    assert SumOdd(x, 11) as int == SumOdd(x, 10) as int + 53 * x[20] as int;
    assert SumOdd(x, 12) as int == SumOdd(x, 11) as int - 11 * x[22] as int;
  }

  lemma SumEvenFirst(x: seq<i32>)
    requires All16(x, 24)
    ensures SumEven(x, 6) as int
         == -11 * x[1] as int + 53 * x[3] as int - 156 * x[5] as int + 362 * x[7] as int - 805 * x[9] as int + 3876 * x[11] as int
  {
    assert SumEven(x, 1) as int == -11 * x[1] as int;
    assert SumEven(x, 2) as int == SumEven(x, 1) as int + 53 * x[3] as int;
    assert SumEven(x, 3) as int == SumEven(x, 2) as int - 156 * x[5] as int;
    assert SumEven(x, 4) as int == SumEven(x, 3) as int + 362 * x[7] as int;
    assert SumEven(x, 5) as int == SumEven(x, 4) as int - 805 * x[9] as int;
    assert SumEven(x, 6) as int == SumEven(x, 5) as int + 3876 * x[11] as int;
  }

  lemma SumEvenIs(x: seq<i32>)
    requires All16(x, 24)
    ensures SumEven(x, 12) as int == Backwards(Odds(x), 0)
  {
    SumEvenFirst(x);
    assert SumEven(x, 7) as int == SumEven(x, 6) as int + 951 * x[13] as int;
    assert SumEven(x, 8) as int == SumEven(x, 7) as int - 210 * x[15] as int;
    assert SumEven(x, 9) as int == SumEven(x, 8) as int + 32 * x[17] as int;
    assert SumEven(x, 10) as int == SumEven(x, 9) as int + 12 * x[19] as int;
    assert SumEven(x, 11) as int == SumEven(x, 10) as int - 11 * x[21] as int;
    assert SumEven(x, 12) as int == SumEven(x, 11) as int + 3 * x[23] as int;
  }

  // ----- Filter histories

  /** Two samples that go into a filter together. */
  datatype Pair = Pair(first: Sample, second: Sample)

  /** The filter history after these pairs. */
  function History(ps: seq<Pair>): (x: seq<i32>)
    ensures All16(x, 24)
  {
    if ps == [] then FRESH_X
    else Shifted(History(ps[..|ps| - 1]), ps[|ps| - 1].first, ps[|ps| - 1].second)
  }

  /** A pair by number; before the first all is silence. */
  function At(ps: seq<Pair>, k: int): Pair
    requires k < |ps|
  {
    if k < 0 then Pair(0, 0) else ps[k]
  }

  /** As many first samples from pair `k` on, and as many second ones. */
  function Firsts(ps: seq<Pair>, k: int, n: nat): (s: seq<int>)
    requires k + n <= |ps|
    ensures |s| == n
  {
    seq(n, i requires 0 <= i < n => At(ps, k + i).first as int)
  }

  function Seconds(ps: seq<Pair>, k: int, n: nat): (s: seq<int>)
    requires k + n <= |ps|
    ensures |s| == n
  {
    seq(n, i requires 0 <= i < n => At(ps, k + i).second as int)
  }

  lemma ShiftedIs(x: seq<i32>, first: Sample, second: Sample)
    requires All16(x, 24)
    ensures Evens(Shifted(x, first, second)) == Evens(x)[1..] + [first as int]
    ensures Odds(Shifted(x, first, second)) == Odds(x)[1..] + [second as int]
  {
  }

  lemma WindowSlides(ps: seq<Pair>, k: int)
    requires k + 13 <= |ps|
    ensures Firsts(ps, k + 1, 12) == Firsts(ps, k, 12)[1..] + [At(ps, k + 12).first as int]
    ensures Seconds(ps, k + 1, 12) == Seconds(ps, k, 12)[1..] + [At(ps, k + 12).second as int]
  {
  }

  lemma NothingInSilence(x: seq<i32>)
    requires |x| == 24 && forall i :: 0 <= i < 24 ==> x[i] == 0
    ensures forall i :: 0 <= i < 12 ==> Evens(x)[i] == 0 && Odds(x)[i] == 0
  {
  }

  /** Before the first pair all is silence. */
  lemma BeforeTheFirst(ps: seq<Pair>, k: int, x: seq<i32>)
    requires k + 12 <= 0 && x == FRESH_X
    ensures Firsts(ps, k, 12) == Evens(x) && Seconds(ps, k, 12) == Odds(x)
    ensures Forwards(Firsts(ps, k, 12), 0) == 0 && Backwards(Seconds(ps, k, 12), 0) == 0
  {
    NothingInSilence(x);
    forall i | 0 <= i < 12
      ensures Firsts(ps, k, 12)[i] == 0 == Evens(x)[i] && Seconds(ps, k, 12)[i] == 0 == Odds(x)[i]
    {
      assert k + i < 0;
      assert At(ps, k + i) == Pair(0, 0);
      assert Firsts(ps, k, 12)[i] == At(ps, k + i).first as int;
    }
    assert Firsts(ps, k, 12) == Evens(x);
    assert Seconds(ps, k, 12) == Odds(x);
  }

  /** The history is the last twelve pairs. */
  lemma {:induction false} HistoryIs(ps: seq<Pair>, n: nat)
    requires n <= |ps|
    ensures Evens(History(ps[..n])) == Firsts(ps, n - 12, 12) && Odds(History(ps[..n])) == Seconds(ps, n - 12, 12)
  {
    hide Shifted;
    if n > 0 {
      assert ps[..n][..n - 1] == ps[..n - 1];
      HistoryIs(ps, n - 1);
      ShiftedIs(History(ps[..n - 1]), ps[n - 1].first, ps[n - 1].second);
      WindowSlides(ps, n - 13);
    } else {
      assert ps[..0] == [];
      BeforeTheFirst(ps, -12, History([]));
    }
  }

  lemma SumsAre(ps: seq<Pair>, n: nat)
    requires n <= |ps|
    ensures SumOdd(History(ps[..n]), 12) as int == Forwards(Firsts(ps, n - 12, 12), 0)
    ensures SumEven(History(ps[..n]), 12) as int == Backwards(Seconds(ps, n - 12, 12), 0)
  {
    hide Forwards, Backwards, SumOdd, SumEven, History;
    var x := History(ps[..n]);
    HistoryIs(ps, n);
    SumOddIs(x);
    SumEvenIs(x);
  }

  // ----- Split and joined

  /** The two sub-band samples after pair `k`; before the first they are silence. */
  function Bands(ps: seq<Pair>, k: int): (bands: (int, int))
    requires k < |ps|
  {
    if k < 0 then (0, 0) else var (low, high) := Analyze(History(ps[..k + 1])); (low as int, high as int)
  }

  lemma Rounded(e: int, o: int)
    ensures var (low, high) := ((e + o) / 0x4000, (e - o) / 0x4000);
            -16384 <= 8192 * (low + high) - e <= 16384 && -16384 <= 8192 * (low - high) - o <= 16384
  {
  }

  /** The sum and the difference of the sub-bands are the two weighted sums, but for the rounding. */
  lemma BandsAre(ps: seq<Pair>, k: int)
    requires k < |ps|
    ensures var (low, high) := Bands(ps, k);
            && -16384 <= 8192 * (low + high) - Backwards(Seconds(ps, k - 11, 12), 0) <= 16384
            && -16384 <= 8192 * (low - high) - Forwards(Firsts(ps, k - 11, 12), 0) <= 16384
  {
    hide SumOdd, SumEven, History, Forwards, Backwards, Firsts, Seconds;
    if k >= 0 {
      SumsAre(ps, k + 1);
      var x := History(ps[..k + 1]);
      Rounded(SumEven(x, 12) as int, SumOdd(x, 12) as int);
    } else {
      BeforeTheFirst(ps, k - 11, FRESH_X);
    }
  }

  /** What goes into the joining filter with pair `k` is within `d` of what came out of the splitting one. */
  predicate Follows(ps: seq<Pair>, fed: seq<Pair>, k: int, d: int)
    requires k < |ps| && k < |fed|
  {
    var (low, high) := Bands(ps, k);
    && -d <= At(fed, k).first as int - (low + high) <= d
    && -d <= At(fed, k).second as int - (low - high) <= d
  }

  /** How far off a sample may be: a 400th of the loudest around it, four for every one the sub-bands are off,
      and the rounding. */
  function Off(m: int, d: int): int {
    m / 400 + 4 * d + 9
  }

  predicate IsNear(sample: int, original: int, off: int) {
    -off <= sample - original <= off
  }

  /** Backwards over twelve sums forwards, and the other way round. */
  lemma BackwardsRebuilds(s: seq<int>, f: seq<int>, m: int, d: int)
    requires |s| == 23 && Within(s, m) && |f| == 12
    requires forall k :: 0 <= k < 12 ==> CloseTo(f[k], Forwards(s, k), d)
    ensures IsRebuilt(Backwards(f, 0), s[11], m, d)
  {
    hide Forwards, Backwards, Both, Within;
    MiddleWeighsMost(s, m);
    WeightedTimes(f, 8192);
    var sums := seq(12, k requires 0 <= k < 12 => Forwards(s, k));
    BackwardsOfForwards(s, sums);
    BackwardsNear(Times(f, 8192), sums, 8192 * (d + 2));
  }

  lemma ForwardsRebuilds(s: seq<int>, f: seq<int>, m: int, d: int)
    requires |s| == 23 && Within(s, m) && |f| == 12
    requires forall k :: 0 <= k < 12 ==> CloseTo(f[k], Backwards(s, k), d)
    ensures IsRebuilt(Forwards(f, 0), s[11], m, d)
  {
    hide Forwards, Backwards, Both, Within;
    MiddleWeighsMost(s, m);
    WeightedTimes(f, 8192);
    var sums := seq(12, k requires 0 <= k < 12 => Backwards(s, k));
    ForwardsOfBackwards(s, sums);
    ForwardsNear(Times(f, 8192), sums, 8192 * (d + 2));
  }

  predicate CloseTo(band: int, sum: int, d: int) {
    -(8192 * (d + 2)) <= 8192 * band - sum <= 8192 * (d + 2)
  }

  predicate IsRebuilt(sum: int, original: int, m: int, d: int) {
    -40532 * m - 6482 * 8192 * (d + 2) <= 8192 * sum - 0x100_0000 * original <= 40532 * m + 6482 * 8192 * (d + 2)
  }

  /** Scaled down and held in 16 bits, it is near. */
  lemma RebuiltIsNear(sum: i32, original: Sample, m: int, d: int)
    requires 0 <= m && 0 <= d && IsRebuilt(sum as int, original as int, m, d)
    ensures IsNear(ToSample(sum / 0x800) as int, original as int, Off(m, d))
  {
    assert m <= 400 * (m / 400) + 399;
  }

  /** Part of a longer stretch. */
  lemma PartOfFirsts(ps: seq<Pair>, k: int, j: nat)
    requires k + 23 <= |ps| && j < 12
    ensures Forwards(Firsts(ps, k, 23), j) == Forwards(Firsts(ps, k + j, 12), 0)
  {
  }

  lemma PartOfSeconds(ps: seq<Pair>, k: int, j: nat)
    requires k + 23 <= |ps| && j < 12
    ensures Backwards(Seconds(ps, k, 23), j) == Backwards(Seconds(ps, k + j, 12), 0)
  {
  }

  /** No sample of these pairs is louder than `m`. */
  predicate Quiet(ps: seq<Pair>, k: int, n: nat, m: int)
    requires k + n <= |ps|
  {
    Within(Firsts(ps, k, n), m) && Within(Seconds(ps, k, n), m)
  }

  /** What the joining filter makes of sub-bands within `d` of what the splitting filter made of the PCM: the
      pair of eleven pairs before, its first sample first and its second second. */
  lemma Reconstructs(ps: seq<Pair>, fed: seq<Pair>, k: nat, m: int, d: int)
    requires k < |ps| && k < |fed| && 0 <= m && 0 <= d && Quiet(ps, k - 22, 23, m)
    requires forall i :: k - 12 < i <= k ==> Follows(ps, fed, i, d)
    ensures var (first, second) := Synthesize(History(fed[..k + 1]));
            && IsNear(first as int, At(ps, k - 11).first as int, Off(m, d))
            && IsNear(second as int, At(ps, k - 11).second as int, Off(m, d))
  {
    hide Forwards, Backwards, History, SumOdd, SumEven, IsRebuilt, IsNear, ToSample, Bands;
    var u, v := Firsts(ps, k - 22, 23), Seconds(ps, k - 22, 23);
    var a, b := Firsts(fed, k - 11, 12), Seconds(fed, k - 11, 12);
    SumsAre(fed, k + 1);
    forall j | 0 <= j < 12
      ensures CloseTo(b[j], Forwards(u, j), d) && CloseTo(a[j], Backwards(v, j), d)
    {
      PartOfFirsts(ps, k - 22, j);
      PartOfSeconds(ps, k - 22, j);
      BandsAre(ps, k - 11 + j);
      assert Follows(ps, fed, k - 11 + j, d);
    }
    BackwardsRebuilds(u, b, m, d);
    ForwardsRebuilds(v, a, m, d);
    var x := History(fed[..k + 1]);
    RebuiltIsNear(SumEven(x, 12), At(ps, k - 11).first, m, d);
    RebuiltIsNear(SumOdd(x, 12), At(ps, k - 11).second, m, d);
  }

  /** Nothing at all is off in between: PCM split and joined. */
  function Joined(ps: seq<Pair>): (fed: seq<Pair>)
    ensures |fed| == |ps|
  {
    if ps == [] then []
    else
      var (low, high) := Analyze(History(ps));
      SumFits(History(ps));
      Joined(ps[..|ps| - 1]) + [Pair(low + high, low - high)]
  }

  lemma SumFits(x: seq<i32>)
    requires All16(x, 24)
    ensures var (low, high) := Analyze(x); Is16(low + high) && Is16(low - high)
  {
    hide SumOdd, SumEven;
    MassOddBound(12);
    MassEvenBound(12);
    Rounded(SumEven(x, 12) as int, SumOdd(x, 12) as int);
  }

  lemma {:induction false} JoinedFollows(ps: seq<Pair>, k: int, n: nat)
    requires k < n <= |ps|
    ensures k < |Joined(ps[..n])| && Follows(ps, Joined(ps[..n]), k, 0)
  {
    hide Analyze, History;
    if k >= 0 {
      assert ps[..n][..n - 1] == ps[..n - 1];
      if k < n - 1 { JoinedFollows(ps, k, n - 1); }
    }
  }

  lemma {:induction false} JoinedGrows(ps: seq<Pair>, n: nat)
    requires n <= |ps|
    ensures Joined(ps[..n]) == Joined(ps)[..n]
    decreases |ps|
  {
    hide Analyze, History;
    if n == |ps| {
      assert ps[..n] == ps;
    } else {
      var last := |ps| - 1;
      assert ps[..last][..n] == ps[..n];
      JoinedGrows(ps[..last], n);
    }
  }

  /** What comes out of the joining filter with pair `k`. */
  function Rejoined(ps: seq<Pair>, k: nat): (out: (Sample, Sample))
    requires k < |ps|
  {
    Synthesize(History(Joined(ps)[..k + 1]))
  }

  /** The filter bank alone: split and joined, every sample comes back eleven pairs later, in its place, within a
      400th of the loudest of the 23 pairs around it and 9 more. */
  lemma BankReconstructs(ps: seq<Pair>, k: nat, m: int)
    requires k < |ps| && 0 <= m && Quiet(ps, k - 22, 23, m)
    ensures var (first, second) := Rejoined(ps, k);
            && IsNear(first as int, At(ps, k - 11).first as int, m / 400 + 9)
            && IsNear(second as int, At(ps, k - 11).second as int, m / 400 + 9)
  {
    hide Synthesize, History, Joined, Follows, Quiet;
    forall i | k - 12 < i <= k ensures Follows(ps, Joined(ps), i, 0) {
      JoinedFollows(ps, i, |ps|);
      assert ps[..|ps|] == ps;
    }
    Reconstructs(ps, Joined(ps), k, m, 0);
  }

  lemma SteadyWeights(s: seq<int>, c: int)
    requires |s| == 12 && forall i :: 0 <= i < 12 ==> s[i] == c
    ensures Forwards(s, 0) == 4096 * c && Backwards(s, 0) == 4096 * c
  {
  }

  /** A steady sound is all in the low band, at half its level. */
  lemma LowIsLow(x: seq<i32>, c: i32)
    requires All16(x, 24) && forall i :: 0 <= i < 12 ==> Evens(x)[i] == Odds(x)[i] == c as int
    ensures Analyze(x) == (c / 2, 0)
  {
    hide SumOdd, SumEven, Evens, Odds, Forwards, Backwards;
    SumOddIs(x);
    SumEvenIs(x);
    SteadyWeights(Evens(x), c as int);
    SteadyWeights(Odds(x), c as int);
  }

  /** And one at half the sampling rate all in the high band. */
  lemma HighIsHigh(x: seq<i32>, c: i32)
    requires All16(x, 24) && Is16(c) && forall i :: 0 <= i < 12 ==> Evens(x)[i] == c as int && Odds(x)[i] == -(c as int)
    ensures Analyze(x) == (0, -c / 2)
  {
    hide SumOdd, SumEven, Evens, Odds, Forwards, Backwards;
    SumOddIs(x);
    SumEvenIs(x);
    SteadyWeights(Evens(x), c as int);
    SteadyWeights(Odds(x), -(c as int));
  }
}
