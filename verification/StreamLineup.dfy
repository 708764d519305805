/** Which of a sender's packets should be played: every one with audio, and, where a digit comes between two
    of them, a stand-in for each of the digit's packets, unless those are too many. */
module StreamLineup {
  import opened Bytes
  import JR = JitterRuns
  import JO = JitterInOrder

  /** Which packets carry audio. */
  function AudioOf(tags: seq<Option<nat>>): seq<nat> {
    if tags == [] then []
    else AudioOf(tags[..|tags| - 1]) + if tags[|tags| - 1].None? then [|tags| - 1] else []
  }

  /** The numbers from `a` up to `b`, unless they are more than `d`. */
  function Between(a: nat, b: nat, d: nat): (gap: seq<nat>)
    ensures |gap| == if a <= b && b - a <= d then b - a else 0
    ensures forall i :: 0 <= i < |gap| ==> gap[i] == a + i
  {
    if a <= b && b - a <= d then seq(b - a, i requires 0 <= i < b - a => a + i) else []
  }

  /** The packets played, by number: those with audio, and between two of them every packet of a digit,
      unless those are more than `d`. */
  function Lineup(idx: seq<nat>, d: nat): seq<nat> {
    if idx == [] then []
    else
      var n := |idx| - 1;
      Lineup(idx[..n], d) + (if n == 0 then [] else Between(idx[n - 1] + 1, idx[n], d)) + [idx[n]]
  }

  ghost predicate Ascends(idx: seq<nat>) {
    forall i, j :: 0 <= i < j < |idx| ==> idx[i] < idx[j]
  }

  /** They are the packets without a tag, all of them, in order. */
  lemma {:induction false} AudioIsAscending(tags: seq<Option<nat>>, n: nat)
    requires n <= |tags|
    ensures Ascends(AudioOf(tags[..n]))
    ensures forall i :: 0 <= i < |AudioOf(tags[..n])| ==> AudioOf(tags[..n])[i] < n && tags[AudioOf(tags[..n])[i]].None?
    ensures forall i :: 0 <= i < n && tags[i].None? ==> i in AudioOf(tags[..n])
  {
    if n > 0 {
      assert tags[..n][..n - 1] == tags[..n - 1];
      AudioIsAscending(tags, n - 1);
    }
  }

  lemma {:induction false} AudioGrows(tags: seq<Option<nat>>, n: nat)
    requires n <= |tags|
    ensures AudioOf(tags[..n]) <= AudioOf(tags)
    decreases |tags|
  {
    if n == |tags| {
      assert tags[..n] == tags;
    } else {
      var last := |tags| - 1;
      assert tags[..last][..n] == tags[..n];
      AudioGrows(tags[..last], n);
    }
  }

  lemma LineupLonger(idx: seq<nat>, d: nat, n: nat)
    requires 0 < n <= |idx|
    ensures Lineup(idx[..n], d)
         == Lineup(idx[..n - 1], d) + (if n == 1 then [] else Between(idx[n - 2] + 1, idx[n - 1], d)) + [idx[n - 1]]
  {
    hide Between;
    assert idx[..n][..n - 1] == idx[..n - 1];
  }

  lemma {:induction false} LineupGrows(idx: seq<nat>, d: nat, n: nat)
    requires n <= |idx|
    ensures Lineup(idx[..n], d) <= Lineup(idx, d)
    decreases |idx|
  {
    hide Between;
    if n == |idx| {
      assert idx[..n] == idx;
    } else {
      var last := |idx| - 1;
      assert idx[..last][..n] == idx[..n];
      LineupGrows(idx[..last], d, n);
    }
  }

  /** Every number at most once, in order, and every packet with audio among them. */
  lemma {:induction false} LineupAscends(idx: seq<nat>, d: nat, n: nat)
    requires Ascends(idx) && n <= |idx|
    ensures Ascends(Lineup(idx[..n], d))
    ensures forall k :: k in Lineup(idx[..n], d) ==> n > 0 && k <= idx[n - 1]
    ensures forall j :: 0 <= j < n ==> idx[j] in Lineup(idx[..n], d)
  {
    hide Lineup, Between;
    if n == 0 {
      NoLineup(idx, d);
    } else {
      LineupAscends(idx, d, n - 1);
      LineupLonger(idx, d, n);
      OneMoreAscends(Lineup(idx[..n - 1], d), BetweenOf(idx, d, n), if n == 1 then 0 else idx[n - 2] + 1, idx[n - 1]);
    }
  }

  lemma OneMoreAscends(before: seq<nat>, gap: seq<nat>, a: nat, last: nat)
    requires Ascends(before) && Ascends(gap) && (forall k :: k in before ==> k < a <= last)
    requires forall k :: k in gap ==> a <= k < last
    ensures var all := before + gap + [last];
            && Ascends(all) && (forall k :: k in all ==> k <= last) && (forall k :: k in before + [last] ==> k in all)
  {
    var all := before + gap + [last];
    forall i, j | 0 <= i < j < |all| ensures all[i] < all[j] {
      assert i < |before| ==> all[i] in before;
      assert |before| <= i < |before + gap| ==> all[i] in gap;
      assert |before| <= j < |before + gap| ==> all[j] in gap;
    }
    assert all[|before + gap|] == last;
  }

  // ----- When there are no stand-ins

  /** Between this packet with audio and the one before it there is no other, or there are too many. */
  predicate Silent(idx: seq<nat>, d: nat, j: nat)
    requires j < |idx|
  {
    j > 0 ==> Between(idx[j - 1] + 1, idx[j], d) == []
  }

  lemma {:induction false} SilentLineup(idx: seq<nat>, d: nat, n: nat)
    requires n <= |idx| && forall j :: 0 <= j < n ==> Silent(idx, d, j)
    ensures Lineup(idx[..n], d) == idx[..n]
  {
    hide Lineup, Between;
    if n == 0 {
      NoLineup(idx, d);
    } else {
      SilentLineup(idx, d, n - 1);
      LineupLonger(idx, d, n);
      assert Silent(idx, d, n - 1);
    }
  }

  lemma NoLineup(idx: seq<nat>, d: nat)
    ensures Lineup(idx[..0], d) == [] == idx[..0]
  {
  }

  predicate AudioAt(tags: seq<Option<nat>>, k: nat) {
    k < |tags| && tags[k].None?
  }

  /** The first `m` played are all audio exactly when they are the first `m` packets with audio; and that
      is when between no two of those is there a digit short enough to be played as stand-ins. */
  lemma {:induction false} NoStandInsIff(tags: seq<Option<nat>>, d: nat, m: nat)
    requires m <= |Lineup(AudioOf(tags), d)|
    ensures var idx, lineup := AudioOf(tags), Lineup(AudioOf(tags), d);
            && ((forall i :: 0 <= i < m ==> AudioAt(tags, lineup[i])) <==> m <= |idx| && lineup[..m] == idx[..m])
            && ((forall i :: 0 <= i < m ==> AudioAt(tags, lineup[i])) <==>
                  m <= |idx| && forall j :: 0 <= j < m ==> Silent(idx, d, j))
  {
    hide Lineup, Silent, AudioOf;
    var idx, lineup := AudioOf(tags), Lineup(AudioOf(tags), d);
    assert tags[..|tags|] == tags;
    AudioIsAscending(tags, |tags|);
    if forall i :: 0 <= i < m ==> AudioAt(tags, lineup[i]) {
      AudioIsSilent(tags, d, m);
    }
    if m <= |idx| && forall j :: 0 <= j < m ==> Silent(idx, d, j) {
      SilentLineup(idx, d, m);
      LineupGrows(idx, d, m);
    }
    if m <= |idx| && lineup[..m] == idx[..m] {
      forall i | 0 <= i < m ensures AudioAt(tags, lineup[i]) { assert lineup[..m][i] == idx[..m][i]; }
    }
  }

  lemma {:induction false} AudioIsSilent(tags: seq<Option<nat>>, d: nat, m: nat)
    requires m <= |Lineup(AudioOf(tags), d)|
    requires forall i :: 0 <= i < m ==> AudioAt(tags, Lineup(AudioOf(tags), d)[i])
    ensures m <= |AudioOf(tags)| && forall j :: 0 <= j < m ==> Silent(AudioOf(tags), d, j)
  {
    hide Lineup, AudioOf, Silent;
    var idx := AudioOf(tags);
    if m > 0 {
      AudioIsSilent(tags, d, m - 1);
      SilentLineup(idx, d, m - 1);
      assert idx[..|idx|] == idx;
      if m - 1 < |idx| {
        LineupLonger(idx, d, m);
        LineupGrows(idx, d, m);
        NextIsSilent(tags, d, m - 1);
      }
    }
  }

  /** After packets with audio alone comes the first number of the gap, if there is one to fill. */
  lemma NextIsSilent(tags: seq<Option<nat>>, d: nat, j: nat)
    requires j < |AudioOf(tags)| && j < |Lineup(AudioOf(tags), d)| && AudioAt(tags, Lineup(AudioOf(tags), d)[j])
    requires var idx := AudioOf(tags);
             idx[..j] + (if j == 0 then [] else Between(idx[j - 1] + 1, idx[j], d)) + [idx[j]] <= Lineup(idx, d)
    ensures Silent(AudioOf(tags), d, j)
  {
    hide Lineup, AudioOf;
    var idx := AudioOf(tags);
    assert tags[..|tags|] == tags;
    AudioIsAscending(tags, |tags|);
    if !Silent(idx, d, j) {
      var k := idx[j - 1] + 1;
      assert Lineup(idx, d)[j] == k && k in idx;
      OutsideAt(idx, j, k);
    }
  }

  // ----- Both ends of the run

  /** Play for play: the same number, moved by `shift`; and the packet sent under it, or a stand-in if none
      was. */
  ghost predicate PlayIs(sent: seq<JR.Play>, idx: seq<nat>, shift: int, play: JR.Play, k: nat) {
    && play.number == k + shift
    && if play.packet.Some? then exists j :: 0 <= j < |idx| && idx[j] == k && j < |sent| && sent[j] == play else k !in idx
  }

  ghost predicate LineIs(sent: seq<JR.Play>, idx: seq<nat>, shift: int, line: seq<JR.Play>, lineup: seq<nat>) {
    |line| == |lineup| && forall i :: 0 <= i < |line| ==> PlayIs(sent, idx, shift, line[i], lineup[i])
  }

  /** The packets sent to the jitter buffer are those with audio. */
  ghost predicate SentAs(sent: seq<JR.Play>, idx: seq<nat>, shift: int) {
    && |sent| == |idx| && Ascends(idx)
    && forall j :: 0 <= j < |idx| ==> sent[j].number == idx[j] + shift && sent[j].packet.Some?
  }

  lemma LineSum(sent: seq<JR.Play>, idx: seq<nat>, shift: int, a: seq<JR.Play>, b: seq<JR.Play>, x: seq<nat>, y: seq<nat>)
    requires LineIs(sent, idx, shift, a, x) && LineIs(sent, idx, shift, b, y)
    ensures LineIs(sent, idx, shift, a + b, x + y)
  {
    hide PlayIs;
  }

  /** What the jitter buffer has to play is the lineup. */
  lemma {:induction false} LineIsLineup(sent: seq<JR.Play>, idx: seq<nat>, shift: int, d: nat, n: nat)
    requires SentAs(sent, idx, shift) && n <= |sent|
    ensures LineIs(sent, idx, shift, JO.Line(sent[..n], d), Lineup(idx[..n], d))
  {
    hide JO.Line, Lineup, LineIs, SentAs;
    if n == 0 {
      NothingLinedUp(sent, idx, shift, d);
    } else {
      LineIsLineup(sent, idx, shift, d, n - 1);
      SameSize(sent, idx, shift);
      LineupLonger(idx, d, n);
      LineLonger(sent, d, n);
      GapIsBetween(sent, idx, shift, d, n);
      LineSum(sent, idx, shift, JO.Line(sent[..n - 1], d), GapOf(sent, d, n), Lineup(idx[..n - 1], d), BetweenOf(idx, d, n));
      LastIs(sent, idx, shift, n);
      LineSum(sent, idx, shift, JO.Line(sent[..n - 1], d) + GapOf(sent, d, n), [sent[n - 1]],
              Lineup(idx[..n - 1], d) + BetweenOf(idx, d, n), [idx[n - 1]]);
    }
  }

  lemma SameSize(sent: seq<JR.Play>, idx: seq<nat>, shift: int)
    requires SentAs(sent, idx, shift)
    ensures |sent| == |idx|
  {
  }

  function GapOf(sent: seq<JR.Play>, d: nat, n: nat): seq<JR.Play>
    requires 0 < n <= |sent|
  {
    if n == 1 then [] else JO.GapTo(sent[n - 2].number + 1, sent[n - 1].number, d)
  }

  function BetweenOf(idx: seq<nat>, d: nat, n: nat): seq<nat>
    requires 0 < n <= |idx|
  {
    if n == 1 then [] else Between(idx[n - 2] + 1, idx[n - 1], d)
  }

  lemma NothingLinedUp(sent: seq<JR.Play>, idx: seq<nat>, shift: int, d: nat)
    ensures LineIs(sent, idx, shift, JO.Line(sent[..0], d), Lineup(idx[..0], d))
  {
  }

  lemma LineLonger(sent: seq<JR.Play>, d: nat, n: nat)
    requires 0 < n <= |sent|
    ensures JO.Line(sent[..n], d) == JO.Line(sent[..n - 1], d) + GapOf(sent, d, n) + [sent[n - 1]]
  {
    hide JO.GapTo;
    assert sent[..n][..n - 1] == sent[..n - 1];
  }

  lemma LastIs(sent: seq<JR.Play>, idx: seq<nat>, shift: int, n: nat)
    requires SentAs(sent, idx, shift) && 0 < n <= |sent|
    ensures LineIs(sent, idx, shift, [sent[n - 1]], [idx[n - 1]])
  {
    assert PlayIs(sent, idx, shift, sent[n - 1], idx[n - 1]);
  }

  lemma GapIsBetween(sent: seq<JR.Play>, idx: seq<nat>, shift: int, d: nat, n: nat)
    requires SentAs(sent, idx, shift) && 0 < n <= |sent|
    ensures LineIs(sent, idx, shift, GapOf(sent, d, n), BetweenOf(idx, d, n))
  {
    if n > 1 {
      var a, b := idx[n - 2] + 1, idx[n - 1];
      GapSize(a + shift, b + shift, d);
      forall i | 0 <= i < |GapOf(sent, d, n)| ensures PlayIs(sent, idx, shift, GapOf(sent, d, n)[i], BetweenOf(idx, d, n)[i]) {
        OutsideAt(idx, n - 1, a + i);
      }
    }
  }

  lemma GapSize(a: int, b: int, d: nat)
    ensures |JO.GapTo(a, b, d)| == if a <= b && b - a <= d then b - a else 0
  {
    if a <= b { JR.LossesSize(a, b); }
  }

  /** A number strictly between two of them is none of them. */
  lemma OutsideAt(idx: seq<nat>, j: nat, k: nat)
    requires Ascends(idx) && 0 < j < |idx| && idx[j - 1] < k < idx[j]
    ensures k !in idx
  {
    forall m | 0 <= m < |idx| ensures idx[m] != k {
      if m < j - 1 { assert idx[m] < idx[j - 1]; } else if m > j { assert idx[j] < idx[m]; }
    }
  }
}
