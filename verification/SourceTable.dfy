/** The per-source receive tables of an SRTP context: append-only lists keyed by SSRC. */
module SourceTable {
  import opened Bytes

  const MAX_RX_SOURCES := 64

  datatype Source<+T> = Source(ssrc: u32, state: T)

  /** Where the first entry for `ssrc` is. */
  function Position<T>(table: seq<Source<T>>, ssrc: u32): (position: Option<nat>)
    ensures position.Some? ==> position.value < |table| && table[position.value].ssrc == ssrc
    ensures position.None? ==> forall s :: s in table ==> s.ssrc != ssrc
  {
    if table == [] then None
    else if table[0].ssrc == ssrc then Some(0)
    else match Position(table[1..], ssrc)
         case None => None
         case Some(i) => Some(i + 1)
  }

  function Lookup<T>(table: seq<Source<T>>, ssrc: u32): Option<T> {
    match Position(table, ssrc)
    case None => None
    case Some(i) => Some(table[i].state)
  }

  predicate HasRoom<T>(table: seq<Source<T>>, ssrc: u32) {
    Position(table, ssrc).Some? || |table| < MAX_RX_SOURCES
  }

  /** Store a source's state. Never evicts. */
  function Remember<T>(table: seq<Source<T>>, source: Source<T>): seq<Source<T>> {
    match Position(table, source.ssrc)
    case Some(i) => table[i := source]
    case None => table + [source]
  }

  /** No source is listed twice and there are at most 64. */
  ghost predicate WellFormed<T>(table: seq<Source<T>>) {
    && |table| <= MAX_RX_SOURCES
    && forall i, j :: 0 <= i < j < |table| ==> table[i].ssrc != table[j].ssrc
  }

  /** `later` still has every source of `earlier`, in the same place. */
  ghost predicate Keeps<T>(earlier: seq<Source<T>>, later: seq<Source<T>>) {
    && |earlier| <= |later|
    && forall i :: 0 <= i < |earlier| ==> earlier[i].ssrc == later[i].ssrc
  }

  /** `Position` finds the first entry and nothing but. */
  lemma {:induction false} PositionIs<T>(table: seq<Source<T>>, ssrc: u32, i: nat)
    requires i < |table| && table[i].ssrc == ssrc
    requires forall j :: 0 <= j < i ==> table[j].ssrc != ssrc
    ensures Position(table, ssrc) == Some(i)
  {
    if i > 0 {
      PositionIs(table[1..], ssrc, i - 1);
    }
  }

  lemma NoPosition<T>(table: seq<Source<T>>, ssrc: u32)
    requires forall j :: 0 <= j < |table| ==> table[j].ssrc != ssrc
    ensures Position(table, ssrc).None?
  {
  }

  lemma {:induction false} PositionIsFirst<T>(table: seq<Source<T>>, ssrc: u32)
    ensures var p := Position(table, ssrc);
            p.Some? ==> forall j :: 0 <= j < p.value ==> table[j].ssrc != ssrc
  {
    if table != [] && table[0].ssrc != ssrc {
      PositionIsFirst(table[1..], ssrc);
      var p := Position(table, ssrc);
      if p.Some? {
        forall j | 0 <= j < p.value ensures table[j].ssrc != ssrc {
          if j > 0 { assert table[j] == table[1..][j - 1]; }
        }
      }
    }
  }

  /** Storing one source changes what is known of that source and of no other. */
  lemma RememberLookup<T>(table: seq<Source<T>>, source: Source<T>, other: u32)
    ensures Lookup(Remember(table, source), other)
         == if other == source.ssrc then Some(source.state) else Lookup(table, other)
  {
    var after := Remember(table, source);
    var at := Position(table, source.ssrc);
    PositionIsFirst(table, source.ssrc);
    if other == source.ssrc {
      PositionIs(after, other, if at.Some? then at.value else |table|);
    } else {
      PositionIsFirst(table, other);
      var p := Position(table, other);
      if p.Some? {
        PositionIs(after, other, p.value);
      } else {
        forall s | s in after ensures s.ssrc != other {}
      }
    }
  }

  lemma RememberLookups<T>(table: seq<Source<T>>, source: Source<T>)
    ensures Lookup(Remember(table, source), source.ssrc) == Some(source.state)
    ensures forall other: u32 :: other != source.ssrc ==> Lookup(Remember(table, source), other) == Lookup(table, other)
  {
    forall other: u32 {
      RememberLookup(table, source, other);
    }
  }

  lemma RememberWellFormed<T>(table: seq<Source<T>>, source: Source<T>)
    requires WellFormed(table) && HasRoom(table, source.ssrc)
    ensures WellFormed(Remember(table, source)) && Keeps(table, Remember(table, source))
  {
  }

  function Sources<T>(table: seq<Source<T>>): set<u32> {
    set i | 0 <= i < |table| :: table[i].ssrc
  }

  lemma RememberSources<T>(table: seq<Source<T>>, source: Source<T>)
    ensures Sources(Remember(table, source)) == Sources(table) + {source.ssrc}
  {
    var after := Remember(table, source);
    forall x | x in Sources(table) + {source.ssrc} ensures x in Sources(after) {
      if x == source.ssrc {
        var i := Position(table, x).UnwrapOr(|table|);
        assert after[i].ssrc == x;
      } else {
        var i :| 0 <= i < |table| && table[i].ssrc == x;
        assert after[i].ssrc == x;
      }
    }
    forall x | x in Sources(after) ensures x in Sources(table) + {source.ssrc} {
      var i :| 0 <= i < |after| && after[i].ssrc == x;
      if i < |table| { assert table[i].ssrc in Sources(table); }
    }
  }

  /** There is room exactly for the sources listed and, while they are fewer than 64, for any other. */
  lemma HasRoomIff<T>(table: seq<Source<T>>, ssrc: u32)
    requires WellFormed(table)
    ensures HasRoom(table, ssrc) <==> ssrc in Sources(table) || |Sources(table)| < 64
  {
    SourcesSize(table);
    if Position(table, ssrc).Some? { assert table[Position(table, ssrc).value].ssrc in Sources(table); }
  }

  lemma {:induction false} SourcesSize<T>(table: seq<Source<T>>)
    requires forall i, j :: 0 <= i < j < |table| ==> table[i].ssrc != table[j].ssrc
    ensures |Sources(table)| == |table|
  {
    if table == [] {
      assert Sources(table) == {};
    } else {
      var n := |table| - 1;
      SourcesSize(table[..n]);
      assert table == table[..n] + [table[n]];
      assert Sources(table) == Sources(table[..n]) + {table[n].ssrc};
    }
  }
}
