/** The sliding replay window of RFC 3711 section 3.3.2, as a 64-bit bitmap, and the proof
    that the bitmap stands for an unbounded set of received indices. */
module ReplayWindow {
  import opened Bytes

  const REPLAY_WINDOW := 64

  // ----- 64-bit words as numbers

  const TOP_BIT := 0x8000_0000_0000_0000

  /** Bit `k` of `x`. */
  predicate Bit(x: nat, k: nat) {
    if k == 0 then x % 2 == 1 else Bit(x / 2, k - 1)
  }

  /** `x | 1 << k` */
  function SetBit(x: nat, k: nat): nat {
    if k == 0 then x / 2 * 2 + 1 else 2 * SetBit(x / 2, k - 1) + x % 2
  }

  /** `x << k` in 64 bits: what is shifted past bit 63 is lost. */
  function ShiftLeft(x: u64, k: nat): u64
    decreases k
  {
    if k == 0 then x else ShiftLeft(if x < TOP_BIT then 2 * x else 2 * (x - TOP_BIT), k - 1)
  }

  lemma {:induction false} SetBitBits(x: nat, k: nat, b: nat)
    ensures Bit(SetBit(x, k), b) == (Bit(x, b) || b == k)
  {
    if k > 0 && b > 0 {
      SetBitBits(x / 2, k - 1, b - 1);
    }
  }

  lemma {:induction false} SetBitFits(x: nat, k: nat, n: nat)
    requires x < Pow2(n) && k < n
    ensures SetBit(x, k) < Pow2(n)
  {
    if k > 0 {
      SetBitFits(x / 2, k - 1, n - 1);
    }
  }

  lemma Pow2Octet(n: nat)
    ensures Pow2(n + 8) == 0x100 * Pow2(n)
  {
    assert Pow2(n + 4) == 0x10 * Pow2(n) by {
      assert Pow2(n + 4) == 2 * Pow2(n + 3) && Pow2(n + 2) == 2 * Pow2(n + 1);
    }
    assert Pow2(n + 8) == 2 * Pow2(n + 7) && Pow2(n + 6) == 2 * Pow2(n + 5);
  }

  lemma Pow2Of63()
    ensures Pow2(63) == TOP_BIT && Pow2(64) == 2 * TOP_BIT
  {
    assert Pow2(7) == 0x80;
    Pow2Octet(7); Pow2Octet(15); Pow2Octet(23); Pow2Octet(31); Pow2Octet(39); Pow2Octet(47); Pow2Octet(55);
  }

  lemma {:induction false} DropTopBit(x: nat, n: nat, b: nat)
    requires Pow2(n) <= x && b < n
    ensures Bit(x - Pow2(n), b) == Bit(x, b)
  {
    if b > 0 {
      DropTopBit(x / 2, n - 1, b - 1);
      assert (x - Pow2(n)) / 2 == x / 2 - Pow2(n - 1);
    }
  }

  lemma {:induction false} ShiftLeftBits(x: u64, k: nat, b: nat)
    requires b < 64
    ensures Bit(ShiftLeft(x, k), b) == (k <= b && Bit(x, b - k))
    decreases k
  {
    if k > 0 {
      var y := if x < TOP_BIT then 2 * x else 2 * (x - TOP_BIT);
      ShiftLeftBits(y, k - 1, b);
      if k <= b && x >= TOP_BIT {
        Pow2Of63();
        DropTopBit(x, 63, b - k);
      }
    }
  }

  lemma {:induction false} ZeroBits(b: nat)
    ensures !Bit(0, b)
  {
    if b > 0 { ZeroBits(b - 1); }
  }

  // ----- The window

  /** Bit `behind` of `seen` says whether index `highest - behind` was received. */
  datatype Window = Window(highest: Option<u64>, seen: u64) {

    /** An index is let in when it is ahead of the window, or in it with its bit clear. */
    predicate Admits(index: u64) {
      match highest
      case None => true
      case Some(h) => index > h || (h - index < REPLAY_WINDOW && !Bit(seen, h - index))
    }

    /** Note an index that has authenticated and been admitted. */
    function Accept(index: u64): Window
      requires Admits(index)
    {
      match highest
      case None => Window(Some(index), 1)
      case Some(h) =>
        if index <= h then
          this.(seen := Set64(seen, h - index))
        else
          var ahead := index - h;
          var shifted := if ahead >= REPLAY_WINDOW then 0 else ShiftLeft(seen, ahead);
          Window(Some(index), Set64(shifted, 0))
    }
  }

  function Set64(x: u64, k: nat): u64
    requires k < 64
  {
    Pow2Of63();
    SetBitFits(x, k, 64);
    SetBit(x, k)
  }

  const EMPTY := Window(None, 0)

  // ----- The set behind the bitmap

  /** `w` holds exactly what the window needs to know of the set `s` of indices received. */
  ghost predicate Refines(w: Window, s: set<int>) {
    match w.highest
    case None => s == {}
    case Some(h) =>
      && h in s
      && (forall x :: x in s ==> x <= h)
      && (forall b :: 0 <= b < 64 ==> (Bit(w.seen, b) <==> h - b in s))
  }

  /** The window admits an index exactly when it is new to the set and fewer than 64 behind
      everything in it. */
  lemma AdmitsIff(w: Window, s: set<int>, index: u64)
    requires Refines(w, s)
    ensures w.Admits(index) <==> index !in s && forall x :: x in s ==> x - index < REPLAY_WINDOW
  {
    if w.highest.Some? && index <= w.highest.value && w.highest.value - index < REPLAY_WINDOW {
      assert Bit(w.seen, w.highest.value - index) <==> w.highest.value - (w.highest.value - index) in s;
    }
  }

  /** Accepting an index adds it to the set: a late index sets its bit, a newer one slides
      the window. */
  lemma AcceptRefines(w: Window, s: set<int>, index: u64)
    requires Refines(w, s) && w.Admits(index)
    ensures Refines(w.Accept(index), s + {index})
    ensures index !in s
  {
    AdmitsIff(w, s, index);
    var after := w.Accept(index);
    forall b | 0 <= b < 64
      ensures Bit(after.seen, b) <==> after.highest.value - b in s + {index}
    {
      match w.highest
      case None =>
        SetBitBits(0, 0, b);
        ZeroBits(b);
      case Some(h) =>
        if index <= h {
          SetBitBits(w.seen, h - index, b);
        } else if index - h >= REPLAY_WINDOW {
          SetBitBits(0, 0, b);
          ZeroBits(b);
        } else {
          SetBitBits(ShiftLeft(w.seen, index - h), 0, b);
          ShiftLeftBits(w.seen, index - h, b);
        }
    }
  }

  /** An index accepted is not admitted again. */
  lemma AcceptedIsSpent(w: Window, index: u64)
    requires w.Admits(index)
    ensures !w.Accept(index).Admits(index)
  {
    var shifted := match w.highest
                   case None => 0
                   case Some(h) => if index - h >= REPLAY_WINDOW || index <= h then 0 else ShiftLeft(w.seen, index - h);
    SetBitBits(shifted, 0, 0);
    if w.highest.Some? && index <= w.highest.value {
      SetBitBits(w.seen, w.highest.value - index, w.highest.value - index);
    }
  }

  // ----- Whole runs

  /** Admit-then-accept, as every caller does. */
  function Offer(w: Window, index: u64): Window {
    if w.Admits(index) then w.Accept(index) else w
  }

  function OfferAll(w: Window, indices: seq<u64>): Window {
    if indices == [] then w
    else Offer(OfferAll(w, indices[..|indices| - 1]), indices[|indices| - 1])
  }

  /** Whatever is offered, the bitmap goes on standing for the set of all that was offered: a
      refused index is either in the set already or below everything the bitmap covers. */
  lemma OfferRefines(w: Window, s: set<int>, index: u64)
    requires Refines(w, s)
    ensures Refines(Offer(w, index), s + {index})
  {
    AdmitsIff(w, s, index);
    if w.Admits(index) {
      AcceptRefines(w, s, index);
    }
  }

  function Offered(indices: seq<u64>): set<int> {
    if indices == [] then {} else Offered(indices[..|indices| - 1]) + {indices[|indices| - 1]}
  }

  /** Over any run the window is exactly as good as remembering every index ever offered. */
  lemma {:induction false} RunRefines(indices: seq<u64>)
    ensures Refines(OfferAll(EMPTY, indices), Offered(indices))
  {
    if indices != [] {
      var n := |indices| - 1;
      RunRefines(indices[..n]);
      OfferRefines(OfferAll(EMPTY, indices[..n]), Offered(indices[..n]), indices[n]);
    }
  }
}
