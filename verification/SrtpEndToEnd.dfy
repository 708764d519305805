/** SRTP end to end: what a consecutively numbered sender protects, the receiver recovers,
    over a network that loses, repeats and reorders datagrams and adds others of its own. */
module SrtpEndToEnd {
  import opened Bytes
  import opened SequenceNumbers
  import opened ReplayWindow
  import opened SourceTable
  import opened Srtp

  // ----- One packet: sealing and opening

  /** The header length is read from the header alone. */
  lemma HeaderLenLocal(p: seq<byte>, q: seq<byte>, n: nat)
    requires RtpHeaderLen(p) == Some(n) && n <= |q| && q[..n] == p[..n]
    ensures RtpHeaderLen(q) == Some(n)
  {
    assert q[0] == q[..n][0] == p[..n][0] == p[0];
    var fixed := 12 + p[0] % 0x10 * 4;
    if p[0] / 0x10 % 2 != 0 {
      assert q[fixed + 2..fixed + 4] == q[..n][fixed + 2..fixed + 4];
      assert p[fixed + 2..fixed + 4] == p[..n][fixed + 2..fixed + 4];
    }
  }

  /** Applying the same keystream twice gives back the data. */
  lemma KeystreamCancels(p: seq<byte>, start: nat, keystream: (Iv, nat) -> byte, iv: Iv)
    requires start <= |p|
    ensures ApplyKeystream(ApplyKeystream(p, start, keystream, iv), start, keystream, iv) == p
  {
    var q := ApplyKeystream(p, start, keystream, iv);
    forall i | start <= i < |p|
      ensures ApplyKeystream(q, start, keystream, iv)[i] == p[i]
    {
      XorByteCancels(p[i], keystream(iv, i - start));
    }
    assert ApplyKeystream(q, start, keystream, iv)[..start] == p[..start];
  }

  lemma FixedFields(p: seq<byte>, q: seq<byte>)
    requires |p| >= 12 && |q| >= 12 && q[..12] == p[..12]
    ensures SeqOf(q) == SeqOf(p) && SsrcOf(q) == SsrcOf(p)
  {
    assert q[2..4] == q[..12][2..4] && p[2..4] == p[..12][2..4];
    assert q[8..12] == q[..12][8..12] && p[8..12] == p[..12][8..12];
  }

  /** A sealed packet keeps its header in the clear, authenticates under the counter it was
      sealed with, and opens to the packet it came from. */
  lemma SealedOpens(keys: Keys, packet: seq<byte>, roc: u32)
    requires |packet| >= 12 && RtpHeaderLen(packet).Some?
    ensures var w := Sealed(keys, packet, roc);
            && |w| == |packet| + AUTH_TAG_LEN
            && RtpHeaderLen(Portion(w)) == RtpHeaderLen(packet)
            && SeqOf(w) == SeqOf(packet) && SsrcOf(w) == SsrcOf(packet)
            && Authentic(keys, w, roc)
            && Opened(keys, w, roc) == packet
  {
    var n := RtpHeaderLen(packet).value;
    var iv := RtpIv(keys.rtpSalt, SsrcOf(packet), roc, SeqOf(packet));
    var out := ApplyKeystream(packet, n, keys.rtpKeystream, iv);
    var w := Sealed(keys, packet, roc);
    assert Portion(w) == out && w[|out|..] == keys.rtpTag(out, roc);
    HeaderLenLocal(packet, out, n);
    assert w[..12] == out[..n][..12] && packet[..12] == packet[..n][..12];
    FixedFields(packet, w);
    KeystreamCancels(packet, n, keys.rtpKeystream, iv);
  }

  // ----- The sender

  predicate Numbered(packet: seq<byte>, ssrc: u32, index: nat) {
    && |packet| >= 12 && RtpHeaderLen(packet).Some?
    && SsrcOf(packet) == ssrc && SeqOf(packet) == Seq(index)
  }

  /** An RTP stream as a sender numbers it: one SSRC, consecutive from `first`. */
  ghost predicate Consecutive(packets: seq<seq<byte>>, ssrc: u32, first: u16) {
    forall k :: 0 <= k < |packets| ==> Numbered(packets[k], ssrc, first + k)
  }

  function TxAfter(keys: Keys, packets: seq<seq<byte>>): SendState {
    if packets == [] then FRESH_SENDER
    else
      var n := |packets| - 1;
      ProtectRtp(keys, TxAfter(keys, packets[..n]), packets[n]).0
  }

  /** What the sender puts on the wire for its k-th packet. */
  function Wire(keys: Keys, packets: seq<seq<byte>>, k: nat): Result<seq<byte>>
    requires k < |packets|
  {
    ProtectRtp(keys, TxAfter(keys, packets[..k]), packets[k]).1
  }

  /** The sender's state once it has sent the packet with this index, or before any. */
  function SenderAt(first: u16, index: int): SendState {
    if index < first then FRESH_SENDER else SendState(Roc(index), Seq(index), true)
  }

  lemma CountsOn(first: u16, index: nat)
    requires first <= index
    ensures NextSend(SenderAt(first, index - 1), Seq(index)) == SenderAt(first, index)
  {
    hide Roc, Seq;
    if index == first {
      RocAtFirst(first);
    } else {
      NextRoc(index);
    }
  }

  /** The cycle moves on exactly when the sequence number wraps to 0. */
  lemma NextRoc(index: int)
    ensures Roc(index) == (Roc(index - 1) + if Seq(index) == 0 then 1 else 0) % TWO32
    ensures Seq(index) == 0 <==> Seq(index - 1) == 0xFFFF
  {
    hide Roc;
    assert Cycle(index) == Cycle(index - 1) + if Seq(index) == 0 then 1 else 0;
    RocIs(index);
    RocIs(index - 1);
    WrapsOn(Cycle(index - 1), if Seq(index) == 0 then 1 else 0);
  }

  lemma RocIs(index: int)
    ensures Roc(index) == Cycle(index) % TWO32
  {
  }

  lemma WrapsOn(cycle: int, step: int)
    ensures (cycle + step) % TWO32 == (cycle % TWO32 + step) % TWO32
  {
  }

  lemma RocAtFirst(first: u16)
    ensures Roc(first) == 0
  {
  }

  lemma SendsNext(keys: Keys, packet: seq<byte>, ssrc: u32, first: u16, index: nat)
    requires Numbered(packet, ssrc, index) && first <= index
    ensures ProtectRtp(keys, SenderAt(first, index - 1), packet)
         == (SenderAt(first, index), Ok(Sealed(keys, packet, Roc(index))))
  {
    CountsOn(first, index);
  }

  /** The sender's counters follow the index of the last packet, rollover after rollover. */
  lemma {:induction false} SenderCounts(keys: Keys, packets: seq<seq<byte>>, ssrc: u32, first: u16, k: nat)
    requires Consecutive(packets, ssrc, first) && k <= |packets|
    ensures TxAfter(keys, packets[..k]) == SenderAt(first, first + k - 1)
  {
    if k > 0 {
      assert packets[..k][..k - 1] == packets[..k - 1];
      SenderCounts(keys, packets, ssrc, first, k - 1);
      SendsNext(keys, packets[k - 1], ssrc, first, first + k - 1);
    }
  }

  /** The k-th datagram is protected under index ROC || SEQ == first + k, in 48 bits. */
  lemma WireIndex(keys: Keys, packets: seq<seq<byte>>, ssrc: u32, first: u16, k: nat)
    requires Consecutive(packets, ssrc, first) && k < |packets|
    ensures Wire(keys, packets, k) == Ok(Sealed(keys, packets[k], Roc(first + k)))
  {
    SenderCounts(keys, packets, ssrc, first, k);
    SendsNext(keys, packets[k], ssrc, first, first + k);
  }

  // ----- Initialization vectors never repeat

  lemma XorSaltInjective(a: Iv, b: Iv, salt: Salt)
    requires XorSalt(a, salt) == XorSalt(b, salt)
    ensures a == b
  {
    forall i | 0 <= i < 16 ensures a[i] == b[i] {
      assert XorSalt(a, salt)[i] == XorSalt(b, salt)[i];
      if i < SESSION_SALT_LEN { XorByteInjective(a[i], b[i], salt[i]); }
    }
  }

  lemma RtpIvInjective(salt: Salt, ssrc: u32, roc: u32, s: u16, ssrc': u32, roc': u32, s': u16)
    requires RtpIv(salt, ssrc, roc, s) == RtpIv(salt, ssrc', roc', s')
    ensures ssrc == ssrc' && roc == roc' && s == s'
  {
    var a: Iv := [0, 0, 0, 0] + ToBe32(ssrc) + ToBe32(roc) + ToBe16(s) + [0, 0];
    var b: Iv := [0, 0, 0, 0] + ToBe32(ssrc') + ToBe32(roc') + ToBe16(s') + [0, 0];
    XorSaltInjective(a, b, salt);
    assert a[4..8] == ToBe32(ssrc) && b[4..8] == ToBe32(ssrc');
    assert a[8..12] == ToBe32(roc) && b[8..12] == ToBe32(roc');
    assert a[12..14] == ToBe16(s) && b[12..14] == ToBe16(s');
    ToBe32Injective(ssrc, ssrc');
    ToBe32Injective(roc, roc');
    assert Be16(ToBe16(s)) == Be16(ToBe16(s'));
  }

  function SenderIv(keys: Keys, ssrc: u32, first: u16, k: nat): Iv {
    RtpIv(keys.rtpSalt, ssrc, Roc(first + k), Seq(first + k))
  }

  /** Two packets of a stream share an initialization vector exactly when they are a multiple
      of 2^48 packets apart. */
  lemma IvsRepeatEvery48Bits(keys: Keys, ssrc: u32, first: u16, i: nat, j: nat)
    ensures SenderIv(keys, ssrc, first, i) == SenderIv(keys, ssrc, first, j) <==> (i - j) % TWO48 == 0
  {
    if SenderIv(keys, ssrc, first, i) == SenderIv(keys, ssrc, first, j) {
      RtpIvInjective(keys.rtpSalt, ssrc, Roc(first + i), Seq(first + i), ssrc, Roc(first + j), Seq(first + j));
    }
    HalvesDetermine(first + i, first + j);
  }

  lemma HalvesDetermine(x: nat, y: nat)
    ensures Roc(x) == Roc(y) && Seq(x) == Seq(y) <==> (x - y) % TWO48 == 0
  {
    hide Roc, Seq;
    Split48(x);
    Split48(y);
    SameRemainder48(x, y);
  }

  lemma SameRemainder48(x: nat, y: nat)
    ensures (x - y) % TWO48 == 0 <==> x % TWO48 == y % TWO48
  {
  }

  lemma Split48(x: nat)
    ensures x % TWO48 == Roc(x) * TWO16 + Seq(x)
  {
  }

  // ----- The network and the receiver

  /** Something arriving at the receiver: the sender's k-th datagram, or anything else. */
  datatype Arrival = Sent(k: nat) | Stray(bytes: seq<byte>)

  ghost predicate Forged(keys: Keys, bytes: seq<byte>)
    requires |bytes| >= AUTH_TAG_LEN
  {
    forall roc: u32 :: !Authentic(keys, bytes, roc)
  }

  /** A stray datagram is malformed, of another source, or without a right tag. */
  ghost predicate Harmless(keys: Keys, ssrc: u32, bytes: seq<byte>) {
    || |bytes| < 12 + AUTH_TAG_LEN
    || RtpHeaderLen(Portion(bytes)).None?
    || SsrcOf(bytes) != ssrc
    || Forged(keys, bytes)
  }

  function Datagram(keys: Keys, packets: seq<seq<byte>>, arrival: Arrival): seq<byte> {
    match arrival
    case Stray(bytes) => bytes
    case Sent(k) =>
      if k < |packets| && Wire(keys, packets, k).Ok? then Wire(keys, packets, k).value else []
  }

  function RxAfter(keys: Keys, packets: seq<seq<byte>>, rx: seq<Source<RecvState>>, arrivals: seq<Arrival>)
    : seq<Source<RecvState>>
  {
    if arrivals == [] then rx
    else
      var n := |arrivals| - 1;
      UnprotectRtp(keys, RxAfter(keys, packets, rx, arrivals[..n]), Datagram(keys, packets, arrivals[n])).0
  }

  /** The true indices of the sender's packets that arrived. */
  function Delivered(first: u16, arrivals: seq<Arrival>): set<int> {
    if arrivals == [] then {}
    else
      var n := |arrivals| - 1;
      Delivered(first, arrivals[..n]) + Indices(first, arrivals[n])
  }

  function Indices(first: u16, arrival: Arrival): set<int> {
    if arrival.Sent? then {first + arrival.k} else {}
  }

  /** Strictly within 2^15 of the highest index delivered. */
  ghost predicate Near(delivered: set<int>, index: int) {
    exists h :: h in delivered && (forall x :: x in delivered ==> x <= h) && -HALF < index - h < HALF
  }

  /** New, and fewer than 64 behind everything delivered. */
  predicate InWindow(delivered: set<int>, index: int) {
    index !in delivered && forall x :: x in delivered ==> x - index < REPLAY_WINDOW
  }

  /** What the network must not do to one arrival: the first delivery has ROC 0 and finds room
      in the table, every later one is near the highest, and a stray is harmless. */
  ghost predicate InBounds(keys: Keys, packets: seq<seq<byte>>, ssrc: u32, first: u16,
                           rx: seq<Source<RecvState>>, delivered: set<int>, arrival: Arrival)
  {
    match arrival
    case Stray(bytes) => Harmless(keys, ssrc, bytes)
    case Sent(k) =>
      && k < |packets|
      && if delivered == {} then first + k < TWO16 && HasRoom(rx, ssrc) else Near(delivered, first + k)
  }

  /** Every arrival of the schedule is in bounds, given those before it. */
  ghost predicate Timely(keys: Keys, packets: seq<seq<byte>>, ssrc: u32, first: u16,
                         rx: seq<Source<RecvState>>, arrivals: seq<Arrival>)
  {
    forall n :: 0 <= n < |arrivals| ==>
      InBounds(keys, packets, ssrc, first, RxAfter(keys, packets, rx, arrivals[..n]),
               Delivered(first, arrivals[..n]), arrivals[n])
  }

  /** What the receiver knows of the source is what was delivered. */
  ghost predicate Knows(rx: seq<Source<RecvState>>, ssrc: u32, delivered: set<int>) {
    Refines(StateFor(rx, ssrc).window, delivered) && StateFor(rx, ssrc).Consistent()
  }

  /** This copy of the guess is the shared one, halfway included. */
  lemma GuessIsCycleStep(state: RecvState, s: u16)
    requires state.window.highest.Some?
    ensures state.EstimateRoc(s) == (state.roc + CycleStep(state.sl, s)) % TWO32
  {
  }

  /** So, once a packet has been accepted, the guess at the ROC of a true index is right exactly when the index is
      strictly within 2^15 of the highest, or at 2^15 with no wrap between, but for whole turns of the ROC. */
  lemma GuessIsRightIff(state: RecvState, index: nat)
    requires state.Consistent() && state.window.highest.Some? && -TWO16 < index - state.window.highest.value < TWO16
    ensures var h := state.window.highest.value;
            state.EstimateRoc(Seq(index)) == Roc(index) <==>
              -HALF < index - h < HALF || ((index - h == HALF || index - h == -HALF) && Cycle(index) == Cycle(h))
  {
    var h: int := state.window.highest.value;
    GuessIsCycleStep(state, Seq(index));
    NearestCycle(h, index);
    HighestSplits(state, h);
    OneTurn(Cycle(h), Cycle(index), CycleStep(Seq(h), Seq(index)));
  }

  lemma HighestSplits(state: RecvState, h: int)
    requires h == PacketIndex(state.roc, state.sl)
    ensures Cycle(h) == state.roc && Seq(h) == state.sl
  {
  }

  lemma OneTurn(c: u32, d: int, step: int)
    requires -1 <= step <= 1 && -1 <= d - c <= 1
    ensures (c + step) % TWO32 == d % TWO32 <==> d == c + step
  {
  }

  lemma GuessIsRight(state: RecvState, delivered: set<int>, index: nat)
    requires index < TWO48
    requires Refines(state.window, delivered) && state.Consistent()
    requires if delivered == {} then index < TWO16 else Near(delivered, index)
    ensures state.EstimateRoc(Seq(index)) == Roc(index)
    ensures PacketIndex(Roc(index), Seq(index)) == index
  {
    assert Roc(index) == Cycle(index);
    if delivered != {} {
      NearestCycle(state.window.highest.value, index);
    }
  }

  /** One delivery. The guess at the rollover counter is right, so the tag is; the packet is
      accepted exactly when it is in the window, and then comes out as it went in. */
  lemma Receive(keys: Keys, rx: seq<Source<RecvState>>, delivered: set<int>, packet: seq<byte>, index: nat,
                bytes: seq<byte>)
    requires |packet| >= 12 && RtpHeaderLen(packet).Some?
    requires bytes == Sealed(keys, packet, Roc(index))
    requires index < TWO48 && SeqOf(packet) == Seq(index)
    requires Knows(rx, SsrcOf(packet), delivered)
    requires if delivered == {} then index < TWO16 && HasRoom(rx, SsrcOf(packet)) else Near(delivered, index)
    ensures var (after, result) := UnprotectRtp(keys, rx, bytes);
            && result == (if InWindow(delivered, index) then Ok(packet) else Err(Error.Replay))
            && Knows(after, SsrcOf(packet), delivered + {index})
            && IsMax(PacketIndex(StateFor(after, SsrcOf(packet)).roc, StateFor(after, SsrcOf(packet)).sl),
                     delivered + {index})
  {
    var ssrc := SsrcOf(packet);
    var state := StateFor(rx, ssrc);
    SealedOpens(keys, packet, Roc(index));
    GuessIsRight(state, delivered, index);
    AdmitsIff(state.window, delivered, index);
    OfferRefines(state.window, delivered, index);
    if state.window.Admits(index) {
      RememberLookup(rx, Source(ssrc, state.Advance(Roc(index), Seq(index))), ssrc);
    }
    HighestIsMax(UnprotectRtp(keys, rx, bytes).0, ssrc, delivered + {index});
  }

  ghost predicate IsMax(h: int, s: set<int>) {
    h in s && forall x :: x in s ==> x <= h
  }

  lemma HighestIsMax(rx: seq<Source<RecvState>>, ssrc: u32, delivered: set<int>)
    requires Knows(rx, ssrc, delivered) && delivered != {}
    ensures var state := StateFor(rx, ssrc);
            IsMax(PacketIndex(state.roc, state.sl), delivered)
  {
  }

  /** A harmless stray changes nothing the receiver knows of the source. */
  lemma ReceiveStray(keys: Keys, rx: seq<Source<RecvState>>, ssrc: u32, bytes: seq<byte>)
    requires Harmless(keys, ssrc, bytes)
    ensures StateFor(UnprotectRtp(keys, rx, bytes).0, ssrc) == StateFor(rx, ssrc)
  {
    if UnprotectRtp(keys, rx, bytes).1.Ok? {
      var other, s := SsrcOf(bytes), SeqOf(bytes);
      var state := StateFor(rx, other);
      RememberLookup(rx, Source(other, state.Advance(state.EstimateRoc(s), s)), ssrc);
    }
  }

  lemma DatagramIsSealed(keys: Keys, packets: seq<seq<byte>>, ssrc: u32, first: u16, k: nat)
    requires Consecutive(packets, ssrc, first) && k < |packets|
    ensures Datagram(keys, packets, Sent(k)) == Sealed(keys, packets[k], Roc(first + k))
  {
    WireIndex(keys, packets, ssrc, first, k);
  }

  /** What the receiver should do with an arrival: a sent packet that is new and fewer than 64
      behind returns exactly the bytes the sender protected, any other sent packet is refused
      as a replay, and (ROC, s_l) is the highest index delivered; a stray does not touch it. */
  ghost predicate HandledRightly(keys: Keys, packets: seq<seq<byte>>, ssrc: u32, first: u16,
                                 rx: seq<Source<RecvState>>, delivered: set<int>, arrival: Arrival)
  {
    var (after, result) := UnprotectRtp(keys, rx, Datagram(keys, packets, arrival));
    var state := StateFor(after, ssrc);
    match arrival
    case Stray(_) => state == StateFor(rx, ssrc)
    case Sent(k) =>
      && k < |packets|
      && result == (if InWindow(delivered, first + k) then Ok(packets[k]) else Err(Error.Replay))
      && IsMax(PacketIndex(state.roc, state.sl), delivered + {first + k})
  }

  /** One arrival, of either kind. */
  lemma ReceiveAny(keys: Keys, packets: seq<seq<byte>>, ssrc: u32, first: u16,
                   rx: seq<Source<RecvState>>, delivered: set<int>, arrival: Arrival)
    requires Consecutive(packets, ssrc, first) && first + |packets| <= TWO48
    requires Knows(rx, ssrc, delivered)
    requires InBounds(keys, packets, ssrc, first, rx, delivered, arrival)
    ensures HandledRightly(keys, packets, ssrc, first, rx, delivered, arrival)
    ensures Knows(UnprotectRtp(keys, rx, Datagram(keys, packets, arrival)).0, ssrc,
                  delivered + Indices(first, arrival))
  {
    match arrival
    case Stray(bytes) =>
      ReceiveStray(keys, rx, ssrc, bytes);
      assert delivered + Indices(first, arrival) == delivered;
    case Sent(k) =>
      DatagramIsSealed(keys, packets, ssrc, first, k);
      Receive(keys, rx, delivered, packets[k], first + k, Datagram(keys, packets, arrival));
  }

  /** After every arrival the receiver knows just what was delivered. */
  lemma {:induction false} ReceiverKnows(keys: Keys, packets: seq<seq<byte>>, ssrc: u32, first: u16,
                                         rx: seq<Source<RecvState>>, arrivals: seq<Arrival>, n: nat)
    requires Consecutive(packets, ssrc, first) && first + |packets| <= TWO48
    requires Lookup(rx, ssrc) == None
    requires Timely(keys, packets, ssrc, first, rx, arrivals) && n <= |arrivals|
    ensures Knows(RxAfter(keys, packets, rx, arrivals[..n]), ssrc, Delivered(first, arrivals[..n]))
  {
    if n > 0 {
      assert arrivals[..n][..n - 1] == arrivals[..n - 1];
      ReceiverKnows(keys, packets, ssrc, first, rx, arrivals, n - 1);
      ReceiveAny(keys, packets, ssrc, first, RxAfter(keys, packets, rx, arrivals[..n - 1]),
                 Delivered(first, arrivals[..n - 1]), arrivals[n - 1]);
    }
  }

  /** For a receiver that has not met the source, and every schedule within the bounds, every
      arrival is handled rightly, given all the deliveries before it. */
  lemma EndToEnd(keys: Keys, packets: seq<seq<byte>>, ssrc: u32, first: u16,
                 rx: seq<Source<RecvState>>, arrivals: seq<Arrival>, n: nat)
    requires Consecutive(packets, ssrc, first) && first + |packets| <= TWO48
    requires Lookup(rx, ssrc) == None
    requires Timely(keys, packets, ssrc, first, rx, arrivals) && n < |arrivals|
    ensures HandledRightly(keys, packets, ssrc, first, RxAfter(keys, packets, rx, arrivals[..n]),
                           Delivered(first, arrivals[..n]), arrivals[n])
  {
    ReceiverKnows(keys, packets, ssrc, first, rx, arrivals, n);
    ReceiveAny(keys, packets, ssrc, first, RxAfter(keys, packets, rx, arrivals[..n]),
               Delivered(first, arrivals[..n]), arrivals[n]);
  }

  // ----- The network at its best

  /** How many of the sender's packets have arrived. */
  function SentCount(arrivals: seq<Arrival>): nat {
    if arrivals == [] then 0
    else SentCount(arrivals[..|arrivals| - 1]) + if arrivals[|arrivals| - 1].Sent? then 1 else 0
  }

  /** The sender's packets one after the other, none missing; the first finds room in the table; what
      comes between is harmless. */
  ghost predicate InSequenceAt(keys: Keys, packets: seq<seq<byte>>, ssrc: u32, rx: seq<Source<RecvState>>,
                               arrivals: seq<Arrival>, n: nat)
    requires n < |arrivals|
  {
    match arrivals[n]
    case Stray(bytes) => Harmless(keys, ssrc, bytes)
    case Sent(k) =>
      && k == SentCount(arrivals[..n]) < |packets|
      && (k == 0 ==> HasRoom(RxAfter(keys, packets, rx, arrivals[..n]), ssrc))
  }

  ghost predicate InSequence(keys: Keys, packets: seq<seq<byte>>, ssrc: u32, rx: seq<Source<RecvState>>,
                             arrivals: seq<Arrival>)
  {
    forall n :: 0 <= n < |arrivals| ==> InSequenceAt(keys, packets, ssrc, rx, arrivals, n)
  }

  lemma {:induction false} DeliveredInSequence(keys: Keys, packets: seq<seq<byte>>, ssrc: u32, first: u16,
                                               rx: seq<Source<RecvState>>, arrivals: seq<Arrival>, m: nat)
    requires InSequence(keys, packets, ssrc, rx, arrivals) && m <= |arrivals|
    ensures forall x: int :: x in Delivered(first, arrivals[..m]) <==> first <= x < first + SentCount(arrivals[..m])
  {
    hide RxAfter, Harmless;
    if m > 0 {
      DeliveredInSequence(keys, packets, ssrc, first, rx, arrivals, m - 1);
      assert arrivals[..m][..m - 1] == arrivals[..m - 1];
      assert InSequenceAt(keys, packets, ssrc, rx, arrivals, m - 1);
    }
  }

  /** That is within all bounds. */
  lemma InSequenceIsTimely(keys: Keys, packets: seq<seq<byte>>, ssrc: u32, first: u16,
                           rx: seq<Source<RecvState>>, arrivals: seq<Arrival>)
    requires InSequence(keys, packets, ssrc, rx, arrivals)
    ensures Timely(keys, packets, ssrc, first, rx, arrivals)
  {
    hide RxAfter, Harmless, Delivered;
    forall n | 0 <= n < |arrivals|
      ensures InBounds(keys, packets, ssrc, first, RxAfter(keys, packets, rx, arrivals[..n]),
                       Delivered(first, arrivals[..n]), arrivals[n])
    {
      DeliveredInSequence(keys, packets, ssrc, first, rx, arrivals, n);
      assert InSequenceAt(keys, packets, ssrc, rx, arrivals, n);
      var delivered, count := Delivered(first, arrivals[..n]), SentCount(arrivals[..n]);
      if count == 0 {
        assert forall x: int :: x !in delivered;
      } else if arrivals[n].Sent? {
        assert first + count - 1 in delivered;
        assert Near(delivered, first + count);
      }
    }
  }

  /** So every packet arrives as it was sent, for as long as the 48-bit index lasts. */
  lemma InSequenceDelivers(keys: Keys, packets: seq<seq<byte>>, ssrc: u32, first: u16,
                           rx: seq<Source<RecvState>>, arrivals: seq<Arrival>, n: nat)
    requires Consecutive(packets, ssrc, first) && first + |packets| <= TWO48 && Lookup(rx, ssrc) == None
    requires InSequence(keys, packets, ssrc, rx, arrivals) && n < |arrivals| && arrivals[n].Sent?
    ensures arrivals[n].k < |packets|
    ensures UnprotectRtp(keys, RxAfter(keys, packets, rx, arrivals[..n]),
                         Sealed(keys, packets[arrivals[n].k], Roc(first + arrivals[n].k))).1
         == Ok(packets[arrivals[n].k])
  {
    hide UnprotectRtp, Sealed, Timely, Consecutive, RxAfter, Delivered;
    assert InSequenceAt(keys, packets, ssrc, rx, arrivals, n);
    var k := arrivals[n].k;
    InSequenceIsTimely(keys, packets, ssrc, first, rx, arrivals);
    EndToEnd(keys, packets, ssrc, first, rx, arrivals, n);
    DatagramIsSealed(keys, packets, ssrc, first, k);
    DeliveredInSequence(keys, packets, ssrc, first, rx, arrivals, n);
  }
}
