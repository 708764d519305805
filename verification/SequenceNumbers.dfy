/** 16-bit sequence numbers and the unbounded index behind them.

    The receiver side of SRTP, the jitter buffer and the receive statistics each
    extend a 16-bit sequence number with a cycle count guessed from the last
    number they trust. Each has its own copy of the guess; this is the one
    arithmetic fact all three rest on. */
module SequenceNumbers {
  import opened Bytes

  const HALF := 0x8000

  /** The number of whole 2^16 cycles before `index`. */
  function Cycle(index: int): int {
    index / TWO16
  }

  function Seq(index: int): u16 {
    index % TWO16
  }

  /** The cycle as a 32-bit counter holds it. */
  function Roc(index: int): u32 {
    Cycle(index) % TWO32
  }

  /** How many cycles ahead of `last` a packet numbered `s` is taken to be. */
  function CycleStep(last: u16, s: u16): int {
    if s < last && last - s > HALF then 1
    else if s > last && s - last > HALF then -1
    else 0
  }

  /** The guess recovers the true index exactly when it is strictly within 2^15 of the
      reference, or at 2^15 on the nose without a wrap in between. */
  lemma NearestCycle(reference: int, index: int)
    ensures (Cycle(index) == Cycle(reference) + CycleStep(Seq(reference), Seq(index)))
       <==> (-HALF < index - reference < HALF
             || ((index - reference == HALF || index - reference == -HALF) && Cycle(index) == Cycle(reference)))
  {
    assert index == Cycle(index) * TWO16 + Seq(index);
    assert reference == Cycle(reference) * TWO16 + Seq(reference);
  }

  /** At a distance of exactly 2^15 the guess can be wrong. */
  lemma HalfwayIsAmbiguous()
    ensures Cycle(0x1_0000) != Cycle(0x8000) + CycleStep(Seq(0x8000), Seq(0x1_0000))
  {
  }
}
