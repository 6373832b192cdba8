/** Timer ticks.  The proofs use unbounded ticks; the lemmas here say when the
    modulo 2^32 comparisons of the driver agree with them. */
module Ticks {

  const TICKS_PER_US: int := 16

  /** Microseconds to ticks. */
  function US(t: int): int {
    TICKS_PER_US * t
  }

  const RANGE: int := 0x1_0000_0000
  const HALF: int := 0x8000_0000

  /** What a `uint32_t` tick holds of an unbounded tick. */
  function Wrap(x: int): int {
    x % RANGE
  }

  /** `(int32_t)` of a `uint32_t` difference. */
  function Signed(x: int): int {
    var w := x % RANGE;
    if w < HALF then w else w - RANGE
  }

  /** The two closed spans have a tick in common. */
  predicate Overlap(a0: int, a1: int, b0: int, b1: int) {
    b1 >= a0 && a1 >= b0
  }

  /** The test the driver makes, on wrapped ticks. */
  predicate OverlapWrapped(a0: int, a1: int, b0: int, b1: int) {
    && Signed(Wrap(b1) - Wrap(a0)) >= 0
    && Signed(Wrap(a1) - Wrap(b0)) >= 0
  }

  /** The signed difference of two wrapped ticks is their real difference
      exactly when that difference fits 32 signed bits. */
  lemma SignedDifference(a: int, b: int)
    ensures Signed(Wrap(a) - Wrap(b)) == a - b <==> -HALF <= a - b < HALF
  {
  }

  /** The unsigned difference is the real one exactly when the second tick is
      less than the whole range before the first. */
  lemma UnsignedDifference(a: int, b: int)
    ensures Wrap(Wrap(a) - Wrap(b)) == a - b <==> 0 <= a - b < RANGE
    ensures Wrap(Wrap(a) - Wrap(b)) == Wrap(a - b)
  {
  }

  /** Inside a half-range window the driver's overlap test is the interval
      test on unbounded ticks. */
  lemma OverlapAgrees(a0: int, a1: int, b0: int, b1: int)
    requires -HALF <= b1 - a0 < HALF && -HALF <= a1 - b0 < HALF
    ensures OverlapWrapped(a0, a1, b0, b1) <==> Overlap(a0, a1, b0, b1)
  {
  }

  /** Outside it they differ: two equal spans half the range long. */
  lemma OverlapNeedsWindow()
    ensures Overlap(0, HALF, 0, HALF) && !OverlapWrapped(0, HALF, 0, HALF)
  {
  }
}
