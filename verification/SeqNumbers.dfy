/** Sixteen-bit sequence numbers and the wrapping order that uTP puts on them
    (section 3.3 of RFC 793, section 3.2 of RFC 1982). */
module SeqNumbers {

  const MOD: int := 0x1_0000
  const HALF: int := 0x8000

  type Seq16 = x: int | 0 <= x < 0x1_0000

  /** Reduction to sixteen bits, as a conversion to uint16 does it. */
  function Wrap(x: int): Seq16 {
    x % MOD
  }

  /** The value of a sixteen-bit pattern read as int16. */
  function AsInt16(x: Seq16): int {
    if x < HALF then x else x - MOD
  }

  /** a > b in wrapping arithmetic: int16(a-b) > 0. */
  predicate WrappingGT(a: Seq16, b: Seq16) {
    AsInt16(Wrap(a - b)) > 0
  }

  predicate WrappingLEQ(a: Seq16, b: Seq16) {
    !WrappingGT(a, b)
  }

  /** The sequence number on the wire of the packet with unbounded index `index`,
      when index 0 travels as `first`. */
  function Wire(first: Seq16, index: int): Seq16 {
    Wrap(first + index)
  }

  /** How far `to` is ahead of `from`, going up around the circle. */
  function Ahead(to: Seq16, from: Seq16): Seq16 {
    Wrap(to - from)
  }

  lemma AheadOfWire(first: Seq16, i: int, j: int)
    ensures Ahead(Wire(first, i), Wire(first, j)) == Wrap(i - j)
  {
  }

  lemma WireStep(first: Seq16, i: int)
    ensures Wrap(Wire(first, i) + 1) == Wire(first, i + 1)
    ensures Wrap(Wire(first, i) - 1) == Wire(first, i - 1)
  {
  }

  lemma AheadZero(k: Seq16, n: Seq16)
    ensures Ahead(k, n) == 0 <==> k == n
  {
  }

  /** Moving the reference point up by one brings everything else one closer. */
  lemma AheadStep(k: Seq16, n: Seq16)
    requires k != n
    ensures Ahead(k, Wrap(n + 1)) == Ahead(k, n) - 1
  {
  }

  /** Using one more sequence number makes everything else one older. */
  lemma AgeStep(n: Seq16, k: Seq16)
    requires k != Wrap(n + 1)
    ensures Ahead(Wrap(n + 1), k) == Ahead(n, k) + 1
  {
  }

  lemma WrapSmall(d: int)
    requires 0 <= d < MOD
    ensures Wrap(d) == d
  {
  }

  /** The wrapping comparison, in terms of unbounded indices. */
  lemma WireOrder(first: Seq16, i: int, j: int)
    ensures WrappingGT(Wire(first, i), Wire(first, j)) <==> 0 < Wrap(i - j) < HALF
    ensures Wire(first, i) == Wire(first, j) <==> Wrap(i - j) == 0
  {
    AheadOfWire(first, i, j);
  }

  /** Inside a window of 2^15 the sixteen-bit comparison is the order of the
      unbounded indices, across any number of wrap-arounds. */
  lemma OrderInsideWindow(first: Seq16, i: int, j: int)
    requires -HALF <= i - j < HALF
    ensures WrappingGT(Wire(first, i), Wire(first, j)) <==> i > j
    ensures WrappingLEQ(Wire(first, i), Wire(first, j)) <==> i <= j
    ensures Wire(first, i) == Wire(first, j) <==> i == j
  {
    WireOrder(first, i, j);
  }

  /** The window cannot be widened: 2^15 apart, each number is "not greater" than the other. */
  lemma WindowIsTight(first: Seq16, i: int)
    ensures WrappingLEQ(Wire(first, i + HALF), Wire(first, i))
    ensures WrappingLEQ(Wire(first, i), Wire(first, i + HALF))
  {
    WireOrder(first, i + HALF, i);
    WireOrder(first, i, i + HALF);
  }
}
