/** Bitfields: sets of piece indices packed into bytes, most significant bit first. */
module Bitfield {
  import opened Bytes

  type Bits = bytes

  /** b >> k. */
  function Shift(b: nat, k: nat): nat {
    if k == 0 then b else Shift(b / 2, k - 1)
  }

  /** b | 1 << k. */
  function Set(b: nat, k: nat): nat {
    if k == 0 then b / 2 * 2 + 1 else Set(b / 2, k - 1) * 2 + b % 2
  }

  function Pow2(k: nat): nat {
    if k == 0 then 1 else 2 * Pow2(k - 1)
  }

  lemma {:induction false} SetStaysBelow(b: nat, k: nat, n: nat)
    requires b < Pow2(n) && k < n
    ensures Set(b, k) < Pow2(n)
  {
    if k > 0 {
      SetStaysBelow(b / 2, k - 1, n - 1);
    }
  }

  /** Bit j of b | 1 << k is set if it was set or is bit k. */
  lemma {:induction false} SetChangesOneBit(b: nat, k: nat, j: nat)
    ensures Shift(Set(b, k), j) % 2 == 1 <==> Shift(b, j) % 2 == 1 || j == k
  {
    if k > 0 && j > 0 {
      SetChangesOneBit(b / 2, k - 1, j - 1);
    }
  }

  /** Bits are counted from the most significant one. */
  predicate Bit(b: byte, offset: int)
    requires 0 <= offset < 8
  {
    Shift(b, 7 - offset) % 2 == 1
  }

  function WithBit(b: byte, offset: int): byte
    requires 0 <= offset < 8
  {
    assert Pow2(8) == 256;
    SetStaysBelow(b, 7 - offset, 8);
    Set(b, 7 - offset)
  }

  /** The values of the eight bits in the order in which they count. */
  const WEIGHTS: seq<nat> := [128, 64, 32, 16, 8, 4, 2, 1]

  lemma {:induction false} ShiftDivides(b: nat, k: nat)
    ensures Pow2(k) > 0 && Shift(b, k) == b / Pow2(k)
  {
    if k > 0 {
      ShiftDivides(b / 2, k - 1);
      HalfFirst(b, Pow2(k - 1));
    }
  }

  lemma HalfFirst(b: nat, p: nat)
    requires p > 0
    ensures b / 2 / p == b / (2 * p)
  {
    var q := b / 2 / p;
    var r := b / 2 - q * p;
    assert b == q * (2 * p) + (2 * r + b % 2);
    assert 0 <= 2 * r + b % 2 < 2 * p;
    QuotientIs(b, 2 * p, q, 2 * r + b % 2);
  }

  lemma QuotientIs(b: int, d: int, q: int, r: int)
    requires d > 0 && b == q * d + r && 0 <= r < d
    ensures b / d == q
  {
    var e := b / d - q;
    assert e * d == r - b % d;
    assert e >= 1 ==> e * d >= d;
    assert e <= -1 ==> e * d <= -d;
  }

  lemma {:induction false} SetAdds(b: nat, k: nat)
    ensures Set(b, k) == if Shift(b, k) % 2 == 1 then b else b + Pow2(k)
  {
    if k > 0 {
      SetAdds(b / 2, k - 1);
    }
  }

  lemma Weights(o: int)
    requires 0 <= o < 8
    ensures Pow2(7 - o) == WEIGHTS[o]
  {
    assert Pow2(0) == 1 && Pow2(1) == 2 && Pow2(2) == 4 && Pow2(3) == 8;
    assert Pow2(4) == 16 && Pow2(5) == 32 && Pow2(6) == 64 && Pow2(7) == 128;
  }

  /** Bit 0 is worth 128 and bit 7 is worth 1; setting a bit that is clear adds its worth. */
  lemma BitsHighFirst(b: byte, o: int)
    requires 0 <= o < 8
    ensures Bit(b, o) <==> b / WEIGHTS[o] % 2 == 1
    ensures WithBit(b, o) == if Bit(b, o) then b else b + WEIGHTS[o]
  {
    Weights(o);
    ShiftDivides(b, 7 - o);
    SetAdds(b, 7 - o);
  }

  predicate HasPiece(bf: Bits, index: int) {
    && index >= 0
    && index / 8 < |bf|
    && Bit(bf[index / 8], index % 8)
  }

  function WithPiece(bf: Bits, index: int): Bits {
    if 0 <= index && index / 8 < |bf|
    then bf[index / 8 := WithBit(bf[index / 8], index % 8)]
    else bf
  }

  lemma SetBit(b: byte, o: int, p: int)
    requires 0 <= o < 8 && 0 <= p < 8
    ensures Bit(WithBit(b, o), p) <==> Bit(b, p) || o == p
  {
    SetChangesOneBit(b, 7 - o, 7 - p);
  }

  /** Setting a bit adds that index to the set and changes nothing else. */
  lemma WithPieceAdds(bf: Bits, index: int, j: int)
    ensures |WithPiece(bf, index)| == |bf|
    ensures HasPiece(WithPiece(bf, index), j) <==>
      HasPiece(bf, j) || (j == index && 0 <= index < 8 * |bf|)
  {
    if 0 <= index < 8 * |bf| && 0 <= j && j / 8 == index / 8 {
      SetBit(bf[index / 8], index % 8, j % 8);
    }
  }

  /** SetPiece, in place; the result says whether the index was in range. */
  method SetPiece(bf: array<byte>, index: int) returns (ok: bool)
    modifies bf
    ensures ok <==> 0 <= index < 8 * bf.Length
    ensures bf[..] == WithPiece(old(bf[..]), index)
  {
    if index < 0 || index / 8 >= bf.Length {
      return false;
    }
    bf[index / 8] := WithBit(bf[index / 8], index % 8);
    ok := true;
  }

  /** A bitfield of zeros holds no piece. */
  lemma ZerosHoldNothing(size: nat, j: int)
    ensures !HasPiece(Zeros(size), j)
  {
    if 0 <= j < 8 * size {
      ZeroBit(j % 8);
    }
  }

  lemma ZeroBit(o: int)
    requires 0 <= o < 8
    ensures !Bit(0, o)
  {
    ShiftZero(7 - o);
  }

  lemma {:induction false} ShiftZero(k: nat)
    ensures Shift(0, k) == 0
  {
    if k > 0 { ShiftZero(k - 1); }
  }
}
