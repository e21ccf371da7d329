/** How pieces and files cut up the same byte stream. Both are given by lengths: files one after the
    other, pieces of equal length with a shorter last one. */
module Geometry {
  import opened Arithmetic
  import opened Bitfield
  import MultiFile

  /** The offset of file n: the total length of the files before it. */
  function Start(lengths: seq<nat>, n: nat): nat
    requires n <= |lengths|
  {
    if n == 0 then 0 else Start(lengths, n - 1) + lengths[n - 1]
  }

  function TotalOf(lengths: seq<nat>): nat {
    Start(lengths, |lengths|)
  }

  function Lengths(files: seq<MultiFile.FileEntry>): (r: seq<nat>)
    ensures |r| == |files| && forall i :: 0 <= i < |r| ==> r[i] == files[i].length
  {
    seq(|files|, i requires 0 <= i < |files| => files[i].length)
  }

  /** The storage layer places its files where the progress figures expect them. */
  lemma {:induction false} OffsetIsStart(files: seq<MultiFile.FileEntry>, n: nat)
    requires n <= |files|
    ensures MultiFile.Offset(files, n) == Start(Lengths(files), n)
  {
    if n > 0 {
      OffsetIsStart(files, n - 1);
    }
  }

  /** A layout: the total length, the nominal piece length and the number of pieces. */
  datatype Layout = Layout(total: nat, pieceLength: nat, numPieces: nat)

  /** The number of pieces is the total divided by the piece length, rounded up. */
  predicate Sound(lay: Layout) {
    && lay.pieceLength > 0
    && lay.total <= lay.numPieces * lay.pieceLength
    && (lay.numPieces > 0 ==> (lay.numPieces - 1) * lay.pieceLength < lay.total)
  }

  function PieceStart(lay: Layout, i: nat): nat {
    i * lay.pieceLength
  }

  function PieceEnd(lay: Layout, i: nat): nat {
    if i * lay.pieceLength + lay.pieceLength > lay.total then lay.total else i * lay.pieceLength + lay.pieceLength
  }

  /** The number of bytes that [a, b) and [c, d) share. */
  function Overlap(a: int, b: int, c: int, d: int): nat {
    var lo := if a < c then c else a;
    var hi := if b < d then b else d;
    if hi > lo then hi - lo else 0
  }

  /** The bytes of [lo, hi) that lie in held pieces among the first n. */
  function HeldBytes(lay: Layout, bf: Bits, lo: nat, hi: nat, n: nat): nat {
    if n == 0 then 0
    else
      var more := if HasPiece(bf, n - 1) then Overlap(PieceStart(lay, n - 1), PieceEnd(lay, n - 1), lo, hi) else 0;
      HeldBytes(lay, bf, lo, hi, n - 1) + more
  }

  /** The sizes of the held pieces among the first n. */
  function HeldSizes(lay: Layout, bf: Bits, n: nat): int {
    if n == 0 then 0
    else HeldSizes(lay, bf, n - 1) + if HasPiece(bf, n - 1) then PieceEnd(lay, n - 1) - PieceStart(lay, n - 1) else 0
  }

  // -------------------------------------------------------------- multiplication

  lemma MulNext(a: nat, p: nat)
    ensures (a + 1) * p == a * p + p
  {
  }

  lemma DivBounds(x: nat, p: nat)
    requires p > 0
    ensures x / p * p <= x < x / p * p + p
  {
    assert x == p * (x / p) + x % p;
  }

  lemma Between(i: nat, q: nat, x: nat, p: nat)
    requires q * p <= x < q * p + p
    ensures i <= q <==> i * p <= x
  {
    MulNext(q, p);
    if i <= q {
      MulMono(i, q, p);
    } else {
      MulMono(q + 1, i, p);
    }
  }

  lemma FloorBound(i: nat, x: nat, p: nat)
    requires p > 0
    ensures i <= x / p <==> i * p <= x
  {
    DivBounds(x, p);
    Between(i, x / p, x, p);
  }

  /** Piece i meets the range [lo, hi) exactly when it lies between the pieces of its two ends. */
  lemma PieceMeets(i: nat, p: nat, lo: nat, hi: nat)
    requires p > 0 && lo < hi
    ensures i * p < hi && lo < i * p + p <==> lo / p <= i <= (hi - 1) / p
  {
    MulNext(i, p);
    FloorBound(i + 1, lo, p);
    FloorBound(i, hi - 1, p);
  }

  lemma PieceInside(lay: Layout, i: nat)
    requires Sound(lay) && i < lay.numPieces
    ensures PieceStart(lay, i) < PieceEnd(lay, i) <= lay.total
    ensures PieceEnd(lay, i) == if i + 1 == lay.numPieces then lay.total else PieceStart(lay, i + 1)
  {
    MulMono(i, lay.numPieces - 1, lay.pieceLength);
    MulNext(i, lay.pieceLength);
    if i + 1 < lay.numPieces {
      MulMono(i + 1, lay.numPieces - 1, lay.pieceLength);
    }
  }

  lemma OverlapsIff(lay: Layout, i: nat, lo: nat, hi: nat)
    requires Sound(lay) && i < lay.numPieces && lo < hi <= lay.total
    ensures Overlap(PieceStart(lay, i), PieceEnd(lay, i), lo, hi) > 0
      <==> lo / lay.pieceLength <= i <= (hi - 1) / lay.pieceLength
  {
    PieceInside(lay, i);
    PieceMeets(i, lay.pieceLength, lo, hi);
  }

  lemma LastPieceExists(lay: Layout, x: nat)
    requires Sound(lay) && x < lay.total
    ensures x / lay.pieceLength < lay.numPieces
  {
    DivBounds(x, lay.pieceLength);
    if x / lay.pieceLength >= lay.numPieces {
      MulMono(lay.numPieces, x / lay.pieceLength, lay.pieceLength);
    }
  }

  // ----------------------------------------------------------------------- sums

  lemma {:induction false} HeldBytesAdd(lay: Layout, bf: Bits, lo: nat, mid: nat, hi: nat, n: nat)
    requires lo <= mid <= hi
    ensures HeldBytes(lay, bf, lo, mid, n) + HeldBytes(lay, bf, mid, hi, n) == HeldBytes(lay, bf, lo, hi, n)
  {
    hide HasPiece;
    if n > 0 {
      HeldBytesAdd(lay, bf, lo, mid, hi, n - 1);
    }
  }

  lemma {:induction false} HeldBytesOfAll(lay: Layout, bf: Bits, n: nat)
    requires Sound(lay) && n <= lay.numPieces
    ensures HeldBytes(lay, bf, 0, lay.total, n) == HeldSizes(lay, bf, n)
  {
    hide HasPiece;
    if n > 0 {
      HeldBytesOfAll(lay, bf, n - 1);
      PieceInside(lay, n - 1);
    }
  }

  /** All bytes of [lo, hi) that lie in the first n pieces. */
  function AllBytes(lay: Layout, lo: nat, hi: nat, n: nat): nat {
    if n == 0 then 0
    else AllBytes(lay, lo, hi, n - 1) + Overlap(PieceStart(lay, n - 1), PieceEnd(lay, n - 1), lo, hi)
  }

  lemma {:induction false} AllBytesCovers(lay: Layout, lo: nat, hi: nat, n: nat)
    requires Sound(lay) && n <= lay.numPieces && hi <= lay.total
    ensures AllBytes(lay, lo, hi, n) ==
      Overlap(0, if n == lay.numPieces then lay.total else PieceStart(lay, n), lo, hi)
  {
    if n > 0 {
      AllBytesCovers(lay, lo, hi, n - 1);
      PieceInside(lay, n - 1);
    }
  }

  ghost predicate HeldOrApart(lay: Layout, bf: Bits, lo: nat, hi: nat, i: nat) {
    HasPiece(bf, i) || Overlap(PieceStart(lay, i), PieceEnd(lay, i), lo, hi) == 0
  }

  /** Nothing is missing from [lo, hi) exactly when every piece that meets it is held. */
  lemma {:induction false} HeldIsAll(lay: Layout, bf: Bits, lo: nat, hi: nat, n: nat)
    ensures HeldBytes(lay, bf, lo, hi, n) <= AllBytes(lay, lo, hi, n)
    ensures HeldBytes(lay, bf, lo, hi, n) == AllBytes(lay, lo, hi, n)
      <==> forall i :: 0 <= i < n ==> HeldOrApart(lay, bf, lo, hi, i)
  {
    hide HasPiece, Overlap;
    if n > 0 {
      HeldIsAll(lay, bf, lo, hi, n - 1);
      assert (forall i :: 0 <= i < n ==> HeldOrApart(lay, bf, lo, hi, i)) <==>
        (forall i :: 0 <= i < n - 1 ==> HeldOrApart(lay, bf, lo, hi, i)) && HeldOrApart(lay, bf, lo, hi, n - 1);
    }
  }

  lemma PieceOfRange(lay: Layout, bf: Bits, lo: nat, hi: nat, i: nat)
    requires Sound(lay) && lo < hi <= lay.total && i < lay.numPieces
    ensures HeldOrApart(lay, bf, lo, hi, i) <==>
      (lo / lay.pieceLength <= i <= (hi - 1) / lay.pieceLength ==> HasPiece(bf, i))
  {
    hide HasPiece;
    OverlapsIff(lay, i, lo, hi);
  }

  lemma RangeHeldIff(lay: Layout, bf: Bits, lo: nat, hi: nat)
    requires Sound(lay) && lo < hi <= lay.total
    ensures (forall i :: 0 <= i < lay.numPieces ==> HeldOrApart(lay, bf, lo, hi, i))
      <==> (forall i :: lo / lay.pieceLength <= i <= (hi - 1) / lay.pieceLength ==> HasPiece(bf, i))
  {
    hide HasPiece, HeldOrApart;
    var first, last := lo / lay.pieceLength, (hi - 1) / lay.pieceLength;
    LastPieceExists(lay, hi - 1);
    if forall i :: first <= i <= last ==> HasPiece(bf, i) {
      forall i | 0 <= i < lay.numPieces ensures HeldOrApart(lay, bf, lo, hi, i) {
        PieceOfRange(lay, bf, lo, hi, i);
      }
    }
    if forall i :: 0 <= i < lay.numPieces ==> HeldOrApart(lay, bf, lo, hi, i) {
      forall i | first <= i <= last ensures HasPiece(bf, i) {
        PieceOfRange(lay, bf, lo, hi, i);
      }
    }
  }

  /** A range is full exactly when all pieces from the one of its first byte to the one of its last
      byte are held. */
  lemma FullIffHeld(lay: Layout, bf: Bits, lo: nat, hi: nat)
    requires Sound(lay) && lo < hi <= lay.total
    ensures HeldBytes(lay, bf, lo, hi, lay.numPieces) == hi - lo
      <==> forall i :: lo / lay.pieceLength <= i <= (hi - 1) / lay.pieceLength ==> HasPiece(bf, i)
  {
    hide HasPiece, HeldOrApart, HeldBytes, AllBytes;
    AllBytesCovers(lay, lo, hi, lay.numPieces);
    HeldIsAll(lay, bf, lo, hi, lay.numPieces);
    RangeHeldIff(lay, bf, lo, hi);
  }
}
