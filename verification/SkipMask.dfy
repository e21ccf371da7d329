/** The pieces that need not be downloaded because all their bytes belong to skipped files. */
module SkipMask {
  import opened Bytes
  import opened Bitfield
  import opened Geometry
  import FileProgress

  const PRIORITY_SKIP: int := -1

  /** Files beyond the list of priorities are wanted. */
  predicate Skips(priorities: seq<int>, f: nat) {
    f < |priorities| && priorities[f] == PRIORITY_SKIP
  }

  /** The overlap test between piece p and file f. */
  predicate Meets(lay: Layout, lengths: seq<nat>, p: nat, f: nat)
    requires f < |lengths|
  {
    !(Start(lengths, f) + lengths[f] <= PieceStart(lay, p) || Start(lengths, f) >= PieceEnd(lay, p))
  }

  /** Piece p meets a file, and every file it meets is skipped. */
  ghost predicate Masked(lay: Layout, lengths: seq<nat>, priorities: seq<int>, p: nat) {
    && p < lay.numPieces
    && PieceStart(lay, p) < PieceEnd(lay, p)
    && (exists f :: 0 <= f < |lengths| && Meets(lay, lengths, p, f))
    && (forall f :: 0 <= f < |lengths| && Meets(lay, lengths, p, f) ==> Skips(priorities, f))
  }

  datatype Extent = Extent(start: nat, end: nat, skip: bool)

  method BuildRanges(lengths: seq<nat>, priorities: seq<int>) returns (ranges: seq<Extent>)
    ensures DescribesFiles(ranges, lengths, priorities)
  {
    ranges := [];
    var offset := 0;
    for f := 0 to |lengths|
      invariant offset == Start(lengths, f) && |ranges| == f
      invariant forall g :: 0 <= g < f ==>
        ranges[g] == Extent(Start(lengths, g), Start(lengths, g) + lengths[g], Skips(priorities, g))
    {
      var skip := false;
      if f < |priorities| && priorities[f] == PRIORITY_SKIP {
        skip := true;
      }
      ranges := ranges + [Extent(offset, offset + lengths[f], skip)];
      offset := offset + lengths[f];
    }
  }

  predicate Touches(e: Extent, start: nat, end: nat) {
    !(e.end <= start || e.start >= end)
  }

  /** A piece can be skipped if it touches files, all of them skipped. */
  ghost predicate Skippable(ranges: seq<Extent>, start: nat, end: nat) {
    && (exists f :: 0 <= f < |ranges| && Touches(ranges[f], start, end))
    && (forall f :: 0 <= f < |ranges| && Touches(ranges[f], start, end) ==> ranges[f].skip)
  }

  /** Whether one piece can be skipped. */
  method PieceSkippable(ranges: seq<Extent>, pieceStart: nat, pieceEnd: nat) returns (r: bool)
    ensures r <==> Skippable(ranges, pieceStart, pieceEnd)
  {
    var allSkipped, coveredAny := true, false;
    for f := 0 to |ranges|
      invariant allSkipped
      invariant coveredAny <==> exists g :: 0 <= g < f && Touches(ranges[g], pieceStart, pieceEnd)
      invariant forall g :: 0 <= g < f && Touches(ranges[g], pieceStart, pieceEnd) ==> ranges[g].skip
    {
      if Touches(ranges[f], pieceStart, pieceEnd) {
        coveredAny := true;
        if !ranges[f].skip {
          return false;
        }
      }
    }
    r := coveredAny && allSkipped;
  }

  ghost predicate DescribesFiles(ranges: seq<Extent>, lengths: seq<nat>, priorities: seq<int>) {
    && |ranges| == |lengths|
    && forall f :: 0 <= f < |lengths| ==>
         ranges[f] == Extent(Start(lengths, f), Start(lengths, f) + lengths[f], Skips(priorities, f))
  }

  /** Sets the bit of piece i if it can be skipped. */
  method MarkPiece(bits: array<byte>, lay: Layout, ranges: seq<Extent>, i: nat,
                   ghost lengths: seq<nat>, ghost priorities: seq<int>)
    requires i < lay.numPieces <= 8 * bits.Length && DescribesFiles(ranges, lengths, priorities)
    modifies bits
    ensures forall p :: 0 <= p ==> (HasPiece(bits[..], p) <==>
      HasPiece(old(bits[..]), p) || (p == i && Masked(lay, lengths, priorities, i)))
  {
    var pieceStart := i * lay.pieceLength;
    var pieceEnd := pieceStart + lay.pieceLength;
    if pieceEnd > lay.total {
      pieceEnd := lay.total;
    }
    if pieceEnd <= pieceStart {
      return;
    }
    var skippable := PieceSkippable(ranges, pieceStart, pieceEnd);
    SkippableIsMasked(lay, lengths, priorities, i, ranges, skippable);
    hide HasPiece, WithPiece, Masked;
    if skippable {
      var ok := SetPiece(bits, i);
      forall p: int ensures HasPiece(bits[..], p) <==> HasPiece(old(bits[..]), p) || p == i {
        WithPieceAdds(old(bits[..]), i, p);
      }
    }
  }

  method ComputeSkippedPieceMask(lengths: seq<nat>, priorities: seq<int>, lay: Layout) returns (mask: Option<Bits>)
    ensures mask.None? <==> lay.numPieces == 0 || lay.pieceLength == 0 || |lengths| == 0
    ensures mask.Some? ==>
      && |mask.value| == (lay.numPieces + 7) / 8
      && forall p :: 0 <= p ==> (HasPiece(mask.value, p) <==> Masked(lay, lengths, priorities, p))
  {
    if lay.numPieces <= 0 || lay.pieceLength <= 0 || |lengths| == 0 {
      return None;
    }
    hide HasPiece, DescribesFiles;
    var ranges := BuildRanges(lengths, priorities);
    var size := (lay.numPieces + 7) / 8;
    var bits := new byte[size](_ => 0);
    assert bits[..] == Zeros(size);
    forall p: int ensures !HasPiece(bits[..], p) { ZerosHoldNothing(size, p); }
    for i := 0 to lay.numPieces
      invariant forall p :: 0 <= p ==> (HasPiece(bits[..], p) <==> p < i && Masked(lay, lengths, priorities, p))
    {
      MarkPiece(bits, lay, ranges, i, lengths, priorities);
    }
    forall p | 0 <= p && Masked(lay, lengths, priorities, p) ensures p < lay.numPieces {
    }
    mask := Some(bits[..]);
  }

  lemma SkippableIsMasked(lay: Layout, lengths: seq<nat>, priorities: seq<int>, p: nat, ranges: seq<Extent>, r: bool)
    requires p < lay.numPieces && PieceStart(lay, p) < PieceEnd(lay, p)
    requires DescribesFiles(ranges, lengths, priorities)
    requires r <==> Skippable(ranges, PieceStart(lay, p), PieceEnd(lay, p))
    ensures r <==> Masked(lay, lengths, priorities, p)
  {
    hide Start, PieceStart, PieceEnd;
    forall f | 0 <= f < |lengths|
      ensures Meets(lay, lengths, p, f) <==>
        Touches(ranges[f], PieceStart(lay, p), PieceEnd(lay, p))
    {
    }
  }

  // ------------------------------------------------------------------- theorems

  /** Byte x of the stream belongs to file f. */
  predicate InFile(lengths: seq<nat>, x: nat, f: nat)
    requires f < |lengths|
  {
    Start(lengths, f) <= x < Start(lengths, f) + lengths[f]
  }

  /** Every byte belongs to some file. */
  lemma {:induction false} FileOf(lengths: seq<nat>, x: nat, n: nat) returns (f: nat)
    requires n <= |lengths| && x < Start(lengths, n)
    ensures f < n && InFile(lengths, x, f)
  {
    if x < Start(lengths, n - 1) {
      f := FileOf(lengths, x, n - 1);
    } else {
      f := n - 1;
    }
  }

  /** No byte of a masked piece belongs to a wanted file. */
  lemma MaskedHasNoWantedByte(lay: Layout, lengths: seq<nat>, priorities: seq<int>, p: nat, x: nat, f: nat)
    requires Masked(lay, lengths, priorities, p) && f < |lengths|
    requires PieceStart(lay, p) <= x < PieceEnd(lay, p) && InFile(lengths, x, f)
    ensures Skips(priorities, f)
  {
    assert Meets(lay, lengths, p, f);
  }

  /** Byte x belongs to a skipped file. */
  ghost predicate SkippedByte(lengths: seq<nat>, priorities: seq<int>, x: nat) {
    exists f :: 0 <= f < |lengths| && InFile(lengths, x, f) && Skips(priorities, f)
  }

  /** An empty wanted file lies strictly inside the piece. */
  ghost predicate Blocked(lay: Layout, lengths: seq<nat>, priorities: seq<int>, p: nat) {
    exists f :: 0 <= f < |lengths| && EmptyInside(lay, lengths, p, f) && !Skips(priorities, f)
  }

  predicate EmptyInside(lay: Layout, lengths: seq<nat>, p: nat, f: nat)
    requires f < |lengths|
  {
    lengths[f] == 0 && PieceStart(lay, p) < Start(lengths, f) < PieceEnd(lay, p)
  }

  lemma {:induction false} FilesDoNotOverlap(lengths: seq<nat>, f: nat, g: nat)
    requires f < g < |lengths|
    ensures Start(lengths, f) + lengths[f] <= Start(lengths, g)
  {
    if f < g - 1 {
      FilesDoNotOverlap(lengths, f, g - 1);
    }
  }

  lemma OneFilePerByte(lengths: seq<nat>, x: nat, f: nat, g: nat)
    requires f < |lengths| && g < |lengths| && InFile(lengths, x, f) && InFile(lengths, x, g)
    ensures f == g
  {
    if f < g { FilesDoNotOverlap(lengths, f, g); }
    if g < f { FilesDoNotOverlap(lengths, g, f); }
  }

  /** A piece is masked exactly when all its bytes belong to skipped files and no empty wanted file
      lies strictly inside it. Without empty files the second condition says nothing. */
  lemma MaskedIff(lay: Layout, lengths: seq<nat>, priorities: seq<int>, p: nat)
    requires Sound(lay) && lay.total == TotalOf(lengths) && p < lay.numPieces
    ensures Masked(lay, lengths, priorities, p) <==>
      && (forall x :: PieceStart(lay, p) <= x < PieceEnd(lay, p) ==> SkippedByte(lengths, priorities, x))
      && !Blocked(lay, lengths, priorities, p)
  {
    PieceInside(lay, p);
    hide PieceStart, PieceEnd, Sound;
    if Masked(lay, lengths, priorities, p) {
      forall x | PieceStart(lay, p) <= x < PieceEnd(lay, p) ensures SkippedByte(lengths, priorities, x) {
        var f := FileOf(lengths, x, |lengths|);
        MaskedHasNoWantedByte(lay, lengths, priorities, p, x, f);
      }
      MaskedIsNotBlocked(lay, lengths, priorities, p);
    }
    if (forall x :: PieceStart(lay, p) <= x < PieceEnd(lay, p) ==> SkippedByte(lengths, priorities, x))
      && !Blocked(lay, lengths, priorities, p)
    {
      SkippedBytesMask(lay, lengths, priorities, p);
    }
  }

  lemma MaskedIsNotBlocked(lay: Layout, lengths: seq<nat>, priorities: seq<int>, p: nat)
    requires Masked(lay, lengths, priorities, p)
    ensures !Blocked(lay, lengths, priorities, p)
  {
    forall f | 0 <= f < |lengths| && EmptyInside(lay, lengths, p, f) ensures Skips(priorities, f) {
      assert Meets(lay, lengths, p, f);
    }
  }

  lemma SkippedBytesMask(lay: Layout, lengths: seq<nat>, priorities: seq<int>, p: nat)
    requires lay.total == TotalOf(lengths) && p < lay.numPieces
    requires PieceStart(lay, p) < PieceEnd(lay, p) <= lay.total && !Blocked(lay, lengths, priorities, p)
    requires forall x :: PieceStart(lay, p) <= x < PieceEnd(lay, p) ==> SkippedByte(lengths, priorities, x)
    ensures Masked(lay, lengths, priorities, p)
  {
    hide PieceStart, PieceEnd;
    var lo, hi := PieceStart(lay, p), PieceEnd(lay, p);
    var g := FileOf(lengths, lo, |lengths|);
    assert Meets(lay, lengths, p, g);
    forall f | 0 <= f < |lengths| && Meets(lay, lengths, p, f) ensures Skips(priorities, f) {
      var s := Start(lengths, f);
      if lengths[f] == 0 {
        assert EmptyInside(lay, lengths, p, f);
      } else {
        var x := if s < lo then lo else s;
        assert InFile(lengths, x, f) && SkippedByte(lengths, priorities, x);
        var h :| 0 <= h < |lengths| && InFile(lengths, x, h) && Skips(priorities, h);
        OneFilePerByte(lengths, x, f, h);
      }
    }
  }

  /** Skipping more files masks more pieces. */
  lemma SkippingMoreMasksMore(lay: Layout, lengths: seq<nat>, few: seq<int>, more: seq<int>, p: nat)
    requires forall f :: 0 <= f < |lengths| && Skips(few, f) ==> Skips(more, f)
    requires Masked(lay, lengths, few, p)
    ensures Masked(lay, lengths, more, p)
  {
  }

  lemma {:induction false} StartWithin(lengths: seq<nat>, n: nat)
    requires n <= |lengths|
    ensures Start(lengths, n) <= TotalOf(lengths)
    decreases |lengths| - n
  {
    if n < |lengths| { StartWithin(lengths, n + 1); }
  }

  /** A piece that holds a byte of a wanted file is not masked. */
  lemma WantedPieceIsUnmasked(lay: Layout, lengths: seq<nat>, priorities: seq<int>, f: nat, p: nat)
    requires f < |lengths| && !Skips(priorities, f)
    requires Overlap(PieceStart(lay, p), PieceEnd(lay, p), Start(lengths, f), Start(lengths, f) + lengths[f]) > 0
    ensures !Masked(lay, lengths, priorities, p)
  {
    assert Meets(lay, lengths, p, f);
  }

  /** Once every piece that is not masked is held, every wanted file has all its bytes. */
  lemma UnmaskedSuffice(lay: Layout, lengths: seq<nat>, priorities: seq<int>, bf: Bits, f: nat)
    requires Sound(lay) && lay.total == TotalOf(lengths) && f < |lengths| && !Skips(priorities, f)
    requires forall p :: 0 <= p < lay.numPieces && !Masked(lay, lengths, priorities, p) ==> HasPiece(bf, p)
    ensures lengths[f] > 0 ==>
      HeldBytes(lay, bf, Start(lengths, f), Start(lengths, f) + lengths[f], lay.numPieces) == lengths[f]
  {
    if lengths[f] > 0 {
      var lo, hi := Start(lengths, f), Start(lengths, f) + lengths[f];
      StartWithin(lengths, f + 1);
      assert hi == Start(lengths, f + 1) && lay.pieceLength > 0;
      hide HasPiece, HeldBytes, Masked, Sound, Start;
      forall p | lo / lay.pieceLength <= p <= (hi - 1) / lay.pieceLength ensures HasPiece(bf, p) {
        RangePieceIsUnmasked(lay, lengths, priorities, f, p);
      }
      FullIffHeld(lay, bf, lo, hi);
    }
  }

  /** The pieces of the range of a wanted file exist and are not masked. */
  lemma RangePieceIsUnmasked(lay: Layout, lengths: seq<nat>, priorities: seq<int>, f: nat, p: int)
    requires Sound(lay) && lay.total == TotalOf(lengths) && f < |lengths| && !Skips(priorities, f) && lengths[f] > 0
    requires var lo, hi := Start(lengths, f), Start(lengths, f) + lengths[f];
      lo / lay.pieceLength <= p <= (hi - 1) / lay.pieceLength
    ensures 0 <= p < lay.numPieces && !Masked(lay, lengths, priorities, p)
  {
    var lo, hi := Start(lengths, f), Start(lengths, f) + lengths[f];
    StartWithin(lengths, f + 1);
    assert hi == Start(lengths, f + 1) <= lay.total;
    hide Overlap, PieceStart, PieceEnd, Masked, Sound, Start;
    LastPieceExists(lay, hi - 1);
    OverlapsIff(lay, p, lo, hi);
    WantedPieceIsUnmasked(lay, lengths, priorities, f, p);
  }

  /** Once every piece that is not masked is held, a wanted file is reported as complete if it has bytes, and
      otherwise exactly if the one piece of its range is held. */
  lemma WantedIsComplete(lay: Layout, lengths: seq<nat>, priorities: seq<int>, bf: Bits, f: nat)
    requires Sound(lay) && lay.total == TotalOf(lengths) && f < |lengths| && !Skips(priorities, f)
    requires forall p :: 0 <= p < lay.numPieces && !Masked(lay, lengths, priorities, p) ==> HasPiece(bf, p)
    ensures var r := FileProgress.RangeOf(lay, lengths, f);
      FileProgress.Complete(r, bf) <==> lengths[f] > 0 || HasPiece(bf, r.firstPiece)
  {
    hide HasPiece, Masked, Sound, HeldBytes;
    UnmaskedSuffice(lay, lengths, priorities, bf, f);
    if lengths[f] > 0 {
      FileProgress.FullIffComplete(lay, lengths, bf, f);
    }
  }

  /** An empty wanted file at the edge of a masked piece is not reported: with one skipped file of four bytes
      behind it, nothing is downloaded and it stays incomplete. */
  lemma EmptyWantedIsNotReported()
    ensures var lay, lengths, priorities := Layout(4, 4, 1), [0, 4], [0, PRIORITY_SKIP];
      && Sound(lay) && lay.total == TotalOf(lengths) && !Skips(priorities, 0)
      && Masked(lay, lengths, priorities, 0)
      && !FileProgress.Complete(FileProgress.RangeOf(lay, lengths, 0), Zeros(1))
  {
    var lay, lengths, priorities := Layout(4, 4, 1), [0, 4], [0, PRIORITY_SKIP];
    assert Start(lengths, 1) == 0 && Start(lengths, 2) == 4;
    assert Meets(lay, lengths, 0, 1) && !Meets(lay, lengths, 0, 0);
    ZerosHoldNothing(1, 0);
  }
}
