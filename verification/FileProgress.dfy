/** Per-file progress and file completion, computed from the set of held pieces. */
module FileProgress {
  import opened Bytes
  import opened Bitfield
  import opened Arithmetic
  import opened Geometry

  // --------------------------------------------------------------- bytes per file

  /** The file lies inside a torrent whose piece count fits its length. */
  predicate Fits(offset: nat, length: int, lay: Layout) {
    Sound(lay) && offset + length <= lay.total
  }

  /** The bytes of the file at [offset, offset+length) that are covered by held pieces. */
  method ComputeFileDownloaded(bf: Option<Bits>, offset: nat, length: int, lay: Layout) returns (downloaded: nat)
    ensures bf.None? || length <= 0 || lay.pieceLength == 0 ==> downloaded == 0
    ensures bf.Some? && length > 0 && Fits(offset, length, lay) ==>
      downloaded == HeldBytes(lay, bf.value, offset, offset + length, lay.numPieces)
  {
    if bf.None? || length <= 0 || lay.pieceLength <= 0 {
      return 0;
    }
    ghost var fits := Fits(offset, length, lay);
    var end := offset + length;
    var firstPiece := offset / lay.pieceLength;
    var lastPiece := (end - 1) / lay.pieceLength;
    DivMono(offset, end - 1, lay.pieceLength);
    if fits {
      LastPieceExists(lay, end - 1);
      NoBytesOutside(lay, bf.value, offset, end, 0, firstPiece);
    }
    hide HasPiece, Overlap, Sound, PieceStart, PieceEnd, Fits;
    if lastPiece >= lay.numPieces {
      lastPiece := lay.numPieces - 1;
    }
    downloaded := 0;
    var i := firstPiece;
    while i <= lastPiece
      invariant firstPiece <= i && (fits ==> i <= lastPiece + 1)
      invariant fits ==> downloaded == HeldBytes(lay, bf.value, offset, end, i)
      decreases lastPiece - i
    {
      if HasPiece(bf.value, i) {
        var share := PieceShare(lay, i, offset, end);
        downloaded := downloaded + share;
      }
      i := i + 1;
    }
    if fits {
      RestIsEmpty(lay, bf.value, offset, end, lastPiece + 1);
    }
  }

  lemma RestIsEmpty(lay: Layout, bf: Bits, lo: nat, hi: nat, n: nat)
    requires Sound(lay) && lo < hi <= lay.total && n == (hi - 1) / lay.pieceLength + 1
    ensures HeldBytes(lay, bf, lo, hi, lay.numPieces) == HeldBytes(lay, bf, lo, hi, n)
  {
    LastPieceExists(lay, hi - 1);
    NoBytesOutside(lay, bf, lo, hi, n, lay.numPieces);
  }

  /** The bytes that piece i contributes to [offset, end). */
  method PieceShare(lay: Layout, i: nat, offset: nat, end: nat) returns (n: nat)
    ensures n == Overlap(PieceStart(lay, i), PieceEnd(lay, i), offset, end)
  {
    var pieceStart := i * lay.pieceLength;
    var pieceEnd := pieceStart + lay.pieceLength;
    if pieceEnd > lay.total {
      pieceEnd := lay.total;
    }
    var start := pieceStart;
    if start < offset {
      start := offset;
    }
    var finish := pieceEnd;
    if finish > end {
      finish := end;
    }
    n := 0;
    if finish > start {
      n := finish - start;
    }
  }

  lemma QuotientsOrdered(a: nat, x: nat, b: nat, y: nat, p: nat)
    requires a * p <= x <= y < b * p + p
    ensures a <= b
  {
    if b < a {
      MulNext(b, p);
      MulMono(b + 1, a, p);
    }
  }

  lemma DivMono(x: nat, y: nat, p: nat)
    requires p > 0 && x <= y
    ensures x / p <= y / p
  {
    DivBounds(x, p);
    DivBounds(y, p);
    QuotientsOrdered(x / p, x, y / p, y, p);
  }

  /** Pieces before the first or after the last piece of a range contribute nothing. */
  lemma {:induction false} NoBytesOutside(lay: Layout, bf: Bits, lo: nat, hi: nat, m: nat, n: nat)
    requires Sound(lay) && lo < hi <= lay.total && m <= n <= lay.numPieces
    requires n <= lo / lay.pieceLength || (hi - 1) / lay.pieceLength < m
    ensures HeldBytes(lay, bf, lo, hi, n) == HeldBytes(lay, bf, lo, hi, m)
    decreases n
  {
    hide HasPiece, Overlap;
    if m < n {
      NoBytesOutside(lay, bf, lo, hi, m, n - 1);
      OverlapsIff(lay, n - 1, lo, hi);
    }
  }

  /** What the files of a torrent report together. */
  function Reported(lay: Layout, bf: Bits, lengths: seq<nat>, n: nat): nat
    requires n <= |lengths|
  {
    if n == 0 then 0
    else
      var own := HeldBytes(lay, bf, Start(lengths, n - 1), Start(lengths, n), lay.numPieces);
      Reported(lay, bf, lengths, n - 1) + own
  }

  lemma {:induction false} EmptyRange(lay: Layout, bf: Bits, x: nat, n: nat)
    ensures HeldBytes(lay, bf, x, x, n) == 0
  {
    hide HasPiece;
    if n > 0 { EmptyRange(lay, bf, x, n - 1); }
  }

  lemma {:induction false} ReportedSoFar(lay: Layout, bf: Bits, lengths: seq<nat>, n: nat)
    requires n <= |lengths|
    ensures Reported(lay, bf, lengths, n) == HeldBytes(lay, bf, 0, Start(lengths, n), lay.numPieces)
  {
    if n == 0 {
      EmptyRange(lay, bf, 0, lay.numPieces);
    } else {
      ReportedSoFar(lay, bf, lengths, n - 1);
      HeldBytesAdd(lay, bf, 0, Start(lengths, n - 1), Start(lengths, n), lay.numPieces);
    }
  }

  /** The per-file figures add up to the sizes of the held pieces: no byte is lost or counted twice,
      however pieces straddle files. */
  lemma FilesAddUp(lay: Layout, bf: Bits, lengths: seq<nat>)
    requires Sound(lay) && lay.total == TotalOf(lengths)
    ensures Reported(lay, bf, lengths, |lengths|) == HeldSizes(lay, bf, lay.numPieces)
  {
    ReportedSoFar(lay, bf, lengths, |lengths|);
    HeldBytesOfAll(lay, bf, lay.numPieces);
  }

  // ------------------------------------------------------------------ file ranges

  datatype FileRange = FileRange(index: nat, size: nat, firstPiece: int, lastPiece: int)

  function RangeFor(lay: Layout, start: nat, length: nat): (int, int)
    requires lay.pieceLength > 0
  {
    var first := start / lay.pieceLength;
    if length <= 0 then
      var one := if first >= lay.numPieces then lay.numPieces - 1 else first;
      (one, one)
    else
      var last := (start + length - 1) / lay.pieceLength;
      (first, if last >= lay.numPieces then lay.numPieces - 1 else last)
  }

  function RangeOf(lay: Layout, lengths: seq<nat>, i: nat): FileRange
    requires lay.pieceLength > 0 && i < |lengths|
  {
    var r := RangeFor(lay, Start(lengths, i), lengths[i]);
    FileRange(i, lengths[i], r.0, r.1)
  }

  /** The piece range of every file. */
  method ComputeFileRanges(lay: Layout, lengths: seq<nat>) returns (out: seq<FileRange>)
    ensures lay.pieceLength == 0 || lay.numPieces == 0 ==> out == []
    ensures lay.pieceLength > 0 && lay.numPieces > 0 ==>
      |out| == |lengths| && forall i :: 0 <= i < |out| ==> out[i] == RangeOf(lay, lengths, i)
  {
    out := [];
    if lay.pieceLength <= 0 || lay.numPieces <= 0 {
      return;
    }
    var offset := 0;
    for i := 0 to |lengths|
      invariant offset == Start(lengths, i)
      invariant |out| == i && forall j :: 0 <= j < i ==> out[j] == RangeOf(lay, lengths, j)
    {
      var r := RangeFor(lay, offset, lengths[i]);
      out := out + [FileRange(i, lengths[i], r.0, r.1)];
      offset := offset + lengths[i];
    }
  }

  predicate Complete(r: FileRange, bf: Bits) {
    forall p :: r.firstPiece <= p <= r.lastPiece ==> HasPiece(bf, p)
  }

  lemma {:induction false} StartMono(lengths: seq<nat>, m: nat, n: nat)
    requires m <= n <= |lengths|
    ensures Start(lengths, m) <= Start(lengths, n)
  {
    if m < n { StartMono(lengths, m, n - 1); }
  }

  /** A non-empty file has all its bytes exactly when every piece of its range is held. */
  lemma FullIffComplete(lay: Layout, lengths: seq<nat>, bf: Bits, i: nat)
    requires Sound(lay) && lay.total == TotalOf(lengths) && i < |lengths| && lengths[i] > 0
    ensures HeldBytes(lay, bf, Start(lengths, i), Start(lengths, i) + lengths[i], lay.numPieces) == lengths[i]
      <==> Complete(RangeOf(lay, lengths, i), bf)
  {
    var lo := Start(lengths, i);
    var hi := lo + lengths[i];
    assert Start(lengths, i + 1) == hi;
    StartMono(lengths, i + 1, |lengths|);
    LastPieceExists(lay, hi - 1);
    FullIffHeld(lay, bf, lo, hi);
  }

  // ------------------------------------------------------------- completion events

  /** The ranges that are complete now and were not marked before, in order. */
  function Fresh(ranges: seq<FileRange>, marked: set<nat>, bf: Bits): (r: seq<FileRange>)
  {
    if ranges == [] then []
    else
      var last := ranges[|ranges| - 1];
      var init := Fresh(ranges[..|ranges| - 1], marked, bf);
      if last.index in marked || !Complete(last, bf) then init else init + [last]
  }

  function Indices(rs: seq<FileRange>): (r: set<nat>)
    ensures forall i :: i in r <==> exists k :: 0 <= k < |rs| && rs[k].index == i
  {
    set k | 0 <= k < |rs| :: rs[k].index
  }

  /** Ranges are numbered by position. */
  predicate Numbered(ranges: seq<FileRange>) {
    forall i :: 0 <= i < |ranges| ==> ranges[i].index == i
  }

  method IsComplete(fr: FileRange, bf: Bits) returns (complete: bool)
    ensures complete == Complete(fr, bf)
  {
    var p := fr.firstPiece;
    while p <= fr.lastPiece
      invariant forall q :: fr.firstPiece <= q < p ==> HasPiece(bf, q)
      decreases fr.lastPiece - p
    {
      if !HasPiece(bf, p) {
        return false;
      }
      p := p + 1;
    }
    return true;
  }

  class Session {
    var completedFiles: set<nat>

    /** The start of a download: files that the resumed bitfield already covers are marked, so that
        no event is sent for them. */
    constructor (ranges: seq<FileRange>, have: Option<Bits>)
      requires Numbered(ranges)
      ensures completedFiles == Preseeded(ranges, have)
      ensures forall i :: i in completedFiles <==> 0 <= i < |ranges| && have.Some? && Complete(ranges[i], have.value)
    {
      var marked := {};
      if have.Some? {
        for k := 0 to |ranges|
          invariant marked == set i | 0 <= i < k && Complete(ranges[i], have.value)
        {
          var c := IsComplete(ranges[k], have.value);
          if c {
            marked := marked + {ranges[k].index};
          }
        }
      }
      completedFiles := marked;
    }

    method CollectNewlyCompletedFiles(ranges: seq<FileRange>, bf: Bits) returns (done: seq<FileRange>)
      requires Numbered(ranges)
      modifies this
      ensures done == if |bf| == 0 then [] else Fresh(ranges, old(completedFiles), bf)
      ensures completedFiles == old(completedFiles) + Indices(done)
    {
      done := [];
      if |ranges| == 0 || |bf| == 0 {
        return;
      }
      for k := 0 to |ranges|
        invariant done == Fresh(ranges[..k], old(completedFiles), bf)
        invariant forall i :: i in completedFiles <==> i in old(completedFiles) || i in Indices(done)
        invariant forall d :: 0 <= d < |done| ==> done[d].index < k
      {
        assert ranges[..k + 1][..k] == ranges[..k];
        var fr := ranges[k];
        if fr.index !in completedFiles {
          var complete := IsComplete(fr, bf);
          if complete {
            completedFiles := completedFiles + {fr.index};
            IndicesSnoc(done, fr);
            done := done + [fr];
          }
        }
      }
      assert ranges[..|ranges|] == ranges;
    }
  }

  function Preseeded(ranges: seq<FileRange>, have: Option<Bits>): set<nat> {
    if have.None? then {} else set i | 0 <= i < |ranges| && Complete(ranges[i], have.value)
  }

  lemma IndicesSnoc(rs: seq<FileRange>, r: FileRange)
    ensures Indices(rs + [r]) == Indices(rs) + {r.index}
  {
    forall i ensures i in Indices(rs + [r]) <==> i in Indices(rs) + {r.index} {
      if i in Indices(rs) {
        var k :| 0 <= k < |rs| && rs[k].index == i;
        assert (rs + [r])[k].index == i;
      }
      if i == r.index {
        assert (rs + [r])[|rs|].index == i;
      }
    }
  }

  lemma {:induction false} FreshIndices(ranges: seq<FileRange>, marked: set<nat>, bf: Bits, i: nat)
    requires Numbered(ranges)
    ensures i in Indices(Fresh(ranges, marked, bf)) <==> i < |ranges| && i !in marked && Complete(ranges[i], bf)
  {
    hide Complete;
    if ranges != [] {
      var n := |ranges| - 1;
      FreshIndices(ranges[..n], marked, bf, i);
      IndicesSnoc(Fresh(ranges[..n], marked, bf), ranges[n]);
    }
  }

  /** What call k reports. */
  function ReportAt(ranges: seq<FileRange>, marks: seq<set<nat>>, bfs: seq<Bits>, k: nat): seq<FileRange>
    requires k < |bfs| && k < |marks|
  {
    if |bfs[k]| == 0 then [] else Fresh(ranges, marks[k], bfs[k])
  }

  ghost predicate MarkedAt(ranges: seq<FileRange>, marks: seq<set<nat>>, bfs: seq<Bits>, k: nat)
    requires k < |bfs| < |marks|
  {
    marks[k + 1] == marks[k] + Indices(ReportAt(ranges, marks, bfs, k))
  }

  /** A download: the bitfield at every finished piece, and the marks before and after each call. */
  ghost predicate Run(ranges: seq<FileRange>, have: Option<Bits>, marks: seq<set<nat>>, bfs: seq<Bits>) {
    && Numbered(ranges)
    && |marks| == |bfs| + 1
    && marks[0] == Preseeded(ranges, have)
    && forall k :: 0 <= k < |bfs| ==> MarkedAt(ranges, marks, bfs, k)
  }

  ghost predicate CompleteAt(ranges: seq<FileRange>, bfs: seq<Bits>, i: nat, k: nat)
    requires i < |ranges| && k < |bfs|
  {
    |bfs[k]| > 0 && Complete(ranges[i], bfs[k])
  }

  lemma {:induction false} MarkedIff(ranges: seq<FileRange>, have: Option<Bits>, marks: seq<set<nat>>,
                                     bfs: seq<Bits>, i: nat, n: nat)
    requires Run(ranges, have, marks, bfs) && n < |marks| && i < |ranges|
    ensures i in marks[n] <==> i in marks[0] || exists k :: 0 <= k < n && CompleteAt(ranges, bfs, i, k)
  {
    hide Complete;
    if n > 0 {
      MarkedIff(ranges, have, marks, bfs, i, n - 1);
      assert MarkedAt(ranges, marks, bfs, n - 1);
      if |bfs[n - 1]| > 0 {
        FreshIndices(ranges, marks[n - 1], bfs[n - 1], i);
      }
      if CompleteAt(ranges, bfs, i, n - 1) {
        assert i in marks[n];
      }
    }
  }

  /** Call k reports file i exactly when the file was not complete at the start and k is the first call
      that sees it complete. */
  lemma ReportedWhenFirstComplete(ranges: seq<FileRange>, have: Option<Bits>, marks: seq<set<nat>>, bfs: seq<Bits>,
                                  i: nat, k: nat)
    requires Run(ranges, have, marks, bfs) && k < |bfs| && i < |ranges|
    ensures i in Indices(ReportAt(ranges, marks, bfs, k)) <==>
      && !(have.Some? && Complete(ranges[i], have.value))
      && CompleteAt(ranges, bfs, i, k)
      && forall j :: 0 <= j < k ==> !CompleteAt(ranges, bfs, i, j)
  {
    hide Complete;
    MarkedIff(ranges, have, marks, bfs, i, k);
    if |bfs[k]| > 0 {
      FreshIndices(ranges, marks[k], bfs[k], i);
    }
  }

  /** A file that was not complete at the start and is complete at call n has been reported exactly
      once by then. */
  lemma {:induction false} ReportedExactlyOnce(ranges: seq<FileRange>, have: Option<Bits>, marks: seq<set<nat>>,
                                               bfs: seq<Bits>, i: nat, n: nat)
    returns (k: nat)
    requires Run(ranges, have, marks, bfs) && n < |bfs| && i < |ranges|
    requires !(have.Some? && Complete(ranges[i], have.value)) && CompleteAt(ranges, bfs, i, n)
    ensures k <= n && i in Indices(ReportAt(ranges, marks, bfs, k))
    ensures forall j :: 0 <= j < |bfs| && j != k ==> i !in Indices(ReportAt(ranges, marks, bfs, j))
    decreases n
  {
    hide Complete;
    if j :| 0 <= j < n && CompleteAt(ranges, bfs, i, j) {
      k := ReportedExactlyOnce(ranges, have, marks, bfs, i, j);
    } else {
      k := n;
      ReportedWhenFirstComplete(ranges, have, marks, bfs, i, n);
      forall j | 0 <= j < |bfs| && j != k ensures i !in Indices(ReportAt(ranges, marks, bfs, j)) {
        ReportedWhenFirstComplete(ranges, have, marks, bfs, i, j);
      }
    }
  }
}
