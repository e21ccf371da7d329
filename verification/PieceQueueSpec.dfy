/** What the piece queue does, without its availability buckets. */
module PieceQueueSpec {
  import opened Bytes
  import opened Bitfield

  datatype PieceWork = PieceWork(index: nat, hash: bytes, length: int)

  /** A queue: remaining pieces, per-piece peer counts, pieces being downloaded, pieces done. */
  datatype Queue = Queue(
    pieces: map<nat, PieceWork>,
    availability: map<nat, int>,
    pending: set<nat>,
    done: set<nat>,
    endgame: bool,
    totalPieces: nat,
    skipMask: Option<Bits>,
    priority: set<nat>,
    sequential: bool)

  /** A missing count is zero. */
  function Avail(q: Queue, i: nat): int {
    if i in q.availability then q.availability[i] else 0
  }

  /** Whether the queue counts a peer with this bitfield for a piece: a missing one counts for all. */
  predicate Holds(bf: Option<Bits>, i: nat) {
    bf.None? || HasPiece(bf.value, i)
  }

  predicate Skipped(mask: Option<Bits>, i: nat) {
    mask.Some? && HasPiece(mask.value, i)
  }

  predicate Wellformed(q: Queue) {
    && (forall i :: i in q.pieces ==> q.pieces[i].index == i)
    && q.pieces.Keys !! q.done
    && q.pending <= q.pieces.Keys
    && q.priority <= q.pieces.Keys
  }

  function Threshold(totalPieces: nat): nat {
    if totalPieces / 100 < 5 then 5 else totalPieces / 100
  }

  /** Endgame begins when few pieces remain, and stays. */
  function EnterEndgame(q: Queue): Queue {
    q.(endgame := q.endgame || 0 < |q.pieces| <= Threshold(q.totalPieces))
  }

  /** The pieces that may be handed to a peer. */
  predicate Eligible(q: Queue, has: nat -> bool, i: nat) {
    && i in q.pieces
    && (q.endgame || i !in q.pending)
    && !Skipped(q.skipMask, i)
    && has(i)
  }

  /** The piece that the selection mode prefers: the lowest index in sequential mode, otherwise a
      priority piece if any is eligible, otherwise a rarest one. */
  ghost predicate Preferred(q: Queue, has: nat -> bool, i: nat) {
    && Eligible(q, has, i)
    && (if q.sequential then forall j :: Eligible(q, has, j) ==> i <= j
        else if exists j :: j in q.priority && Eligible(q, has, j) then i in q.priority
        else forall j :: Eligible(q, has, j) ==> Avail(q, i) <= Avail(q, j))
  }

  /** Pick, whatever order the maps are visited in and whatever the dice say. */
  ghost predicate Picks(q: Queue, has: nat -> bool, q': Queue, r: Option<PieceWork>) {
    var e := EnterEndgame(q);
    match r
    case None => q' == e && forall i :: !Eligible(e, has, i)
    case Some(pw) =>
      && Preferred(e, has, pw.index)
      && pw == e.pieces[pw.index]
      && q' == e.(pending := e.pending + {pw.index})
  }

  function Returned(q: Queue, i: nat): Queue {
    q.(pending := q.pending - {i})
  }

  function Completed(q: Queue, i: nat): Queue {
    q.(pieces := q.pieces - {i},
       pending := q.pending - {i},
       priority := q.priority - {i},
       done := q.done + {i})
  }

  /** A peer with bitfield `bf` comes (delta 1) or goes (delta -1): only remaining pieces are counted. */
  function Shifted(q: Queue, bf: Option<Bits>, delta: int): Queue {
    q.(availability := q.availability + map i | i in q.pieces && Holds(bf, i) :: Avail(q, i) + delta)
  }

  function Announced(q: Queue, i: nat): Queue {
    q.(availability := q.availability[i := Avail(q, i) + 1])
  }
}
