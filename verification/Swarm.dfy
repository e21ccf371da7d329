/** Download workers sharing one piece queue, and the loop that collects their results. Each critical
    section is one step; any number of workers run in any order. */
module Swarm {
  import opened Bytes
  import opened Bitfield
  import opened PieceQueueSpec

  /** What a worker is doing. `Checked` exists only when the check for a finished piece and the
      marking of it are separate steps. */
  datatype Worker = Idle | Working(index: nat) | Checked(index: nat)

  /** The bits a peer joined with and the ones it has now: one slice in memory, in which later Have
      messages set bits, or none if the peer sent none. `haveAll` is set by a HaveAll message. */
  datatype Peer = Peer(joined: Option<Bits>, now: Option<Bits>, haveAll: bool)

  /** `sent` is everything put on the result channel, of which `written` have been taken off and
      written to storage. `haves` counts the calls of PeerHave, `excess` the times a leaving peer took
      back a piece that was not counted when it joined. */
  datatype State = State(
    initial: set<nat>,
    q: Queue,
    workers: map<nat, Worker>,
    sent: seq<nat>,
    written: nat,
    peers: map<nat, Peer>,
    haves: multiset<nat>,
    excess: multiset<nat>)

  datatype Step =
    | Pick(w: nat, has: nat -> bool, r: Option<PieceWork>)
    | Fail(w: nat)
    | Finish(w: nat, delivered: bool)
    | Check(w: nat)
    | Commit(w: nat, delivered: bool)
    | Collect
    | Join(peer: nat, bf: Option<Bits>, haveAll: bool)
    | Have(peer: nat, i: nat)
    | Leave(peer: nat)
    | Announce(i: nat)
    | Mask(mask: Option<Bits>)

  /** A Have message sets a bit, unless the peer has everything or no bits were kept. */
  function Learned(peer: Peer, i: nat): Peer {
    if peer.haveAll || peer.now.None? then peer else peer.(now := Some(WithPiece(peer.now.value, i)))
  }

  predicate IsLate(peer: Peer, i: nat) {
    Holds(peer.now, i) && !Holds(peer.joined, i)
  }

  /** The remaining pieces that a peer has but was not counted for. */
  function Unadded(s: State, p: nat): set<nat>
    requires p in s.peers
  {
    set i | i in s.q.pieces && IsLate(s.peers[p], i)
  }

  predicate Busy(s: State, w: nat) {
    w in s.workers && s.workers[w].Working?
  }

  predicate Holding(s: State, w: nat) {
    w in s.workers && s.workers[w] != Idle
  }

  /** One step. `Finish` looks whether the piece is done and marks it in one go; `Check` and `Commit`
      do the same in two. A result is lost only when the download is cancelled. */
  ghost predicate Next(s: State, step: Step, s': State) {
    match step
    case Pick(w, has, r) =>
      && w in s.workers && s.workers[w] == Idle
      && Picks(s.q, has, s'.q, r)
      && s' == s.(q := s'.q, workers := if r.None? then s.workers else s.workers[w := Working(r.value.index)])
    case Fail(w) =>
      && Busy(s, w)
      && s' == s.(q := Returned(s.q, s.workers[w].index), workers := s.workers[w := Idle])
    case Finish(w, delivered) =>
      && Busy(s, w)
      && var i := s.workers[w].index;
         if i in s.q.done then s' == s.(workers := s.workers[w := Idle])
         else s' == s.(q := Completed(s.q, i), workers := s.workers[w := Idle],
                       sent := if delivered then s.sent + [i] else s.sent)
    case Check(w) =>
      && Busy(s, w)
      && s' == s.(workers := s.workers[w :=
           if s.workers[w].index in s.q.done then Idle else Checked(s.workers[w].index)])
    case Commit(w, delivered) =>
      && w in s.workers && s.workers[w].Checked?
      && var i := s.workers[w].index;
         s' == s.(q := Completed(s.q, i), workers := s.workers[w := Idle],
                  sent := if delivered then s.sent + [i] else s.sent)
    case Collect => s.written < |s.sent| && s' == s.(written := s.written + 1)
    case Join(p, bf, haveAll) =>
      p !in s.peers && s' == s.(q := Shifted(s.q, bf, 1), peers := s.peers[p := Peer(bf, bf, haveAll)])
    case Leave(p) =>
      // the bits of the moment, which may be more than were added
      p in s.peers && s' == s.(q := Shifted(s.q, s.peers[p].now, -1), peers := s.peers - {p},
                               excess := s.excess + multiset(Unadded(s, p)))
    case Have(p, i) =>
      p in s.peers && s' == s.(peers := s.peers[p := Learned(s.peers[p], i)])
    case Announce(i) => s' == s.(q := Announced(s.q, i), haves := s.haves + multiset{i})
    case Mask(mask) => s' == s.(q := s.q.(skipMask := mask))
  }

  ghost predicate Init(s: State) {
    && Wellformed(s.q) && s.q.pieces.Keys == s.initial
    && s.q.done == {} && s.q.pending == {} && !s.q.endgame && s.q.availability == map[]
    && (forall w :: w in s.workers ==> s.workers[w] == Idle)
    && s.sent == [] && s.written == 0 && s.peers == map[] && s.haves == multiset{} && s.excess == multiset{}
  }

  ghost predicate StepAt(trace: seq<State>, steps: seq<Step>, i: int)
    requires 0 <= i < |steps| < |trace|
  {
    Next(trace[i], steps[i], trace[i + 1])
  }

  ghost predicate Run(trace: seq<State>, steps: seq<Step>) {
    && |trace| == |steps| + 1
    && Init(trace[0])
    && forall i :: 0 <= i < |steps| ==> StepAt(trace, steps, i)
  }

  /** Checking and marking always happen together. */
  ghost predicate Atomic(steps: seq<Step>) {
    forall i :: 0 <= i < |steps| ==> !steps[i].Check? && !steps[i].Commit?
  }

  /** They never do. */
  ghost predicate NeverAtomic(steps: seq<Step>) {
    forall i :: 0 <= i < |steps| ==> !steps[i].Finish?
  }

  // ----------------------------------------------------------------- invariant

  /** The remaining pieces and the finished ones split the initial set. */
  ghost predicate Partition(s: State) {
    && Wellformed(s.q)
    && s.q.pieces.Keys == s.initial - s.q.done
    && s.q.done <= s.initial
    && forall w :: Holding(s, w) ==> s.workers[w].index in s.initial
  }

  ghost predicate Distinct(sent: seq<nat>) {
    forall i, j :: 0 <= i < j < |sent| ==> sent[i] != sent[j]
  }

  ghost predicate SentIsDone(s: State) {
    && (forall i :: i in s.sent ==> i in s.q.done)
    && s.written <= |s.sent|
  }

  /** The pending pieces are those held by workers, each by one. */
  ghost predicate HeldOnce(s: State) {
    && (forall w :: Holding(s, w) ==> s.workers[w].index in s.q.pending)
    && (forall i :: i in s.q.pending ==> exists w :: Holding(s, w) && s.workers[w].index == i)
    && (forall v, w :: Holding(s, v) && Holding(s, w) && s.workers[v].index == s.workers[w].index ==> v == w)
  }

  /** The connected peers that were counted for a piece. */
  function Holders(peers: map<nat, Peer>, i: nat): set<nat> {
    set p | p in peers && Holds(peers[p].joined, i)
  }

  ghost predicate Counted(s: State) {
    forall i :: i in s.q.pieces ==> Avail(s.q, i) == |Holders(s.peers, i)| + s.haves[i] - s.excess[i]
  }

  ghost predicate Grown(peer: Peer) {
    forall i :: Holds(peer.joined, i) ==> Holds(peer.now, i)
  }

  ghost predicate PeersGrown(s: State) {
    forall p :: p in s.peers ==> Grown(s.peers[p])
  }

  ghost predicate Inv(s: State) {
    Partition(s) && SentIsDone(s) && (s.q.endgame || HeldOnce(s)) && Counted(s) && PeersGrown(s)
  }

  lemma InitHolds(s: State)
    requires Init(s)
    ensures Inv(s)
  {
    forall i ensures Holders(s.peers, i) == {} {
    }
  }

  lemma PickHeldOnce(s: State, w: nat, i: nat, s': State)
    requires HeldOnce(s) && i !in s.q.pending && w in s.workers && s.workers[w] == Idle
    requires s'.q.pending == s.q.pending + {i} && s'.workers == s.workers[w := Working(i)]
    ensures HeldOnce(s')
  {
    forall v | v != w ensures Holding(s', v) <==> Holding(s, v) {
    }
    forall j | j in s'.q.pending ensures exists v :: Holding(s', v) && s'.workers[v].index == j {
      if j == i {
        assert Holding(s', w);
      } else {
        var v :| Holding(s, v) && s.workers[v].index == j;
        assert Holding(s', v);
      }
    }
  }

  lemma DropHeldOnce(s: State, w: nat, s': State)
    requires HeldOnce(s) && Holding(s, w)
    requires s'.q.pending == s.q.pending - {s.workers[w].index} && s'.workers == s.workers[w := Idle]
    ensures HeldOnce(s')
  {
    forall v | v != w ensures Holding(s', v) <==> Holding(s, v) {
    }
    forall j | j in s'.q.pending ensures exists v :: Holding(s', v) && s'.workers[v].index == j {
      var v :| Holding(s, v) && s.workers[v].index == j;
      assert Holding(s', v);
    }
  }

  lemma FailKeeps(s: State, w: nat, s': State)
    requires Inv(s) && Next(s, Fail(w), s')
    ensures Inv(s')
  {
    hide HasPiece;
    if !s.q.endgame {
      DropHeldOnce(s, w, s');
    }
  }

  /** A result is put on the channel only after its piece was marked. */
  lemma MarkedThenSent(s: State, i: nat, delivered: bool, s': State)
    requires SentIsDone(s) && s'.q.done == s.q.done + {i} && s'.written == s.written
    requires s'.sent == if delivered then s.sent + [i] else s.sent
    ensures SentIsDone(s')
  {
    forall k | k in s'.sent ensures k in s'.q.done {
      assert k in s.sent || k == i;
    }
  }

  /** Dropping a piece from the queue leaves the counts of the others alone. */
  lemma CountedFrame(s: State, s': State)
    requires Counted(s) && s'.peers == s.peers && s'.haves == s.haves && s'.excess == s.excess
    requires s'.q.availability == s.q.availability && s'.q.pieces.Keys <= s.q.pieces.Keys
    ensures Counted(s')
  {
    hide HasPiece, Holders;
  }

  lemma HeldFrame(s: State, s': State)
    requires HeldOnce(s) && s'.workers == s.workers && s'.q.pending == s.q.pending
    ensures HeldOnce(s')
  {
    assert forall w :: Holding(s', w) <==> Holding(s, w);
  }

  lemma PickPartition(s: State, w: nat, has: nat -> bool, r: Option<PieceWork>, s': State)
    requires Partition(s) && Next(s, Pick(w, has, r), s')
    ensures Partition(s') && s'.q.pieces == s.q.pieces
    ensures r.Some? && !s'.q.endgame ==> r.value.index !in s.q.pending
  {
    hide HasPiece;
    if r.Some? {
      assert Eligible(EnterEndgame(s.q), has, r.value.index);
    }
  }

  lemma PickKeeps(s: State, w: nat, has: nat -> bool, r: Option<PieceWork>, s': State)
    requires Inv(s) && Next(s, Pick(w, has, r), s')
    ensures Inv(s')
  {
    PickPartition(s, w, has, r, s');
    PickFrame(s, w, has, r, s');
    if !s'.q.endgame {
      PickHeld(s, w, has, r, s');
    }
    hide HasPiece, Partition, HeldOnce, Counted, PeersGrown, Next;
    CountedFrame(s, s');
    GrownFrame(s, s');
    assert SentIsDone(s');
  }

  lemma PickFrame(s: State, w: nat, has: nat -> bool, r: Option<PieceWork>, s': State)
    requires Next(s, Pick(w, has, r), s')
    ensures s' == s.(q := s'.q, workers := s'.workers)
    ensures s'.q.availability == s.q.availability && s'.q.done == s.q.done && (s.q.endgame ==> s'.q.endgame)
  {
    hide HasPiece, Eligible, Preferred;
  }

  lemma PickHeld(s: State, w: nat, has: nat -> bool, r: Option<PieceWork>, s': State)
    requires HeldOnce(s) && Next(s, Pick(w, has, r), s') && !s'.q.endgame
    requires r.Some? ==> r.value.index !in s.q.pending
    ensures HeldOnce(s')
  {
    hide HasPiece, HeldOnce, Eligible, Preferred;
    if r.Some? {
      PickHeldOnce(s, w, r.value.index, s');
    } else {
      HeldFrame(s, s');
    }
  }

  lemma GrownFrame(s: State, s': State)
    requires PeersGrown(s) && s'.peers == s.peers
    ensures PeersGrown(s')
  {
  }

  /** A worker marks its piece and lets go of it. */
  ghost predicate Marks(s: State, w: nat, delivered: bool, s': State) {
    && Holding(s, w)
    && var i := s.workers[w].index;
       s' == s.(q := Completed(s.q, i), workers := s.workers[w := Idle],
                sent := if delivered then s.sent + [i] else s.sent)
  }

  lemma MarkPartition(s: State, w: nat, delivered: bool, s': State)
    requires Partition(s) && Marks(s, w, delivered, s')
    ensures Partition(s')
  {
    hide HasPiece;
    assert forall v :: Holding(s', v) ==> Holding(s, v) && s'.workers[v] == s.workers[v];
  }

  lemma MarkKeeps(s: State, w: nat, delivered: bool, s': State)
    requires Inv(s) && Marks(s, w, delivered, s')
    ensures Inv(s')
  {
    MarkPartition(s, w, delivered, s');
    MarkedThenSent(s, s.workers[w].index, delivered, s');
    hide HasPiece, SentIsDone, Partition, Counted, HeldOnce, PeersGrown;
    if !s.q.endgame {
      DropHeldOnce(s, w, s');
    }
    CountedFrame(s, s');
  }

  /** A worker whose piece was finished by another one lets go of it: that happens in endgame only. */
  lemma LateKeeps(s: State, w: nat, s': State)
    requires Inv(s) && Holding(s, w) && s.workers[w].index in s.q.done
    requires s' == s.(workers := s.workers[w := Idle])
    ensures Inv(s')
  {
    hide HasPiece;
    assert s.q.endgame;
    assert forall v :: Holding(s', v) ==> Holding(s, v) && s'.workers[v] == s.workers[v];
  }

  lemma CheckKeeps(s: State, w: nat, s': State)
    requires Inv(s) && Next(s, Check(w), s')
    ensures Inv(s')
  {
    hide HasPiece;
    if s.workers[w].index in s.q.done {
      LateKeeps(s, w, s');
    } else {
      assert forall v :: Holding(s', v) <==> Holding(s, v);
      assert forall v :: Holding(s', v) ==> s'.workers[v].index == s.workers[v].index;
      CheckHeldOnce(s, w, s');
    }
  }

  lemma CheckHeldOnce(s: State, w: nat, s': State)
    requires Busy(s, w) && s' == s.(workers := s.workers[w := Checked(s.workers[w].index)])
    ensures HeldOnce(s) ==> HeldOnce(s')
  {
    assert forall v :: Holding(s', v) <==> Holding(s, v);
    assert forall v :: Holding(s', v) ==> s'.workers[v].index == s.workers[v].index;
    if HeldOnce(s) {
      forall i | i in s'.q.pending ensures exists v :: Holding(s', v) && s'.workers[v].index == i {
        var v :| Holding(s, v) && s.workers[v].index == i;
        assert Holding(s', v);
      }
    }
  }

  lemma FinishKeeps(s: State, w: nat, delivered: bool, s': State)
    requires Inv(s) && Next(s, Finish(w, delivered), s')
    ensures Inv(s')
  {
    hide Inv;
    if s.workers[w].index in s.q.done {
      LateKeeps(s, w, s');
    } else {
      assert Marks(s, w, delivered, s');
      MarkKeeps(s, w, delivered, s');
    }
  }

  lemma HoldersJoin(peers: map<nat, Peer>, p: nat, bf: Option<Bits>, haveAll: bool, i: nat)
    requires p !in peers
    ensures |Holders(peers[p := Peer(bf, bf, haveAll)], i)| == |Holders(peers, i)| + if Holds(bf, i) then 1 else 0
  {
    hide Holds;
    var after := Holders(peers[p := Peer(bf, bf, haveAll)], i);
    forall q ensures q in after <==> q in Holders(peers, i) || (q == p && Holds(bf, i)) {
    }
    if Holds(bf, i) {
      assert after == Holders(peers, i) + {p};
    } else {
      assert after == Holders(peers, i);
    }
  }

  lemma HoldersLeave(peers: map<nat, Peer>, p: nat, i: nat)
    requires p in peers
    ensures |Holders(peers - {p}, i)| == |Holders(peers, i)| - if Holds(peers[p].joined, i) then 1 else 0
  {
    hide Holds;
    var after := Holders(peers - {p}, i);
    if Holds(peers[p].joined, i) {
      assert after == Holders(peers, i) - {p};
    } else {
      assert after == Holders(peers, i);
    }
  }

  lemma JoinCounted(s: State, p: nat, bf: Option<Bits>, haveAll: bool, s': State)
    requires Counted(s) && Next(s, Join(p, bf, haveAll), s')
    ensures Counted(s')
  {
    hide HasPiece, Holders;
    forall i | i in s'.q.pieces ensures Avail(s'.q, i) == |Holders(s'.peers, i)| + s'.haves[i] - s'.excess[i] {
      HoldersJoin(s.peers, p, bf, haveAll, i);
    }
  }

  lemma LeaveCounted(s: State, p: nat, s': State)
    requires Counted(s) && PeersGrown(s) && Next(s, Leave(p), s')
    ensures Counted(s')
  {
    hide HasPiece, Holders;
    forall i | i in s'.q.pieces ensures Avail(s'.q, i) == |Holders(s'.peers, i)| + s'.haves[i] - s'.excess[i] {
      HoldersLeave(s.peers, p, i);
    }
  }

  lemma AnnounceCounted(s: State, i: nat, s': State)
    requires Counted(s) && Next(s, Announce(i), s')
    ensures Counted(s')
  {
    hide HasPiece, Holders;
  }

  lemma LearnedGrows(peer: Peer, i: nat)
    requires Grown(peer)
    ensures Grown(Learned(peer, i))
  {
    if peer.now.Some? {
      forall j: nat | Holds(peer.joined, j) ensures Holds(Learned(peer, i).now, j) {
        WithPieceAdds(peer.now.value, i, j);
      }
    }
  }

  lemma HaveCounted(s: State, p: nat, i: nat, s': State)
    requires Counted(s) && PeersGrown(s) && Next(s, Have(p, i), s')
    ensures Counted(s') && PeersGrown(s')
  {
    LearnedGrows(s.peers[p], i);
    hide HasPiece, Learned;
    forall k ensures Holders(s'.peers, k) == Holders(s.peers, k) {
    }
  }

  lemma PeersKeep(s: State, step: Step, s': State)
    requires Inv(s) && Next(s, step, s') && (step.Join? || step.Leave? || step.Announce? || step.Have?)
    ensures Inv(s')
  {
    assert forall w :: Holding(s', w) <==> Holding(s, w);
    assert Partition(s') && SentIsDone(s');
    hide HasPiece, Partition, SentIsDone, HeldOnce, Counted;
    if !s.q.endgame {
      HeldFrame(s, s');
    }
    match step
    case Join(p, bf, haveAll) => JoinCounted(s, p, bf, haveAll, s');
    case Leave(p) => LeaveCounted(s, p, s');
    case Announce(i) => AnnounceCounted(s, i, s');
    case Have(p, i) => HaveCounted(s, p, i, s');
  }

  lemma StepKeeps(s: State, step: Step, s': State)
    requires Inv(s) && Next(s, step, s')
    ensures Inv(s')
  {
    match step
    case Pick(w, has, r) => PickKeeps(s, w, has, r, s');
    case Fail(w) => FailKeeps(s, w, s');
    case Finish(w, delivered) => FinishKeeps(s, w, delivered, s');
    case Check(w) => CheckKeeps(s, w, s');
    case Commit(w, delivered) =>
      assert Marks(s, w, delivered, s');
      MarkKeeps(s, w, delivered, s');
    case Collect => assert forall w :: Holding(s', w) <==> Holding(s, w);
    case Join(_, _, _) => PeersKeep(s, step, s');
    case Leave(_) => PeersKeep(s, step, s');
    case Have(_, _) => PeersKeep(s, step, s');
    case Announce(_) => PeersKeep(s, step, s');
    case Mask(_) => assert forall w :: Holding(s', w) <==> Holding(s, w);
  }

  lemma {:induction false} RunKeeps(trace: seq<State>, steps: seq<Step>, i: nat)
    requires Run(trace, steps) && i < |trace|
    ensures Inv(trace[i]) && trace[i].initial == trace[0].initial
  {
    if i == 0 {
      InitHolds(trace[0]);
    } else {
      RunKeeps(trace, steps, i - 1);
      assert StepAt(trace, steps, i - 1);
      StepKeeps(trace[i - 1], steps[i - 1], trace[i]);
    }
  }

  // ------------------------------------------------------------- main theorems

  lemma {:induction false} DistinctCovers(sent: seq<nat>, n: nat, all: set<nat>)
    requires Distinct(sent) && n <= |sent| && (forall i :: i in sent ==> i in all)
    requires n == |all|
    ensures forall i :: i in all ==> i in sent[..n]
    decreases n
  {
    if n == 0 {
      assert all == {};
    } else {
      var k := sent[n - 1];
      var rest := sent[..n - 1];
      forall i | i in rest ensures i in all - {k} {
        assert i in sent;
        var j :| 0 <= j < n - 1 && rest[j] == i;
        assert sent[j] == i;
      }
      DistinctCovers(rest, n - 1, all - {k});
      assert rest[..n - 1] == rest;
      forall i | i in all ensures i in sent[..n] {
        if i == k {
          assert sent[..n][n - 1] == k;
        } else {
          assert i in all - {k} && i in rest;
          var j :| 0 <= j < n - 1 && rest[j] == i;
          assert sent[..n][j] == i;
        }
      }
    }
  }

  /** The piece that a step marks as done. */
  function Marked(s: State, step: Step): Option<nat> {
    match step
    case Finish(w, _) =>
      if Busy(s, w) && s.workers[w].index !in s.q.done then Some(s.workers[w].index) else None
    case Commit(w, _) =>
      if w in s.workers && s.workers[w].Checked? then Some(s.workers[w].index) else None
    case _ => None
  }

  /** A result is lost only when the download is cancelled. */
  predicate Loses(step: Step) {
    (step.Finish? || step.Commit?) && !step.delivered
  }

  lemma StepMarks(s: State, step: Step, s': State)
    requires Next(s, step, s')
    ensures match Marked(s, step)
      case None => s'.q.done == s.q.done && s'.sent == s.sent
      case Some(i) =>
        s'.q.done == s.q.done + {i} && s'.sent == if Loses(step) then s.sent else s.sent + [i]
  {
  }

  /** Step i marks no piece that is already done. */
  ghost predicate FreshAt(trace: seq<State>, steps: seq<Step>, i: nat)
    requires i < |steps| < |trace|
  {
    var m := Marked(trace[i], steps[i]);
    m.Some? ==> m.value !in trace[i].q.done
  }

  ghost predicate FreshUpTo(trace: seq<State>, steps: seq<Step>, n: nat)
    requires n <= |steps| < |trace|
  {
    forall i :: 0 <= i < n ==> FreshAt(trace, steps, i)
  }

  ghost predicate Lossless(steps: seq<Step>) {
    forall i :: 0 <= i < |steps| ==> !Loses(steps[i])
  }

  lemma AppendDistinct(sent: seq<nat>, i: nat)
    ensures Distinct(sent + [i]) <==> Distinct(sent) && i !in sent
  {
    var all := sent + [i];
    if Distinct(all) {
      assert forall k :: 0 <= k < |sent| ==> all[k] == sent[k] && all[k] != all[|sent|];
    }
  }

  lemma {:induction false} FreshIsDistinct(trace: seq<State>, steps: seq<Step>, n: nat)
    requires Run(trace, steps) && n < |trace| && FreshUpTo(trace, steps, n)
    ensures Distinct(trace[n].sent)
  {
    if n > 0 {
      FreshIsDistinct(trace, steps, n - 1);
      RunKeeps(trace, steps, n - 1);
      assert StepAt(trace, steps, n - 1) && FreshAt(trace, steps, n - 1);
      hide Next, Partition, HeldOnce, Counted;
      var s, step := trace[n - 1], steps[n - 1];
      StepMarks(s, step, trace[n]);
      if Marked(s, step).Some? {
        AppendDistinct(s.sent, Marked(s, step).value);
      }
    }
  }

  lemma {:induction false} DoneIsSent(trace: seq<State>, steps: seq<Step>, n: nat)
    requires Run(trace, steps) && Lossless(steps) && n < |trace|
    ensures forall i :: i in trace[n].q.done ==> i in trace[n].sent
  {
    if n > 0 {
      DoneIsSent(trace, steps, n - 1);
      assert StepAt(trace, steps, n - 1);
      hide Next;
      StepMarks(trace[n - 1], steps[n - 1], trace[n]);
    }
  }

  lemma {:induction false} DistinctWasFresh(trace: seq<State>, steps: seq<Step>, n: nat)
    requires Run(trace, steps) && Lossless(steps) && n < |trace| && Distinct(trace[n].sent)
    ensures FreshUpTo(trace, steps, n)
  {
    if n > 0 {
      DoneIsSent(trace, steps, n - 1);
      assert StepAt(trace, steps, n - 1);
      hide Next;
      var s, step := trace[n - 1], steps[n - 1];
      StepMarks(s, step, trace[n]);
      if Marked(s, step).Some? {
        AppendDistinct(s.sent, Marked(s, step).value);
      }
      DistinctWasFresh(trace, steps, n - 1);
    }
  }

  /** While no result is lost, the pieces on the result channel are all different exactly as long as
      no worker marks a piece that was finished between its check and its marking. */
  lemma SentOnceIffFresh(trace: seq<State>, steps: seq<Step>, n: nat)
    requires Run(trace, steps) && Lossless(steps) && n < |trace|
    ensures Distinct(trace[n].sent) <==> FreshUpTo(trace, steps, n)
  {
    if FreshUpTo(trace, steps, n) {
      FreshIsDistinct(trace, steps, n);
    }
    if Distinct(trace[n].sent) {
      DistinctWasFresh(trace, steps, n);
    }
  }

  /** When the collecting loop has counted as many results as pieces were queued, every queued piece
      has been written, provided no finished piece was marked again. */
  lemma FreshMeansComplete(trace: seq<State>, steps: seq<Step>, n: nat)
    requires Run(trace, steps) && n < |trace| && FreshUpTo(trace, steps, n)
    ensures Distinct(trace[n].sent) && trace[n].written <= |trace[n].sent|
    ensures trace[n].written == |trace[0].initial| ==>
      forall k :: k in trace[0].initial ==> k in trace[n].sent[..trace[n].written]
  {
    RunKeeps(trace, steps, n);
    FreshIsDistinct(trace, steps, n);
    hide Inv, Next, Run, FreshUpTo;
    var s := trace[n];
    SentFacts(s);
    if s.written == |s.initial| {
      DistinctCovers(s.sent, s.written, s.initial);
    }
  }

  lemma SentFacts(s: State)
    requires Inv(s)
    ensures SentIsDone(s) && forall k :: k in s.sent ==> k in s.initial
  {
  }

  lemma {:induction false} SetIsSmall(s: seq<nat>)
    ensures |Elements(s)| <= |s|
  {
    if s != [] {
      SetIsSmall(s[1..]);
      assert s == [s[0]] + s[1..];
      assert Elements(s) == {s[0]} + Elements(s[1..]);
    }
  }

  function Elements(s: seq<nat>): set<nat> {
    set i | i in s
  }

  lemma RepeatedIsSmaller(s: seq<nat>, i: nat, j: nat)
    requires i < j < |s| && s[i] == s[j]
    ensures |Elements(s)| < |s|
  {
    var rest := s[..j] + s[j + 1..];
    assert s == s[..j] + [s[j]] + s[j + 1..];
    assert rest[i] == s[j];
    assert Elements(rest) == Elements(s);
    SetIsSmall(rest);
  }

  /** When the collecting loop has counted as many results as pieces were queued, every queued piece has been
      written exactly if no result came twice. */
  lemma CollectedIffDistinct(trace: seq<State>, steps: seq<Step>, n: nat)
    requires Run(trace, steps) && n < |trace| && trace[n].written == |trace[0].initial|
    ensures trace[n].written <= |trace[n].sent|
    ensures var got := trace[n].sent[..trace[n].written];
      (forall k :: k in trace[0].initial ==> k in got) <==> Distinct(got)
  {
    RunKeeps(trace, steps, n);
    hide Inv, Next, Run;
    var s := trace[n];
    SentFacts(s);
    var got := s.sent[..s.written];
    if Distinct(got) {
      DistinctCovers(got, |got|, s.initial);
      assert got[..|got|] == got;
    }
    if forall k :: k in s.initial ==> k in got {
      assert Elements(got) == s.initial;
      forall i, j | 0 <= i < j < |got| ensures got[i] != got[j] {
        if got[i] == got[j] {
          RepeatedIsSmaller(got, i, j);
        }
      }
    }
  }

  /** In every run that checks and marks in one step each piece reaches the result channel at most
      once, and the collecting loop succeeds only when every queued piece has been written. */
  lemma CountedMeansComplete(trace: seq<State>, steps: seq<Step>, n: nat)
    requires Run(trace, steps) && Atomic(steps) && n < |trace|
    ensures Distinct(trace[n].sent) && trace[n].written <= |trace[n].sent|
    ensures trace[n].written == |trace[0].initial| ==>
      forall k :: k in trace[0].initial ==> k in trace[n].sent[..trace[n].written]
  {
    assert FreshUpTo(trace, steps, n);
    FreshMeansComplete(trace, steps, n);
  }

  /** No two workers stand between the check and the marking of the same piece. */
  ghost predicate OneChecker(s: State) {
    forall v, w :: v in s.workers && w in s.workers && s.workers[v].Checked? && s.workers[v] == s.workers[w] ==> v == w
  }

  ghost predicate CheckedIsNotDone(s: State) {
    forall w :: w in s.workers && s.workers[w].Checked? ==> s.workers[w].index !in s.q.done
  }

  lemma CheckedStaysNotDone(s: State, step: Step, s': State)
    requires Next(s, step, s') && !step.Finish? && OneChecker(s) && CheckedIsNotDone(s)
    ensures CheckedIsNotDone(s')
  {
    hide HasPiece;
  }

  lemma {:induction false} OneCheckerKeeps(trace: seq<State>, steps: seq<Step>, n: nat)
    requires Run(trace, steps) && NeverAtomic(steps) && n < |trace|
    requires forall i :: 0 <= i < n ==> OneChecker(trace[i])
    ensures CheckedIsNotDone(trace[n]) && FreshUpTo(trace, steps, n)
  {
    if n > 0 {
      OneCheckerKeeps(trace, steps, n - 1);
      assert StepAt(trace, steps, n - 1);
      hide Next;
      CheckedStaysNotDone(trace[n - 1], steps[n - 1], trace[n]);
      assert FreshAt(trace, steps, n - 1);
    }
  }

  /** With the check and the marking as two steps, the guarantee holds in every run in which no two
      workers are between them on the same piece. */
  lemma OneCheckerMeansComplete(trace: seq<State>, steps: seq<Step>, n: nat)
    requires Run(trace, steps) && NeverAtomic(steps) && n < |trace|
    requires forall i :: 0 <= i < n ==> OneChecker(trace[i])
    ensures Distinct(trace[n].sent) && trace[n].written <= |trace[n].sent|
    ensures trace[n].written == |trace[0].initial| ==>
      forall k :: k in trace[0].initial ==> k in trace[n].sent[..trace[n].written]
  {
    OneCheckerKeeps(trace, steps, n);
    FreshMeansComplete(trace, steps, n);
  }

  /** In every run, before endgame, a piece is held by at most one worker and the pending pieces are
      exactly the held ones; remaining and finished pieces always split the initial set. */
  lemma QueueStaysConsistent(trace: seq<State>, steps: seq<Step>, i: nat)
    requires Run(trace, steps) && i < |trace|
    ensures var s := trace[i];
      && s.q.pieces.Keys == trace[0].initial - s.q.done && s.q.done <= trace[0].initial
      && (!s.q.endgame ==> HeldOnce(s))
  {
    RunKeeps(trace, steps, i);
  }

  /** In every run the count of a remaining piece is the number of connected peers that had it when they
      joined, plus the calls of PeerHave for it, less the times it was taken back without having been
      added. */
  lemma AvailabilityCounts(trace: seq<State>, steps: seq<Step>, i: nat, k: nat)
    requires Run(trace, steps) && i < |trace| && k in trace[i].q.pieces
    ensures Avail(trace[i].q, k) == |Holders(trace[i].peers, k)| + trace[i].haves[k] - trace[i].excess[k]
  {
    RunKeeps(trace, steps, i);
  }

  /** Endgame is entered only by a Pick that finds few pieces left. */
  lemma EndgameStartsLate(s: State, step: Step, s': State)
    requires Next(s, step, s') && !s.q.endgame && s'.q.endgame
    ensures step.Pick? && 0 < |s.q.pieces|
    ensures |s.q.pieces| <= 5 || |s.q.pieces| <= s.q.totalPieces / 100
  {
  }

  lemma StepIsMonotone(s: State, step: Step, s': State)
    requires Next(s, step, s')
    ensures s.q.endgame ==> s'.q.endgame
    ensures s.q.done <= s'.q.done
  {
  }

  /** In every run endgame never ends and finished pieces stay finished. */
  lemma {:induction false} RunIsMonotone(trace: seq<State>, steps: seq<Step>, i: nat, j: nat)
    requires Run(trace, steps) && i <= j < |trace|
    ensures trace[i].q.endgame ==> trace[j].q.endgame
    ensures trace[i].q.done <= trace[j].q.done
    decreases j - i
  {
    if i < j {
      RunIsMonotone(trace, steps, i, j - 1);
      assert StepAt(trace, steps, j - 1);
      StepIsMonotone(trace[j - 1], steps[j - 1], trace[j]);
    }
  }

  /** In every run a finished piece is never handed out again. */
  lemma FinishedStaysFinished(trace: seq<State>, steps: seq<Step>, i: nat, j: nat, k: nat)
    requires Run(trace, steps) && i <= j < |steps| && k in trace[i].q.done
    requires steps[j].Pick? && steps[j].r.Some?
    ensures steps[j].r.value.index != k
    ensures trace[i].q.endgame ==> trace[j].q.endgame
  {
    RunIsMonotone(trace, steps, i, j);
    RunKeeps(trace, steps, j);
    assert StepAt(trace, steps, j);
    var s := trace[j];
    assert Eligible(EnterEndgame(s.q), steps[j].has, steps[j].r.value.index);
  }

  // ------------------------------------------------------------ the split check

  /** A peer that has every piece. */
  predicate Seed(i: nat) {
    true
  }

  const PIECE_0: PieceWork := PieceWork(0, [], 16384)
  const PIECE_1: PieceWork := PieceWork(1, [], 16384)

  function TwoPieces(pending: set<nat>, done: set<nat>, endgame: bool): Queue {
    Queue((if 0 in done then map[] else map[0 := PIECE_0]) + map[1 := PIECE_1],
          map[], pending, done, endgame, 2, None, {}, true)
  }

  function At(q: Queue, v: Worker, w: Worker, sent: seq<nat>, written: nat): State {
    State({0, 1}, q, map[0 := v, 1 := w], sent, written, map[], multiset{}, multiset{})
  }

  /** Two of two pieces are left, so endgame begins and piece 0 is the sequential choice for both. */
  lemma PicksZero(q: Queue, q': Queue)
    requires q == TwoPieces({}, {}, false) || q == TwoPieces({0}, {}, true)
    requires q' == TwoPieces({0}, {}, true)
    ensures Picks(q, Seed, q', Some(PIECE_0))
  {
    var e := EnterEndgame(q);
    assert e.endgame by {
      assert q.pieces == map[0 := PIECE_0, 1 := PIECE_1];
    }
    assert Eligible(e, Seed, 0);
    assert Preferred(e, Seed, 0);
    assert e.pending + {0} == {0};
  }

  lemma BothPickZero()
    ensures var q0, q1 := TwoPieces({}, {}, false), TwoPieces({0}, {}, true);
      && Next(At(q0, Idle, Idle, [], 0), Pick(0, Seed, Some(PIECE_0)), At(q1, Working(0), Idle, [], 0))
      && Next(At(q1, Working(0), Idle, [], 0), Pick(1, Seed, Some(PIECE_0)), At(q1, Working(0), Working(0), [], 0))
  {
    hide Picks, TwoPieces;
    var q0, q1 := TwoPieces({}, {}, false), TwoPieces({0}, {}, true);
    PicksZero(q0, q1);
    PicksZero(q1, q1);
  }

  lemma BothCheckZero()
    ensures var q1 := TwoPieces({0}, {}, true);
      && Next(At(q1, Working(0), Working(0), [], 0), Check(0), At(q1, Checked(0), Working(0), [], 0))
      && Next(At(q1, Checked(0), Working(0), [], 0), Check(1), At(q1, Checked(0), Checked(0), [], 0))
  {
  }

  lemma SplitSecondHalf()
    ensures var q1, q2 := TwoPieces({0}, {}, true), TwoPieces({}, {0}, true);
      && Next(At(q1, Checked(0), Checked(0), [], 0), Commit(0, true), At(q2, Idle, Checked(0), [0], 0))
      && Next(At(q2, Idle, Checked(0), [0], 0), Commit(1, true), At(q2, Idle, Idle, [0, 0], 0))
      && Next(At(q2, Idle, Idle, [0, 0], 0), Collect, At(q2, Idle, Idle, [0, 0], 1))
      && Next(At(q2, Idle, Idle, [0, 0], 1), Collect, At(q2, Idle, Idle, [0, 0], 2))
  {
    var q1, q2 := TwoPieces({0}, {}, true), TwoPieces({}, {0}, true);
    assert Completed(q1, 0) == q2;
    assert Completed(q2, 0) == q2;
  }

  /** A run that ends in `s`, made one step longer. */
  lemma Extend(trace: seq<State>, steps: seq<Step>, s: State, step: Step, s': State)
    returns (trace': seq<State>, steps': seq<Step>)
    requires Run(trace, steps) && NeverAtomic(steps) && trace[|trace| - 1] == s
    requires Next(s, step, s') && !step.Finish?
    ensures Run(trace', steps') && NeverAtomic(steps')
    ensures trace'[0] == trace[0] && trace'[|trace'| - 1] == s'
  {
    trace', steps' := trace + [s'], steps + [step];
    forall i | 0 <= i < |steps'| ensures StepAt(trace', steps', i) {
      if i < |steps| {
        assert StepAt(trace, steps, i);
      }
    }
  }

  lemma BothPassTheCheck() returns (trace: seq<State>, steps: seq<Step>)
    ensures Run(trace, steps) && NeverAtomic(steps) && trace[0].initial == {0, 1}
    ensures trace[|trace| - 1] == At(TwoPieces({0}, {}, true), Checked(0), Checked(0), [], 0)
  {
    var q0, q1 := TwoPieces({}, {}, false), TwoPieces({0}, {}, true);
    var s0, s1 := At(q0, Idle, Idle, [], 0), At(q1, Working(0), Idle, [], 0);
    var s2, s3 := At(q1, Working(0), Working(0), [], 0), At(q1, Checked(0), Working(0), [], 0);
    var s4 := At(q1, Checked(0), Checked(0), [], 0);
    trace, steps := [s0], [];
    assert Run(trace, steps);
    BothPickZero();
    BothCheckZero();
    hide Next, TwoPieces, Init, Run, At;
    trace, steps := Extend(trace, steps, s0, Pick(0, Seed, Some(PIECE_0)), s1);
    trace, steps := Extend(trace, steps, s1, Pick(1, Seed, Some(PIECE_0)), s2);
    trace, steps := Extend(trace, steps, s2, Check(0), s3);
    trace, steps := Extend(trace, steps, s3, Check(1), s4);
  }

  /** With the check and the marking as two steps, the guarantee is lost: two workers pass the check
      for piece 0, both send it, and the collecting loop counts two results although piece 1 was never
      downloaded. */
  lemma SplitCheckMiscounts() returns (trace: seq<State>, steps: seq<Step>)
    ensures Run(trace, steps) && NeverAtomic(steps)
    ensures var s := trace[|trace| - 1]; s.written == |trace[0].initial| && 1 in trace[0].initial && 1 !in s.sent
  {
    var q1, q2 := TwoPieces({0}, {}, true), TwoPieces({}, {0}, true);
    var s4, s5 := At(q1, Checked(0), Checked(0), [], 0), At(q2, Idle, Checked(0), [0], 0);
    var s6, s7, s8 := At(q2, Idle, Idle, [0, 0], 0), At(q2, Idle, Idle, [0, 0], 1), At(q2, Idle, Idle, [0, 0], 2);
    trace, steps := BothPassTheCheck();
    SplitSecondHalf();
    hide Next, TwoPieces, Init, Run;
    trace, steps := Extend(trace, steps, s4, Commit(0, true), s5);
    trace, steps := Extend(trace, steps, s5, Commit(1, true), s6);
    trace, steps := Extend(trace, steps, s6, Collect, s7);
    trace, steps := Extend(trace, steps, s7, Collect, s8);
  }
}
