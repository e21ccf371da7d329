/** Which piece a worker gets, in terms of what is finished, what other workers hold and what the peer
    has. */
module SwarmPicks {
  import opened Bytes
  import opened Bitfield
  import opened PieceQueueSpec
  import opened Swarm

  /** Piece k may go to this worker: it is unfinished, the peer has it, it is not masked, and before
      endgame no worker holds it. */
  ghost predicate Open(s: State, endgame: bool, has: nat -> bool, k: nat) {
    && k in s.initial && k !in s.q.done
    && has(k)
    && !(s.q.skipMask.Some? && HasPiece(s.q.skipMask.value, k))
    && (endgame || forall w :: w in s.workers && s.workers[w] != Idle ==> s.workers[w].index != k)
  }

  lemma OpenIsEligible(s: State, has: nat -> bool, k: nat)
    requires Partition(s) && (s.q.endgame || HeldOnce(s))
    ensures Eligible(EnterEndgame(s.q), has, k) <==> Open(s, EnterEndgame(s.q).endgame, has, k)
  {
    hide HasPiece;
    if k in s.q.pending && !s.q.endgame {
      var w :| Holding(s, w) && s.workers[w].index == k;
    }
    if w :| w in s.workers && s.workers[w] != Idle && s.workers[w].index == k && !s.q.endgame {
      assert Holding(s, w);
    }
  }

  lemma EndgameIff(s: State)
    requires Partition(s)
    ensures var left := |s.initial - s.q.done|;
      EnterEndgame(s.q).endgame <==> s.q.endgame || (left > 0 && (left <= 5 || left <= s.q.totalPieces / 100))
  {
    assert |s.q.pieces| == |s.q.pieces.Keys|;
  }

  /** What one pick hands out: the lowest open piece in sequential mode, else a priority piece if one is
      open, else one of least count; or nothing, if nothing is open. */
  ghost predicate HandsOut(s: State, late: bool, has: nat -> bool, r: Option<PieceWork>) {
    && (r.None? <==> forall k :: !Open(s, late, has, k))
    && (r.Some? ==>
          && Open(s, late, has, r.value.index)
          && if s.q.sequential then forall k :: Open(s, late, has, k) ==> r.value.index <= k
             else if exists k :: k in s.q.priority && Open(s, late, has, k) then r.value.index in s.q.priority
             else forall k :: Open(s, late, has, k) ==> Avail(s.q, r.value.index) <= Avail(s.q, k))
  }

  lemma PicksOpen(s: State, has: nat -> bool, q': Queue, r: Option<PieceWork>)
    requires Partition(s) && (s.q.endgame || HeldOnce(s)) && Picks(s.q, has, q', r)
    ensures HandsOut(s, q'.endgame, has, r)
  {
    var e := EnterEndgame(s.q);
    forall k ensures Eligible(e, has, k) <==> Open(s, e.endgame, has, k) {
      OpenIsEligible(s, has, k);
    }
    assert q'.endgame == e.endgame && e.sequential == s.q.sequential && e.priority == s.q.priority;
    assert forall k :: Avail(e, k) == Avail(s.q, k);
    hide Eligible, Open, HasPiece, EnterEndgame, Partition, HeldOnce, Avail;
    assert HandsOut(s, q'.endgame, has, r);
  }

  /** In every run a Pick enters endgame exactly when at most five pieces or one percent are left, and
      hands out a preferred piece among those open to this worker. */
  lemma PickHandsOut(trace: seq<State>, steps: seq<Step>, i: nat)
    requires Run(trace, steps) && i < |steps| && steps[i].Pick?
    ensures var s, late, r := trace[i], trace[i + 1].q.endgame, steps[i].r;
      var left := |s.initial - s.q.done|;
      && (late <==> s.q.endgame || (left > 0 && (left <= 5 || left <= s.q.totalPieces / 100)))
      && HandsOut(s, late, steps[i].has, r)
      && (r.Some? ==> trace[i + 1].workers == s.workers[steps[i].w := Working(r.value.index)])
  {
    var s := trace[i];
    RunKeeps(trace, steps, i);
    assert StepAt(trace, steps, i);
    EndgameIff(s);
    PicksOpen(s, steps[i].has, trace[i + 1].q, steps[i].r);
    hide HandsOut, Inv, EnterEndgame, Preferred;
    assert trace[i + 1].q.endgame == EnterEndgame(s.q).endgame;
  }

  /** In every run the priority pieces are the ones the queue started with, less the finished ones; the
      mode and the total stay as they were. */
  lemma {:induction false} PriorityRemains(trace: seq<State>, steps: seq<Step>, i: nat)
    requires Run(trace, steps) && i < |trace|
    ensures var q0, q := trace[0].q, trace[i].q;
      q.priority == q0.priority - q.done && q.sequential == q0.sequential && q.totalPieces == q0.totalPieces
  {
    if i > 0 {
      PriorityRemains(trace, steps, i - 1);
      RunKeeps(trace, steps, i - 1);
      assert StepAt(trace, steps, i - 1);
      StepPriority(trace[i - 1], steps[i - 1], trace[i]);
    }
  }

  lemma StepPriority(s: State, step: Step, s': State)
    requires Next(s, step, s') && Wellformed(s.q)
    ensures s.q.done <= s'.q.done && s'.q.priority == s.q.priority - (s'.q.done - s.q.done)
    ensures s'.q.sequential == s.q.sequential && s'.q.totalPieces == s.q.totalPieces
  {
    hide HasPiece, Preferred, Eligible;
    match step
    case Finish(w, _) => assert s'.q == s.q || s'.q == Completed(s.q, s.workers[w].index);
    case Commit(w, _) => assert s'.q == Completed(s.q, s.workers[w].index);
    case _ =>
  }
}
