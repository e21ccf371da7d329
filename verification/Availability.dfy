/** When the availability counts of the piece queue are right. A peer is counted with the bits it joins
    with, for everything if there are none, and uncounted with the bits of the moment when it leaves. */
module Availability {
  import opened Bytes
  import opened Bitfield
  import opened PieceQueueSpec
  import opened Swarm

  /** Step i is a peer that leaves and takes back piece k without having been counted for it. */
  ghost predicate TookBack(trace: seq<State>, steps: seq<Step>, i: nat, k: nat)
    requires i < |steps| < |trace|
  {
    steps[i].Leave? && steps[i].peer in trace[i].peers && IsLate(trace[i].peers[steps[i].peer], k)
  }

  ghost predicate NeverTookBack(trace: seq<State>, steps: seq<Step>, n: nat, k: nat)
    requires n <= |steps| < |trace|
  {
    forall i :: 0 <= i < n ==> !TookBack(trace, steps, i, k)
  }

  /** Pieces only leave the queue, and only a leaving peer adds to the excess. */
  lemma StepShrinks(s: State, step: Step, s': State, k: nat)
    requires Next(s, step, s') && k in s'.q.pieces
    ensures k in s.q.pieces
    ensures var took := step.Leave? && step.peer in s.peers && IsLate(s.peers[step.peer], k);
      s'.excess[k] == s.excess[k] + if took then 1 else 0
  {
    hide HasPiece;
  }

  lemma {:induction false} ExcessIff(trace: seq<State>, steps: seq<Step>, n: nat, k: nat)
    requires Run(trace, steps) && n < |trace| && k in trace[n].q.pieces
    ensures trace[n].excess[k] == 0 <==> NeverTookBack(trace, steps, n, k)
  {
    if n > 0 {
      assert StepAt(trace, steps, n - 1);
      hide Next;
      StepShrinks(trace[n - 1], steps[n - 1], trace[n], k);
      ExcessIff(trace, steps, n - 1, k);
      assert NeverTookBack(trace, steps, n, k) <==>
        NeverTookBack(trace, steps, n - 1, k) && !TookBack(trace, steps, n - 1, k);
    }
  }

  /** The count of a remaining piece is the number of connected peers that were counted for it, plus the
      calls of PeerHave, exactly as long as no leaving peer took back what it had not added. */
  lemma CountIsRightIff(trace: seq<State>, steps: seq<Step>, n: nat, k: nat)
    requires Run(trace, steps) && n < |trace| && k in trace[n].q.pieces
    ensures Avail(trace[n].q, k) == |Holders(trace[n].peers, k)| + trace[n].haves[k] <==>
      NeverTookBack(trace, steps, n, k)
  {
    AvailabilityCounts(trace, steps, n, k);
    ExcessIff(trace, steps, n, k);
  }

  /** A peer has a piece if it said so: a missing bitfield says nothing. */
  predicate Has(peer: Peer, k: nat) {
    peer.haveAll || (peer.now.Some? && HasPiece(peer.now.value, k))
  }

  predicate IsCounted(peer: Peer, k: nat) {
    Holds(peer.joined, k)
  }

  /** The connected peers that have a piece. */
  function Having(peers: map<nat, Peer>, k: nat): set<nat> {
    set p | p in peers && Has(peers[p], k)
  }

  /** The connected peers that were counted for a piece and do not have it. */
  function Over(peers: map<nat, Peer>, k: nat): set<nat> {
    set p | p in peers && IsCounted(peers[p], k) && !Has(peers[p], k)
  }

  /** The connected peers that have a piece and were not counted for it. */
  function Under(peers: map<nat, Peer>, k: nat): set<nat> {
    set p | p in peers && Has(peers[p], k) && !IsCounted(peers[p], k)
  }

  lemma HavingSplits(peers: map<nat, Peer>, k: nat)
    ensures |Having(peers, k)| + |Over(peers, k)| == |Holders(peers, k)| + |Under(peers, k)|
  {
    hide Holds, Has;
    var both := set p | p in peers && Has(peers[p], k) && IsCounted(peers[p], k);
    assert Having(peers, k) == both + Under(peers, k) && both !! Under(peers, k);
    assert Holders(peers, k) == both + Over(peers, k) && both !! Over(peers, k);
  }

  /** In every run the count of a remaining piece differs from the number of connected peers that have it,
      plus the calls of PeerHave, by the peers counted wrongly and the pieces taken back wrongly. It is
      right exactly when these cancel out. */
  lemma CountDiffersBy(trace: seq<State>, steps: seq<Step>, n: nat, k: nat)
    requires Run(trace, steps) && n < |trace| && k in trace[n].q.pieces
    ensures var s := trace[n];
      Avail(s.q, k) == |Having(s.peers, k)| + s.haves[k] + |Over(s.peers, k)| - |Under(s.peers, k)| - s.excess[k]
    ensures var s := trace[n];
      Avail(s.q, k) == |Having(s.peers, k)| + s.haves[k] <==>
      |Over(s.peers, k)| == |Under(s.peers, k)| + s.excess[k]
  {
    AvailabilityCounts(trace, steps, n, k);
    HavingSplits(trace[n].peers, k);
  }

  /** A peer is counted for more than it has exactly if it sent neither a bitfield nor HaveAll. */
  lemma OverIff(trace: seq<State>, steps: seq<Step>, n: nat, p: nat, k: nat)
    requires Run(trace, steps) && n < |trace| && p in trace[n].peers
    ensures p in Over(trace[n].peers, k) <==> trace[n].peers[p].joined.None? && !trace[n].peers[p].haveAll
  {
    RunKeeps(trace, steps, n);
    SameKind(trace, steps, n);
    var peer := trace[n].peers[p];
    assert Grown(peer);
    assert Holds(peer.joined, k) ==> Holds(peer.now, k);
  }

  ghost predicate Kinds(s: State) {
    forall p :: p in s.peers ==> (s.peers[p].now.None? <==> s.peers[p].joined.None?)
  }

  lemma {:induction false} SameKind(trace: seq<State>, steps: seq<Step>, n: nat)
    requires Run(trace, steps) && n < |trace|
    ensures Kinds(trace[n])
  {
    if n > 0 {
      SameKind(trace, steps, n - 1);
      assert StepAt(trace, steps, n - 1);
    }
  }

  /** No peer sends a Have message, and what each joins with is what it has. */
  ghost predicate Matched(steps: seq<Step>) {
    forall i :: 0 <= i < |steps| ==>
      && !steps[i].Have?
      && (steps[i].Join? ==> Agrees(Peer(steps[i].bf, steps[i].bf, steps[i].haveAll)))
  }

  ghost predicate Agrees(peer: Peer) {
    peer.now == peer.joined && forall k :: Has(peer, k) <==> IsCounted(peer, k)
  }

  ghost predicate PeersAgree(s: State) {
    forall p :: p in s.peers ==> Agrees(s.peers[p])
  }

  lemma {:induction false} MatchedPeersAgree(trace: seq<State>, steps: seq<Step>, n: nat)
    requires Run(trace, steps) && Matched(steps) && n < |trace|
    ensures PeersAgree(trace[n])
  {
    if n > 0 {
      MatchedPeersAgree(trace, steps, n - 1);
      assert StepAt(trace, steps, n - 1);
      hide Agrees;
    }
  }

  /** While the slice of every peer says what the peer has and does not change, the count is the number of
      connected peers that have the piece plus the calls of PeerHave. */
  lemma MatchedCountIsRight(trace: seq<State>, steps: seq<Step>, n: nat, k: nat)
    requires Run(trace, steps) && Matched(steps) && n < |trace| && k in trace[n].q.pieces
    ensures Avail(trace[n].q, k) == |Having(trace[n].peers, k)| + trace[n].haves[k]
  {
    forall i | 0 <= i < n ensures !TookBack(trace, steps, i, k) {
      MatchedPeersAgree(trace, steps, i);
    }
    ExcessIff(trace, steps, n, k);
    MatchedPeersAgree(trace, steps, n);
    forall p | p in trace[n].peers ensures Has(trace[n].peers[p], k) <==> IsCounted(trace[n].peers[p], k) {
      assert Agrees(trace[n].peers[p]);
    }
    assert Over(trace[n].peers, k) == {} && Under(trace[n].peers, k) == {};
    CountDiffersBy(trace, steps, n, k);
  }

  /** One peer joins. */
  function Joined(s: State, p: nat, bf: Option<Bits>, haveAll: bool): State {
    s.(q := Shifted(s.q, bf, 1), peers := s.peers[p := Peer(bf, bf, haveAll)])
  }

  /** A peer that sends neither a bitfield nor HaveAll is counted for every piece and has none. */
  lemma UnknownPeerIsCounted(s: State, p: nat, k: nat) returns (trace: seq<State>, steps: seq<Step>)
    requires Init(s) && k in s.q.pieces
    ensures Run(trace, steps) && trace[0] == s && steps == [Join(p, None, false)]
    ensures k in trace[1].q.pieces && Having(trace[1].peers, k) == {} && Avail(trace[1].q, k) == 1
  {
    trace, steps := [s, Joined(s, p, None, false)], [Join(p, None, false)];
    assert StepAt(trace, steps, 0);
  }

  /** A peer that sends a bitfield without piece k and then HaveAll has it and is not counted for it. */
  lemma LateHaveAllIsNotCounted(s: State, p: nat, a: Bits, k: nat) returns (trace: seq<State>, steps: seq<Step>)
    requires Init(s) && k in s.q.pieces && !HasPiece(a, k)
    ensures Run(trace, steps) && trace[0] == s && steps == [Join(p, Some(a), true)]
    ensures k in trace[1].q.pieces && Having(trace[1].peers, k) == {p} && Avail(trace[1].q, k) == 0
  {
    hide HasPiece;
    trace, steps := [s, Joined(s, p, Some(a), true)], [Join(p, Some(a), true)];
    assert StepAt(trace, steps, 0);
  }

  /** A peer that joins without piece k, announces it and leaves makes the count of k negative. */
  lemma AnnounceThenLeave(s: State, p: nat, a: Bits, k: nat) returns (trace: seq<State>, steps: seq<Step>)
    requires Init(s) && k in s.q.pieces && k < 8 * |a| && !HasPiece(a, k)
    ensures Run(trace, steps) && trace[0] == s && steps == [Join(p, Some(a), false), Have(p, k), Leave(p)]
    ensures k in trace[3].q.pieces && trace[3].peers == map[] && Avail(trace[3].q, k) == -1
  {
    WithPieceAdds(a, k, k);
    hide HasPiece, WithPiece, Shifted;
    var b := WithPiece(a, k);
    steps := [Join(p, Some(a), false), Have(p, k), Leave(p)];
    var s1 := Joined(s, p, Some(a), false);
    var s2 := s1.(peers := map[p := Peer(Some(a), Some(b), false)]);
    var s3 := s2.(q := Shifted(s2.q, Some(b), -1), peers := map[], excess := s2.excess + multiset(Unadded(s2, p)));
    trace := [s, s1, s2, s3];
    assert Next(s, steps[0], s1);
    assert Next(s1, steps[1], s2);
    assert s2.peers - {p} == map[];
    assert Next(s2, steps[2], s3);
    assert forall i :: 0 <= i < 3 ==> StepAt(trace, steps, i);
    OnlyTakenBack(s.q, a, b, k);
  }

  lemma OnlyTakenBack(q: Queue, a: Bits, b: Bits, k: nat)
    requires k in q.pieces && !Holds(Some(a), k) && Holds(Some(b), k)
    ensures var r := Shifted(Shifted(q, Some(a), 1), Some(b), -1);
      r.pieces == q.pieces && Avail(r, k) == Avail(q, k) - 1
  {
    hide HasPiece;
  }
}
