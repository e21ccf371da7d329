/** How far the hypotheses of the run theorems reach: each is exact for its step, and a run that leaves
    them behind delivers the wrong bytes or loses a packet. */
module UtpLimits {
  import opened Bytes
  import opened SeqNumbers
  import opened UtpSpec
  import opened UtpRun

  datatype Verdict = Current | Early | Old

  /** What the receiver takes a packet for. */
  function Classify(seqNr: Seq16, nextExpected: Seq16): Verdict {
    if seqNr == nextExpected then Current
    else if WrappingGT(seqNr, nextExpected) then Early
    else Old
  }

  /** A packet is never mistaken for one that is due (or due soon) exactly when its distance is safe. */
  lemma SafeIsExact(first: Seq16, next: int, t: int)
    ensures Safe(t - next) <==>
      match Classify(Wire(first, t), Wire(first, next))
      case Current => t == next
      case Early => next < t < next + HALF
      case Old => true
  {
    WireOrder(first, t, next);
  }

  lemma ChunksDiffer(p: bytes, q: bytes, sent: seq<bytes>, out: seq<bytes>)
    requires sent + Chunk(p) + out == sent + Chunk(q) + out
    ensures p == q
  {
    assert |Chunk(p)| == |Chunk(q)|;
    assert (sent + Chunk(p) + out)[|sent|..|sent| + |Chunk(p)|] == Chunk(p);
    assert (sent + Chunk(q) + out)[|sent|..|sent| + |Chunk(q)|] == Chunk(q);
  }

  /** What the receiver is left with when it takes packet t for the one it waits for. */
  lemma TakenForNextState(s: Sys, t: nat)
    requires t < |s.log| && s.rcv.inited && Wire(s.first, t) == s.rcv.nextExpected == Wire(s.first, s.next)
    ensures var d := Drain(Wire(s.first, s.next + 1), s.rcv.reorderBuf);
      var s' := Deliver1(s, t);
      && s'.next == s.next + Ahead(d.next, s.rcv.nextExpected)
      && s'.log == s.log && s'.data == s.data
      && s'.rcv.recvCh == s.rcv.recvCh + Chunk(s.log[t].payload) + d.out
  {
    hide Wrap, Drain;
    WireStep(s.first, s.next);
  }

  /** At the end of the log there is nothing that a packet could be taken for. */
  lemma NothingIsNext(s: Sys, t: nat)
    requires RecvInv(s) && t < |s.log| && Wire(s.first, t) == s.rcv.nextExpected && s.next == |s.log|
    ensures Deliver1(s, t).next == |s.log| + 1
  {
    NothingBuffered(s);
    TakenForNextState(s, t);
    DrainUnfold(Wire(s.first, s.next + 1), s.rcv.reorderBuf);
    hide Wrap, Drain, Deliver1, BufOk, Sent, Deliver;
    StepsAhead(s.first, s.next, s.next + 1);
  }

  /** The packets behind the one waited for are drained after it, whatever it was. */
  lemma NextIsTaken(s: Sys, t: nat) returns (n: nat, out: seq<bytes>)
    requires RecvInv(s) && t < |s.log| && Wire(s.first, t) == s.rcv.nextExpected && s.next < |s.log|
    ensures s.next < n <= |s.log| && Deliver1(s, t).next == n
    ensures Deliver1(s, t).rcv.recvCh == Sent(s.log, s.next) + Chunk(s.log[t].payload) + out
    ensures Sent(s.log, n) == Sent(s.log, s.next) + Chunk(s.log[s.next].payload) + out
  {
    hide Wrap, Drain, Deliver1, BufOk, DrainCount, Sent, Deliver, Chunk;
    var buf := s.rcv.reorderBuf;
    TakenForNextState(s, t);
    BufBehind(s);
    DrainCounts(s, s.next + 1, buf);
    DrainFollows(s, s.next + 1, buf);
    n := s.next + 1 + DrainCount(Wire(s.first, s.next + 1), buf);
    out := Drain(Wire(s.first, s.next + 1), buf).out;
    StepsAhead(s.first, s.next, n);
    PayloadsExtend(s.log, s.next);
  }

  /** A receiver in step has accepted only packets on the wire, and handed on their payloads. */
  lemma InStep(s: Sys)
    requires RecvInv(s)
    ensures s.next <= |s.log| && s.rcv.recvCh == Sent(s.log, s.next)
    ensures forall t :: 0 <= t < s.next ==> t in s.data
  {
  }

  lemma SameLog(s: Sys, t: nat)
    requires t < |s.log|
    ensures Deliver1(s, t).log == s.log && Deliver1(s, t).data == s.data && Deliver1(s, t).first == s.first
  {
  }

  /** A packet taken for the one waited for keeps the receiver in step only if it is that one, or says the
      same. */
  lemma TakenForNextNeeds(s: Sys, t: nat)
    requires RecvInv(s) && t < |s.log| && Wire(s.first, t) == s.rcv.nextExpected && RecvInv(Deliver1(s, t))
    ensures s.next in s.data && s.next < |s.log| && s.log[s.next].payload == s.log[t].payload
  {
    hide RecvInv, Deliver1, Sent, Wrap, Chunk;
    var s' := Deliver1(s, t);
    InStep(s);
    InStep(s');
    SameLog(s, t);
    assert s.next < |s.log| by {
      if s.next == |s.log| {
        NothingIsNext(s, t);
      }
    }
    var n, out := NextIsTaken(s, t);
    ChunksDiffer(s.log[t].payload, s.log[s.next].payload, Sent(s.log, s.next), out);
  }

  lemma NothingBuffered(s: Sys)
    requires s.next == |s.log| && BufOk(s, s.next, s.rcv.reorderBuf, 1)
    ensures s.rcv.reorderBuf == map[]
  {
    hide Wrap;
  }

  /** A packet buffered for later keeps the receiver in step only if its place is that of a packet on the
      wire that says the same. */
  lemma TakenForLaterNeeds(s: Sys, t: nat)
    requires RecvInv(s) && t < |s.log| && RecvInv(Deliver1(s, t))
    requires 0 < Wrap(t - s.next) < HALF && |s.rcv.reorderBuf| < REORDER_BUF_MAX
    ensures var u := TakenFor(s, t); u in s.data && u < |s.log| && s.log[u].payload == s.log[t].payload
  {
    WireOrder(s.first, t, s.next);
    AheadOfWire(s.first, t, s.next);
    AheadZero(s.rcv.nextExpected, s.rcv.nextExpected);
    hide Wrap, Sent;
    var s' := Deliver1(s, t);
    assert s'.next == s.next && Wire(s.first, t) in s'.rcv.reorderBuf;
  }

  /** The hypothesis on arrivals is exact for one step: a packet on the wire keeps the receiver in step with
      the sender exactly when it is safe. */
  lemma DataIsSafeIff(s: Sys, t: nat)
    requires RecvInv(s) && DataInv(s) && t in s.data && t < |s.log|
    ensures RecvInv(Deliver1(s, t)) <==> DataIsSafe(s, t)
  {
    hide Deliver1, RecvInv;
    if DataIsSafe(s, t) {
      SafeDataKeeps(s, t);
    }
    if RecvInv(Deliver1(s, t)) {
      InStepNeeds(s, t);
    }
  }

  lemma NumberOfNext(s: Sys, t: nat)
    requires RecvInv(s) && Wrap(t - s.next) == 0
    ensures Wire(s.first, t) == s.rcv.nextExpected
  {
    hide BufOk, Sent;
    WireOrder(s.first, t, s.next);
  }

  lemma InStepNeeds(s: Sys, t: nat)
    requires RecvInv(s) && t < |s.log| && RecvInv(Deliver1(s, t))
    ensures DataIsSafe(s, t)
  {
    hide Wrap, Wire, Deliver1, RecvInv;
    var d := Wrap(t - s.next);
    if d == 0 {
      NumberOfNext(s, t);
      TakenForNextNeeds(s, t);
      assert TakenFor(s, t) == s.next;
    } else if d < HALF && |s.rcv.reorderBuf| < REORDER_BUF_MAX {
      TakenForLaterNeeds(s, t);
    }
    assert DataIsSafe(s, t);
  }

  /** Every held packet beyond a is, modulo 2^16, 1 to 2^15 - 1 beyond it. */
  ghost predicate AckInWindow(s: Sys, a: int) {
    forall t :: Held(s, t) && t > a ==> 0 < Wrap(t - a) < HALF
  }

  /** An ACK for index a leaves every held packet beyond a alone exactly when all of them are inside the
      window of the comparison. */
  lemma AckWindowIsExact(s: Sys, a: int)
    ensures (forall t :: Held(s, t) && t > a ==> Held(Apply(s, DeliverAck(a)), t)) <==> AckInWindow(s, a)
  {
    var s' := Apply(s, DeliverAck(a));
    forall t | Held(s, t) && t > a
      ensures Held(s', t) <==> 0 < Wrap(t - a) < HALF
    {
      WireOrder(s.first, t, a);
    }
  }

  /** A connection that was not told where the peer starts takes the first packet it sees as the
      beginning: from then on it is the receiver of the stream that starts there. */
  lemma UninitialisedStartsAnywhere(s: Sys, t: nat)
    requires !s.rcv.inited && s.rcv.reorderBuf == map[] && s.rcv.recvCh == []
    requires DataInv(s) && t in s.data
    ensures var rcv := Deliver(s.rcv, Wire(s.first, t), s.log[t].payload);
      RecvInv(Sys(Wire(s.first, t), s.log[t..], s.snd, rcv, 1,
                  set u | u in s.data && u >= t :: u - t, {}, {}))
  {
    var first := Wire(s.first, t);
    WireStep(first, 0);
    DrainUnfold(Wire(first, 1), map[]);
    PayloadsExtend(s.log[t..], 0);
    assert Sent(s.log[t..], 0) == [];
    hide Wrap, Drain, Sent;
    FirstPacket(s.rcv, first, s.log[t].payload);
  }

  /** The first packet a fresh receiver sees. */
  lemma FirstPacket(r: Recv, first: Seq16, payload: bytes)
    requires !r.inited && r.reorderBuf == map[] && r.recvCh == []
    ensures Deliver(r, first, payload) ==
      Recv(true, Wire(first, 1), Wrap(Wire(first, 1) - 1), map[], Chunk(payload))
  {
    WireZero(first);
    WireStep(first, 0);
    hide Wrap, Drain;
    DrainUnfold(Wire(first, 1), map[]);
  }

  lemma WireZero(first: Seq16)
    ensures Wire(first, 0) == first
  {
  }

  // ------------------------------------------------------------ once around the circle

  /** The receiver has gone once around the circle of sequence numbers, and the chunk it waits for is
      not the one that used its number before. */
  ghost predicate OnceAround(s: Sys) {
    && Inv(s) && s.next == MOD && |s.log| > MOD && 0 in s.data
    && s.log[MOD].sent && |s.log[MOD].payload| == |s.log[0].payload| && s.log[MOD].payload != s.log[0].payload
  }

  lemma WrittenNext(log: seq<Segment>, n: nat)
    requires n < |log| && log[n].sent
    ensures Written(log[..n]) + log[n].payload <= Written(log)
  {
    WrittenPrefix(log, n + 1);
    assert log[..n + 1][..n] == log[..n];
  }

  lemma DifferentContinuation(a: bytes, p: bytes, q: bytes, delivered: bytes, written: bytes)
    requires |p| == |q| && p != q && a + p <= delivered && a + q <= written
    ensures !(delivered <= written)
  {
    assert (a + p)[|a|..] == p && (a + q)[|a|..] == q;
    assert delivered <= written ==> a + p == a + q;
  }

  /** Then a late copy of packet 0 is handed on in the place of packet 65536, and what was delivered is no
      longer a prefix of what was written. */
  lemma LateDuplicateBreaksPrefix(s: Sys)
    requires OnceAround(s)
    ensures !DataIsSafe(s, 0)
    ensures Concat(s.rcv.recvCh) <= Written(s.log)
    ensures !(Concat(Deliver1(s, 0).rcv.recvCh) <= Written(s.log))
  {
    hide Wrap, Written, Deliver, Deliver1, Concat, Sent;
    var p, q := s.log[0].payload, s.log[MOD].payload;
    var out := LateDuplicateIsAccepted(s);
    AcceptedIsWritten(s.log, MOD);
    WrittenPrefix(s.log, MOD);
    ConcatAppend(s.rcv.recvCh + [p], out);
    ConcatAppend(s.rcv.recvCh, [p]);
    ConcatOne(p);
    WrittenNext(s.log, MOD);
    DifferentContinuation(Written(s.log[..MOD]), p, q, Concat(s.rcv.recvCh + [p] + out), Written(s.log));
  }

  lemma ConcatOne(p: bytes)
    ensures Concat([p]) == p
  {
  }

  /** The late copy is taken for the packet waited for. */
  lemma LateDuplicateIsAccepted(s: Sys) returns (out: seq<bytes>)
    requires OnceAround(s)
    ensures !DataIsSafe(s, 0)
    ensures Deliver1(s, 0).rcv.recvCh == s.rcv.recvCh + [s.log[0].payload] + out
  {
    CircleCloses(s.first);
    hide Wrap, Drain, BufOk, Sent, Deliver1;
    TakenForNext(s, 0);
    out := Drain(Wrap(s.rcv.nextExpected + 1), s.rcv.reorderBuf).out;
  }

  lemma CircleCloses(first: Seq16)
    ensures Wire(first, 0) == Wire(first, MOD) && Wrap(0 - MOD) == 0 && !Safe(0 - MOD)
  {
    assert Wrap(0 - MOD) == 0;
    WireOrder(first, 0, MOD);
  }

  lemma TakenForNext(s: Sys, t: nat)
    requires t < |s.log| && s.rcv.inited && s.rcv.nextExpected == Wire(s.first, t)
    ensures Deliver1(s, t).rcv.recvCh ==
      s.rcv.recvCh + Chunk(s.log[t].payload) + Drain(Wrap(s.rcv.nextExpected + 1), s.rcv.reorderBuf).out
  {
    hide Wrap, Drain;
  }

  // ------------------------------------------------------------ such a state is reached

  /** Everything written has been delivered and acknowledged. */
  ghost predicate Quiet(s: Sys) {
    && Inv(s) && s.next == |s.log| && s.snd.sendBuf == map[] && s.rcv.reorderBuf == map[]
    && forall t :: 0 <= t < |s.log| ==> s.log[t].sent && t in s.data
  }

  /** A run made one step longer. */
  lemma Extend(trace: seq<Sys>, steps: seq<Step>, step: Step) returns (trace': seq<Sys>, steps': seq<Step>)
    requires Run(trace, steps) && Enabled(trace[|steps|], step)
    ensures Run(trace', steps') && |trace'| == |steps'| + 1
    ensures trace'[0] == trace[0] && trace'[|steps'|] == Apply(trace[|steps|], step)
  {
    trace', steps' := trace + [Apply(trace[|steps|], step)], steps + [step];
    forall i | 0 <= i < |steps'| ensures StepAt(trace', steps', i) {
      if i < |steps| {
        assert StepAt(trace, steps, i);
      }
    }
  }

  ghost predicate JustWritten(s: Sys, s1: Sys, payload: bytes) {
    && Inv(s1) && s1.log == s.log + [Segment(payload, true)]
    && s1.next == s.next && s1.data == s.data + {|s.log|} && s1.first == s.first && s1.rcv == s.rcv
    && s1.acks == s.acks && s1.abandoned == s.abandoned
    && s1.snd.sendBuf.Keys == {Wire(s.first, |s.log|)}
  }

  lemma QuietWrite(s: Sys, payload: bytes)
    requires Quiet(s)
    ensures Enabled(s, WriteChunk(payload, 0, true))
    ensures JustWritten(s, Apply(s, WriteChunk(payload, 0, true)), payload)
  {
    assert Enabled(s, WriteChunk(payload, 0, true));
    WriteKeeps(s, payload, 0, true);
    WireStep(s.first, |s.log| - 1);
  }

  ghost predicate JustDelivered(s: Sys, s2: Sys, payload: bytes) {
    && Inv(s2) && s2.log == s.log + [Segment(payload, true)]
    && s2.next == |s2.log| && s2.data == s.data + {|s.log|} && s2.first == s.first && s2.rcv.reorderBuf == map[]
    && s2.snd.sendBuf.Keys == {Wire(s.first, |s.log|)}
    && s.acks <= s2.acks && s2.abandoned == s.abandoned
  }

  lemma QuietDeliver(s: Sys, s1: Sys, payload: bytes)
    requires Quiet(s) && JustWritten(s, s1, payload)
    ensures Enabled(s1, DeliverData(s.next))
    ensures JustDelivered(s, Apply(s1, DeliverData(s.next)), payload)
  {
    assert Safe(0);
    hide Wrap, Deliver1, Deliver;
    assert Enabled(s1, DeliverData(s1.next));
    DataKeeps(s1, s1.next);
    DeliverToEmpty(s1);
    hide Inv;
  }

  lemma DeliverToEmpty(s: Sys)
    requires s.rcv.inited && s.rcv.nextExpected == Wire(s.first, s.next) && s.next < |s.log|
    requires s.rcv.reorderBuf == map[]
    ensures var s' := Deliver1(s, s.next);
      s' == s.(rcv := s'.rcv, next := s.next + 1) && s'.rcv.reorderBuf == map[]
  {
    hide Wrap, Deliver, Drain;
    DeliverNext(s);
    DrainUnfold(Wire(s.first, s.next + 1), map[]);
    AheadOfWire(s.first, s.next + 1, s.next);
    WrapSmall(1);
  }

  lemma QuietSendAck(s: Sys, s2: Sys, payload: bytes)
    requires JustDelivered(s, s2, payload)
    ensures Enabled(s2, SendAck)
    ensures JustDelivered(s, Apply(s2, SendAck), payload) && |s.log| in Apply(s2, SendAck).acks
  {
    StepKeeps(s2, SendAck);
    hide Inv;
  }

  lemma QuietAck(s: Sys, s3: Sys, payload: bytes)
    requires Quiet(s) && JustDelivered(s, s3, payload) && |s.log| in s3.acks
    ensures Enabled(s3, DeliverAck(|s.log|))
    ensures var s4 := Apply(s3, DeliverAck(|s.log|));
      Quiet(s4) && s4.log == s3.log && s4.acks == s3.acks && s4.abandoned == s3.abandoned && s4.first == s3.first
  {
    assert AckIsSafe(s3, |s.log|);
    AckKeeps(s3, |s.log|);
    WireOrder(s.first, |s.log|, |s.log|);
    hide Inv;
    var s4 := Apply(s3, DeliverAck(|s.log|));
    assert s4.snd.sendBuf.Keys == {};
  }

  /** The same stream later on, with nothing given up since. */
  ghost predicate Extends(s: Sys, s': Sys) {
    s'.first == s.first && s.log <= s'.log && s.acks <= s'.acks && s'.abandoned == s.abandoned
  }

  /** One chunk is written, delivered and acknowledged. */
  lemma OneChunk(trace: seq<Sys>, steps: seq<Step>, payload: bytes) returns (trace': seq<Sys>, steps': seq<Step>)
    requires Run(trace, steps) && Quiet(trace[|steps|])
    ensures Run(trace', steps') && Quiet(trace'[|steps'|]) && trace'[0] == trace[0]
    ensures Extends(trace[|steps|], trace'[|steps'|])
    ensures trace'[|steps'|].log == trace[|steps|].log + [Segment(payload, true)]
  {
    var s := trace[|steps|];
    hide Enabled, Apply, Run, Inv, Quiet;
    QuietWrite(s, payload);
    trace', steps' := Extend(trace, steps, WriteChunk(payload, 0, true));
    QuietDeliver(s, trace'[|steps'|], payload);
    trace', steps' := Extend(trace', steps', DeliverData(s.next));
    QuietSendAck(s, trace'[|steps'|], payload);
    trace', steps' := Extend(trace', steps', SendAck);
    QuietAck(s, trace'[|steps'|], payload);
    trace', steps' := Extend(trace', steps', DeliverAck(|s.log|));
  }

  lemma {:induction false} ManyChunks(trace: seq<Sys>, steps: seq<Step>, payload: bytes, n: nat)
    returns (trace': seq<Sys>, steps': seq<Step>)
    requires Run(trace, steps) && Quiet(trace[|steps|])
    ensures Run(trace', steps') && |trace'| == |steps'| + 1
    ensures Quiet(trace'[|steps'|]) && trace'[0] == trace[0]
    ensures Extends(trace[|steps|], trace'[|steps'|])
    ensures var log, log' := trace[|steps|].log, trace'[|steps'|].log;
      |log'| == |log| + n && forall t :: |log| <= t < |log'| ==> log'[t].payload == payload
  {
    trace', steps' := trace, steps;
    if n > 0 {
      trace', steps' := ManyChunks(trace, steps, payload, n - 1);
      hide Run, Quiet;
      trace', steps' := OneChunk(trace', steps', payload);
    }
  }

  /** A run of 2^16 + 1 writes, all but the last delivered and acknowledged, leads to such a state. */
  lemma OnceAroundIsReached(start: Sys, p: bytes, q: bytes) returns (trace: seq<Sys>, steps: seq<Step>)
    requires Init(start) && |p| == |q| && p != q
    ensures Run(trace, steps) && OnceAround(trace[|steps|])
  {
    InitHolds(start);
    trace, steps := ManyChunks([start], [], p, MOD);
    QuietWrite(trace[|steps|], q);
    hide Run, Inv, Enabled, Apply;
    trace, steps := Extend(trace, steps, WriteChunk(q, 0, true));
  }

  // ------------------------------------------------------------ a very late acknowledgement

  /** An ACK from half a circle back is on the wire, and the only held packet has not been accepted. */
  ghost predicate HalfBehind(s: Sys, t: nat) {
    && Inv(s) && t == HALF - 1 && |s.log| == HALF && s.next == t && s.log[t].sent
    && -1 in s.acks && s.abandoned == {} && Held(s, t)
  }

  /** That ACK takes the packet out: it is then not accepted, not given up and not held. */
  lemma LateAckLosesPacket(s: Sys, t: nat)
    requires HalfBehind(s, t)
    ensures !AckIsSafe(s, -1)
    ensures var s' := Apply(s, DeliverAck(-1));
      s'.log[t].sent && !(t < s'.next) && t !in s'.abandoned && Wire(s'.first, t) !in s'.snd.sendBuf
  {
    WireOrder(s.first, t, -1);
    WrapSmall(HALF);
  }

  /** An ACK sent at the start, 2^15 - 1 chunks delivered and acknowledged and one more written lead to
      such a state. */
  lemma HalfBehindIsReached(start: Sys, p: bytes) returns (trace: seq<Sys>, steps: seq<Step>)
    requires Init(start)
    ensures Run(trace, steps) && HalfBehind(trace[|steps|], HALF - 1)
  {
    trace, steps := EarlyAck(start);
    hide Run, Inv, Enabled, Apply, Quiet;
    trace, steps := ManyChunks(trace, steps, p, HALF - 1);
    var s := trace[|steps|];
    QuietWrite(s, p);
    trace, steps := Extend(trace, steps, WriteChunk(p, 0, true));
    LastIsHeld(s, trace[|steps|], p);
  }

  lemma EarlyAck(start: Sys) returns (trace: seq<Sys>, steps: seq<Step>)
    requires Init(start)
    ensures Run(trace, steps) && |trace| == |steps| + 1 && Quiet(trace[|steps|])
    ensures var s := trace[|steps|]; s.log == [] && -1 in s.acks && s.abandoned == {}
  {
    InitHolds(start);
    StepKeeps(start, SendAck);
    trace, steps := Extend([start], [], SendAck);
  }

  lemma LastIsHeld(s: Sys, s1: Sys, p: bytes)
    requires Quiet(s) && JustWritten(s, s1, p) && |s.log| == HALF - 1 && -1 in s.acks && s.abandoned == {}
    ensures HalfBehind(s1, HALF - 1)
  {
    hide Inv, Wrap;
  }

  // ------------------------------------------------------------ a full retransmit buffer

  /** As many packets as there are sequence numbers are held, none of them accepted. */
  ghost predicate BufferIsFull(s: Sys) {
    && Inv(s) && |s.log| == MOD && s.next == 0 && s.abandoned == {}
    && forall t :: 0 <= t < |s.log| ==> s.log[t].sent
  }

  /** One more write drives packet 0 out: it is then not accepted, not given up and not held. */
  lemma FullBufferLosesPacket(s: Sys, payload: bytes)
    requires BufferIsFull(s)
    ensures !WriteIsSafe(s)
    ensures var s' := Apply(s, WriteChunk(payload, 0, true));
      && s'.log[0] == s.log[0] && s'.log[0].sent && s'.next == 0 && 0 !in s'.abandoned
      && Wire(s'.first, 0) in s'.snd.sendBuf
      && s'.snd.sendBuf[Wire(s'.first, 0)].payload == payload
  {
    assert Held(s, 0);
    CircleCloses(s.first);
    hide Wrap, Inv;
    NewestNumber(s, payload);
  }

  lemma NewestNumber(s: Sys, payload: bytes)
    requires SendInv(s)
    ensures var s' := Apply(s, WriteChunk(payload, 0, true));
      && Wire(s.first, |s.log|) in s'.snd.sendBuf
      && s'.snd.sendBuf[Wire(s.first, |s.log|)].payload == payload
  {
    hide Wrap;
    WireStep(s.first, |s.log| - 1);
  }

  lemma {:induction false} ManyWrites(start: Sys, payload: bytes, n: nat) returns (trace: seq<Sys>, steps: seq<Step>)
    requires Init(start) && n <= MOD
    ensures Run(trace, steps) && |trace| == |steps| + 1
    ensures var s := trace[|steps|];
      && Inv(s) && |s.log| == n && s.next == 0 && s.abandoned == {}
      && forall t :: 0 <= t < |s.log| ==> s.log[t].sent
  {
    if n == 0 {
      trace, steps := [start], [];
      InitHolds(start);
    } else {
      trace, steps := ManyWrites(start, payload, n - 1);
      var s := trace[|steps|];
      assert WriteIsSafe(s) && Enabled(s, WriteChunk(payload, 0, true));
      WriteKeeps(s, payload, 0, true);
      hide Run, Inv, Enabled;
      trace, steps := Extend(trace, steps, WriteChunk(payload, 0, true));
    }
  }

  /** A run of 2^16 writes of which nothing is delivered leads to such a state. */
  lemma FullBufferIsReached(start: Sys, payload: bytes) returns (trace: seq<Sys>, steps: seq<Step>)
    requires Init(start)
    ensures Run(trace, steps) && BufferIsFull(trace[|steps|])
  {
    trace, steps := ManyWrites(start, payload, MOD);
  }
}
