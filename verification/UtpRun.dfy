/** A sender and a receiver joined by a network that loses, repeats and reorders packets.
    Unbounded indices name the packets; the code only ever sees their low sixteen bits. */
module UtpRun {
  import opened Bytes
  import opened SeqNumbers
  import opened UtpSpec

  /** `log[t]` is the chunk with index t, `next` the index the receiver waits for.
      `data` and `acks` hold everything ever put on the wire: delivery picks any of it, any
      number of times, in any order, or never. */
  datatype Sys = Sys(
    first: Seq16,
    log: seq<Segment>,
    snd: Send,
    rcv: Recv,
    next: nat,
    data: set<nat>,
    acks: set<int>,
    abandoned: set<nat>)

  datatype Step =
    | WriteChunk(payload: bytes, now: int, ok: bool)
    | DeliverData(t: nat)
    | SendAck
    | DeliverAck(a: int)
    | RetransmitTick(now: int, rto: int)

  function Payloads(log: seq<Segment>): (r: seq<bytes>)
    ensures |r| == |log| && forall i :: 0 <= i < |log| ==> r[i] == log[i].payload
  {
    seq(|log|, i requires 0 <= i < |log| => log[i].payload)
  }

  /** The distance from the receiver at which a packet is taken for what it is. */
  predicate Safe(d: int) {
    Wrap(d) >= HALF || 0 <= d < HALF
  }

  /** The index that the receiver takes packet t for, unless it takes it for an old one. */
  function TakenFor(s: Sys, t: int): nat {
    s.next + Wrap(t - s.next)
  }

  /** Packet t is at a safe distance, or finds the reorder buffer full, or carries the very payload of the
      packet it is taken for. */
  predicate DataIsSafe(s: Sys, t: nat)
    requires t < |s.log|
  {
    || Safe(t - s.next)
    || (Wrap(t - s.next) != 0 && |s.rcv.reorderBuf| >= REORDER_BUF_MAX)
    || (var u := TakenFor(s, t);
        u in s.data && u < |s.log| && s.log[u].payload == s.log[t].payload)
  }

  /** Index t is still in the retransmit buffer. */
  predicate Held(s: Sys, t: int) {
    && 0 <= t < |s.log|
    && |s.log| - t <= MOD
    && Wire(s.first, t) in s.snd.sendBuf
  }

  /** Every held packet that the receiver has not accepted is, modulo 2^16, 1 to 2^15 - 1 beyond a. */
  ghost predicate AckIsSafe(s: Sys, a: int) {
    forall t :: Held(s, t) && t >= s.next ==> 0 < Wrap(t - a) < HALF
  }

  /** The packet that used the next sequence number before is not still held for the receiver. */
  ghost predicate WriteIsSafe(s: Sys) {
    !(Held(s, |s.log| - MOD) && |s.log| - MOD >= s.next)
  }

  ghost predicate Enabled(s: Sys, step: Step) {
    match step
    case WriteChunk(_, _, _) =>
      WriteIsSafe(s)
    case DeliverData(t) => t in s.data && t < |s.log| && DataIsSafe(s, t)
    case SendAck => true
    case DeliverAck(a) =>
      a in s.acks && AckIsSafe(s, a)
    case RetransmitTick(_, _) => true
  }

  function Deliver1(s: Sys, t: nat): Sys
    requires t < |s.log|
  {
    var rcv := Deliver(s.rcv, Wire(s.first, t), s.log[t].payload);
    s.(rcv := rcv, next := s.next + Ahead(rcv.nextExpected, s.rcv.nextExpected))
  }

  function Apply(s: Sys, step: Step): Sys {
    match step
    case WriteChunk(payload, now, ok) =>
      s.(log := s.log + [Segment(payload, ok)],
         snd := SendChunk(s.snd, payload, now, ok),
         data := if ok then s.data + {|s.log|} else s.data)
    case DeliverData(t) => if t < |s.log| then Deliver1(s, t) else s
    case SendAck => s.(acks := s.acks + {s.next - 1})
    case DeliverAck(a) => s.(snd := Acked(s.snd, Wire(s.first, a)))
    case RetransmitTick(now, rto) =>
      s.(snd := UtpSpec.Tick(s.snd, now, rto),
         abandoned := s.abandoned
           + set t | 0 <= t < |s.log| && Held(s, t) && Wire(s.first, t) in GivenUp(s.snd, now, rto))
  }

  /** Both ends as the handshake leaves them: the receiver waits for the first number the
      sender will use. */
  ghost predicate Init(s: Sys) {
    && s.log == [] && s.next == 0
    && s.snd == Send(Wire(s.first, -1), map[])
    && s.rcv == Recv(true, s.first, Wire(s.first, -1), map[], [])
    && s.data == {} && s.acks == {} && s.abandoned == {}
  }

  ghost predicate StepAt(trace: seq<Sys>, steps: seq<Step>, i: int)
    requires 0 <= i < |steps| < |trace|
  {
    Enabled(trace[i], steps[i]) && trace[i + 1] == Apply(trace[i], steps[i])
  }

  /** `trace` is a run that starts after the handshake and takes `steps`. */
  ghost predicate Run(trace: seq<Sys>, steps: seq<Step>) {
    && |trace| == |steps| + 1
    && Init(trace[0])
    && forall i :: 0 <= i < |steps| ==> StepAt(trace, steps, i)
  }

  // ------------------------------------------------------- receiver invariant

  /** Every buffered packet is `lo` or more ahead of `next`, less than 2^15 ahead, and holds
      the payload sent under its index. */
  ghost predicate BufOk(s: Sys, next: nat, buf: map<Seq16, bytes>, lo: nat) {
    forall k :: k in buf ==>
      var d := Ahead(k, Wire(s.first, next));
      lo <= d < HALF && next + d in s.data && next + d < |s.log| && buf[k] == s.log[next + d].payload
  }

  ghost predicate RecvInv(s: Sys) {
    && s.rcv.inited
    && s.next <= |s.log|
    && s.rcv.nextExpected == Wire(s.first, s.next)
    && s.rcv.ackNr == Wrap(s.rcv.nextExpected - 1)
    && |s.rcv.reorderBuf| <= REORDER_BUF_MAX
    && BufOk(s, s.next, s.rcv.reorderBuf, 1)
    && s.rcv.recvCh == Sent(s.log, s.next)
    && (forall t :: 0 <= t < s.next ==> t in s.data)
  }

  ghost predicate DataInv(s: Sys) {
    forall t :: t in s.data ==> t < |s.log| && s.log[t].sent
  }

  /** What the receiver hands on when it has accepted the first n packets. */
  function Sent(log: seq<Segment>, n: nat): seq<bytes>
    requires n <= |log|
  {
    NonEmpty(Payloads(log[..n]))
  }

  lemma PayloadsExtend(log: seq<Segment>, n: nat)
    requires n < |log|
    ensures Sent(log, n + 1) == Sent(log, n) + Chunk(log[n].payload)
  {
    var p := Payloads(log[..n + 1]);
    assert p[..n] == Payloads(log[..n]);
  }

  /** Taking out the packet with index `next` and moving on leaves a good buffer. */
  lemma BufStep(s: Sys, next: nat, buf: map<Seq16, bytes>, lo: nat)
    requires BufOk(s, next, buf, lo)
    ensures BufOk(s, next + 1, buf - {Wire(s.first, next)}, 0)
    ensures Wire(s.first, next) in buf ==>
      lo == 0 && next in s.data && next < |s.log| && buf[Wire(s.first, next)] == s.log[next].payload
  {
    hide Wrap;
    var ne := Wire(s.first, next);
    WireStep(s.first, next);
    AheadZero(ne, ne);
    forall k | k in buf && k != ne
      ensures Ahead(k, Wire(s.first, next + 1)) == Ahead(k, ne) - 1
    {
      AheadStep(k, ne);
    }
  }

  lemma BufStop(s: Sys, next: nat, buf: map<Seq16, bytes>)
    requires BufOk(s, next, buf, 0) && Wire(s.first, next) !in buf
    ensures BufOk(s, next, buf, 1)
  {
    hide Wrap;
    forall k | k in buf ensures Ahead(k, Wire(s.first, next)) != 0 {
      AheadZero(k, Wire(s.first, next));
    }
  }

  lemma RemoveOne<K, V>(m: map<K, V>, k: K)
    requires k in m
    ensures |m - {k}| == |m| - 1 && (m - {k}).Keys < m.Keys
  {
    var rest := m - {k};
    assert rest.Keys == m.Keys - {k};
    assert |rest| == |rest.Keys| && |m| == |m.Keys|;
  }

  /** How many buffered packets a drain from `next` hands out. */
  function DrainCount(next: Seq16, buf: map<Seq16, bytes>): nat
    decreases buf.Keys
  {
    if next !in buf then 0 else 1 + DrainCount(Wrap(next + 1), buf - {next})
  }

  lemma DrainWire(first: Seq16, next: nat, buf: map<Seq16, bytes>)
    ensures var ne := Wire(first, next);
      && (ne !in buf ==> Drain(ne, buf) == Drained(ne, buf, []) && DrainCount(ne, buf) == 0)
      && (ne in buf ==>
           var d := Drain(Wire(first, next + 1), buf - {ne});
           && Drain(ne, buf) == Drained(d.next, d.rest, Chunk(buf[ne]) + d.out)
           && DrainCount(ne, buf) == 1 + DrainCount(Wire(first, next + 1), buf - {ne}))
  {
    WireStep(first, next);
  }

  lemma {:induction false} DrainEnds(first: Seq16, next: nat, buf: map<Seq16, bytes>)
    ensures var n := next + DrainCount(Wire(first, next), buf);
      Drain(Wire(first, next), buf).next == Wire(first, n)
    decreases buf.Keys
  {
    hide Wrap, Wire, Drain, DrainCount;
    var ne := Wire(first, next);
    DrainWire(first, next, buf);
    if ne in buf {
      RemoveOne(buf, ne);
      DrainEnds(first, next + 1, buf - {ne});
    }
    assert Drain(ne, buf).next == Wire(first, next + DrainCount(ne, buf));
  }

  lemma {:induction false} DrainSizes(first: Seq16, next: nat, buf: map<Seq16, bytes>)
    ensures DrainCount(Wire(first, next), buf) <= |buf| && |Drain(Wire(first, next), buf).rest| <= |buf|
    decreases buf.Keys
  {
    hide Wrap, Wire, Drain, DrainCount;
    var ne := Wire(first, next);
    DrainWire(first, next, buf);
    if ne in buf {
      RemoveOne(buf, ne);
      DrainSizes(first, next + 1, buf - {ne});
    }
    assert DrainCount(ne, buf) <= |buf| && |Drain(ne, buf).rest| <= |buf|;
  }

  lemma {:induction false} DrainStaysBehind(s: Sys, next: nat, buf: map<Seq16, bytes>)
    requires next <= |s.log| && BufOk(s, next, buf, 0)
    ensures next + DrainCount(Wire(s.first, next), buf) <= |s.log|
    decreases buf.Keys
  {
    hide Wrap, Wire, BufOk, Drain, DrainCount;
    var ne := Wire(s.first, next);
    DrainWire(s.first, next, buf);
    if ne in buf {
      RemoveOne(buf, ne);
      BufStep(s, next, buf, 0);
      DrainStaysBehind(s, next + 1, buf - {ne});
    }
    assert next + DrainCount(ne, buf) <= |s.log|;
  }

  lemma DrainCounts(s: Sys, next: nat, buf: map<Seq16, bytes>)
    requires next <= |s.log| && BufOk(s, next, buf, 0)
    ensures var n := next + DrainCount(Wire(s.first, next), buf);
      && n <= |s.log| && n - next <= |buf|
      && Drain(Wire(s.first, next), buf).next == Wire(s.first, n)
      && |Drain(Wire(s.first, next), buf).rest| <= |buf|
  {
    DrainEnds(s.first, next, buf);
    DrainSizes(s.first, next, buf);
    DrainStaysBehind(s, next, buf);
  }

  /** Draining from `next` moves over exactly the consecutive indices that were buffered. */
  lemma {:induction false} DrainFollows(s: Sys, next: nat, buf: map<Seq16, bytes>)
    requires next <= |s.log| && BufOk(s, next, buf, 0)
    ensures var n := next + DrainCount(Wire(s.first, next), buf);
      && n <= |s.log|
      && BufOk(s, n, Drain(Wire(s.first, next), buf).rest, 1)
      && Sent(s.log, next) + Drain(Wire(s.first, next), buf).out == Sent(s.log, n)
      && (forall t :: next <= t < n ==> t in s.data)
    decreases buf.Keys
  {
    hide Wrap, Wire, BufOk, Drain, DrainCount, Sent;
    var ne := Wire(s.first, next);
    DrainWire(s.first, next, buf);
    if ne in buf {
      var rest := buf - {ne};
      RemoveOne(buf, ne);
      BufStep(s, next, buf, 0);
      DrainFollows(s, next + 1, rest);
      PayloadsExtend(s.log, next);
      var d := Drain(Wire(s.first, next + 1), rest);
      assert Sent(s.log, next) + (Chunk(buf[ne]) + d.out) == Sent(s.log, next + 1) + d.out;
    } else {
      BufStop(s, next, buf);
    }
  }

  /** The state after the packet waited for, in terms of what is drained behind it. */
  lemma DeliverNext(s: Sys)
    requires s.rcv.inited && s.rcv.nextExpected == Wire(s.first, s.next) && s.next < |s.log|
    ensures var d := Drain(Wire(s.first, s.next + 1), s.rcv.reorderBuf);
      Deliver1(s, s.next) ==
        s.(rcv := s.rcv.(nextExpected := d.next, ackNr := Wrap(d.next - 1), reorderBuf := d.rest,
                         recvCh := s.rcv.recvCh + Chunk(s.log[s.next].payload) + d.out),
           next := s.next + Ahead(d.next, s.rcv.nextExpected))
  {
    hide Wrap, Drain;
    WireStep(s.first, s.next);
  }

  /** The packets buffered behind the one waited for, seen from the next one. */
  lemma BufBehind(s: Sys)
    requires s.rcv.nextExpected == Wire(s.first, s.next) && BufOk(s, s.next, s.rcv.reorderBuf, 1)
    ensures BufOk(s, s.next + 1, s.rcv.reorderBuf, 0)
  {
    hide Wrap, BufOk;
    var ne, buf := s.rcv.nextExpected, s.rcv.reorderBuf;
    BufStep(s, s.next, buf, 1);
    assert ne !in buf;
    assert buf - {ne} == buf;
  }

  /** What is drained behind the packet waited for. */
  lemma DrainBehind(s: Sys) returns (n: nat)
    requires s.rcv.nextExpected == Wire(s.first, s.next) && s.next in s.data && s.next < |s.log|
    requires |s.rcv.reorderBuf| <= REORDER_BUF_MAX
    requires BufOk(s, s.next, s.rcv.reorderBuf, 1) && s.rcv.recvCh == Sent(s.log, s.next)
    ensures s.next < n <= |s.log|
    ensures var d := Drain(Wire(s.first, s.next + 1), s.rcv.reorderBuf);
      && d.next == Wire(s.first, n) && Ahead(d.next, s.rcv.nextExpected) == n - s.next
      && |d.rest| <= |s.rcv.reorderBuf|
      && BufOk(s, n, d.rest, 1)
      && s.rcv.recvCh + Chunk(s.log[s.next].payload) + d.out == Sent(s.log, n)
    ensures forall t :: s.next <= t < n ==> t in s.data
  {
    hide Wrap, BufOk, Drain, DrainCount, Sent, Payloads, Ahead, Wire, Chunk;
    BufBehind(s);
    DrainCounts(s, s.next + 1, s.rcv.reorderBuf);
    DrainFollows(s, s.next + 1, s.rcv.reorderBuf);
    n := s.next + 1 + DrainCount(Wire(s.first, s.next + 1), s.rcv.reorderBuf);
    PayloadsExtend(s.log, s.next);
    StepsAhead(s.first, s.next, n);
  }

  lemma StepsAhead(first: Seq16, m: nat, n: nat)
    requires m <= n < m + MOD
    ensures Ahead(Wire(first, n), Wire(first, m)) == n - m
  {
    hide Wrap;
    AheadOfWire(first, n, m);
    WrapSmall(n - m);
  }

  /** The packet waited for: it and the buffered ones right behind it are handed on. */
  lemma DeliverExpected(s: Sys) returns (n: nat)
    requires RecvInv(s) && s.next in s.data && s.next < |s.log|
    ensures s.next < n <= |s.log|
    ensures Deliver1(s, s.next).next == n
    ensures var r := Deliver1(s, s.next).rcv;
      && r == Recv(true, Wire(s.first, n), Wrap(Wire(s.first, n) - 1), r.reorderBuf, Sent(s.log, n))
      && |r.reorderBuf| <= |s.rcv.reorderBuf|
      && BufOk(s, n, r.reorderBuf, 1)
    ensures forall t :: s.next <= t < n ==> t in s.data
  {
    hide Wrap, BufOk, Drain, Sent, Deliver, Deliver1;
    n := DrainBehind(s);
    DeliverNext(s);
  }

  lemma DeliverInOrderKeeps(s: Sys)
    requires RecvInv(s) && DataInv(s) && s.next in s.data
    ensures RecvInv(Deliver1(s, s.next))
    ensures s.next < Deliver1(s, s.next).next
  {
    hide Wrap, BufOk, Drain, Sent, Deliver;
    var s' := Deliver1(s, s.next);
    var n := DeliverExpected(s);
    BufFrame(s, s', n, s'.rcv.reorderBuf);
    assert RecvInv(s') && s'.next == n;
  }

  lemma BufFrame(s: Sys, s': Sys, n: nat, buf: map<Seq16, bytes>)
    requires BufOk(s, n, buf, 1)
    requires s'.first == s.first && s.log <= s'.log && s.data <= s'.data
    ensures BufOk(s', n, buf, 1)
  {
    hide Wrap;
  }

  /** The receiver's invariant survives whatever the sender does. */
  lemma RecvFrame(s: Sys, s': Sys)
    requires RecvInv(s)
    requires s'.first == s.first && s.log <= s'.log && s.data <= s'.data
    requires s'.rcv == s.rcv && s'.next == s.next
    ensures RecvInv(s')
  {
    hide Wrap;
    BufFrame(s, s', s.next, s.rcv.reorderBuf);
    assert s'.log[..s.next] == s.log[..s.next];
  }

  lemma DeliverAheadKeeps(s: Sys, t: nat)
    requires RecvInv(s) && t in s.data && t < |s.log|
    requires s.next < t < s.next + HALF
    ensures RecvInv(Deliver1(s, t)) && Deliver1(s, t).next == s.next
    ensures Deliver1(s, t).rcv.recvCh == s.rcv.recvCh
  {
    hide Wrap, WrappingGT, Sent;
    OrderInsideWindow(s.first, t, s.next);
    AheadOfWire(s.first, t, s.next);
    WrapSmall(t - s.next);
    AheadZero(s.rcv.nextExpected, s.rcv.nextExpected);
    var s' := Deliver1(s, t);
    assert BufOk(s', s.next, s'.rcv.reorderBuf, 1);
    assert RecvInv(s') && s'.next == s.next && s'.rcv.recvCh == s.rcv.recvCh;
  }

  lemma DeliverOldKeeps(s: Sys, t: nat)
    requires s.rcv.inited && s.rcv.nextExpected == Wire(s.first, s.next) && t < |s.log|
    requires Wrap(t - s.next) >= HALF
    ensures Deliver1(s, t) == s
  {
    WireOrder(s.first, t, s.next);
  }

  /** A DATA packet taken in at a safe distance keeps the receiver in step with the sender. */
  lemma DeliverKeeps(s: Sys, t: nat)
    requires RecvInv(s) && DataInv(s) && t in s.data && Safe(t - s.next)
    ensures RecvInv(Deliver1(s, t))
    ensures s.next <= Deliver1(s, t).next
    ensures Deliver1(s, t) == s.(rcv := Deliver1(s, t).rcv, next := Deliver1(s, t).next)
  {
    if Wrap(t - s.next) >= HALF {
      DeliverOldKeeps(s, t);
    } else if t == s.next {
      DeliverInOrderKeeps(s);
    } else {
      DeliverAheadKeeps(s, t);
    }
  }

  /** A packet with the number and payload of another one is taken in just like it. */
  lemma DeliverAlike(s: Sys, t: nat, u: nat)
    requires t < |s.log| && u < |s.log| && Wire(s.first, t) == Wire(s.first, u)
    requires s.log[t].payload == s.log[u].payload
    ensures Deliver1(s, t) == Deliver1(s, u)
  {
  }

  /** What packet t is taken for has its number, and is at a safe distance if t is not. */
  lemma TakenForIsNear(s: Sys, t: nat)
    requires s.rcv.nextExpected == Wire(s.first, s.next) && !Safe(t - s.next)
    ensures var u := TakenFor(s, t);
      && s.next <= u < s.next + HALF && Safe(u - s.next)
      && Wire(s.first, t) == Wire(s.first, u)
  {
    var d := Wrap(t - s.next);
    WrapSmall(d);
    assert Wrap(t - TakenFor(s, t)) == 0;
    WireOrder(s.first, t, TakenFor(s, t));
  }

  lemma FullBufferDrops(s: Sys, t: nat)
    requires s.rcv.inited && s.rcv.nextExpected == Wire(s.first, s.next) && t < |s.log|
    requires Wrap(t - s.next) != 0 && |s.rcv.reorderBuf| >= REORDER_BUF_MAX
    ensures Deliver1(s, t) == s
  {
    WireOrder(s.first, t, s.next);
    AheadZero(s.rcv.nextExpected, s.rcv.nextExpected);
  }

  lemma SafeDataKeeps(s: Sys, t: nat)
    requires RecvInv(s) && DataInv(s) && t in s.data && t < |s.log| && DataIsSafe(s, t)
    ensures RecvInv(Deliver1(s, t))
    ensures s.next <= Deliver1(s, t).next
    ensures Deliver1(s, t) == s.(rcv := Deliver1(s, t).rcv, next := Deliver1(s, t).next)
  {
    hide Wrap, BufOk, Deliver1;
    if Safe(t - s.next) {
      DeliverKeeps(s, t);
    } else if Wrap(t - s.next) != 0 && |s.rcv.reorderBuf| >= REORDER_BUF_MAX {
      FullBufferDrops(s, t);
    } else {
      TakenForIsNear(s, t);
      DeliverAlike(s, t, TakenFor(s, t));
      DeliverKeeps(s, TakenFor(s, t));
    }
  }

  // --------------------------------------------------------- sender invariant

  /** The number of sequence numbers used after k. */
  function Age(s: Sys, k: Seq16): Seq16 {
    Ahead(s.snd.seqNr, k)
  }

  ghost predicate SendInv(s: Sys) {
    && s.snd.seqNr == Wire(s.first, |s.log| - 1)
    && (forall k :: k in s.snd.sendBuf ==>
         && Age(s, k) < |s.log|
         && s.log[|s.log| - 1 - Age(s, k)] == Segment(s.snd.sendBuf[k].payload, true))
  }

  /** Everything Write reported as sent is accepted by the receiver in order, given up after
      the last retry, or still held for retransmission with its payload. */
  ghost predicate NothingLost(s: Sys) {
    forall t :: 0 <= t < |s.log| && s.log[t].sent ==>
      t < s.next || t in s.abandoned || Held(s, t)
  }

  ghost predicate AckInv(s: Sys) {
    forall a :: a in s.acks ==> -1 <= a < s.next
  }

  ghost predicate Inv(s: Sys) {
    RecvInv(s) && DataInv(s) && SendInv(s) && NothingLost(s) && AckInv(s)
  }

  /** Held packets and keys of the retransmit buffer name each other. */
  lemma HeldAge(s: Sys, t: int)
    requires SendInv(s) && 0 <= t < |s.log| && |s.log| - t <= MOD
    ensures Ahead(s.snd.seqNr, Wire(s.first, t)) == |s.log| - 1 - t
    ensures Held(s, t) ==> s.log[t] == Segment(s.snd.sendBuf[Wire(s.first, t)].payload, true)
  {
    AheadOfWire(s.first, |s.log| - 1, t);
  }

  lemma WriteKeepsBuffer(s: Sys, payload: bytes, now: int, ok: bool)
    requires SendInv(s)
    ensures SendInv(Apply(s, WriteChunk(payload, now, ok)))
  {
    hide Wrap;
    var s' := Apply(s, WriteChunk(payload, now, ok));
    WireStep(s.first, |s.log| - 1);
    forall k | k in s'.snd.sendBuf
      ensures Age(s', k) < |s'.log|
      ensures s'.log[|s'.log| - 1 - Age(s', k)] == Segment(s'.snd.sendBuf[k].payload, true)
    {
      if k != s'.snd.seqNr {
        assert k in s.snd.sendBuf;
        AgeStep(s.snd.seqNr, k);
      } else {
        AheadZero(k, k);
      }
    }
    assert SendInv(s');
  }

  lemma WriteKeeps(s: Sys, payload: bytes, now: int, ok: bool)
    requires Inv(s) && Enabled(s, WriteChunk(payload, now, ok))
    ensures Inv(Apply(s, WriteChunk(payload, now, ok)))
  {
    hide Wrap, BufOk, RecvInv, SendInv;
    var s' := Apply(s, WriteChunk(payload, now, ok));
    RecvFrame(s, s');
    WriteKeepsBuffer(s, payload, now, ok);
    forall t | 0 <= t < |s'.log| && s'.log[t].sent
      ensures t < s'.next || t in s'.abandoned || Held(s', t)
    {
      WriteKeepsHeld(s, payload, now, ok, t);
    }
    assert NothingLost(s') && DataInv(s') && AckInv(s');
  }

  lemma WriteKeepsHeld(s: Sys, payload: bytes, now: int, ok: bool, t: int)
    requires SendInv(s) && NothingLost(s) && Enabled(s, WriteChunk(payload, now, ok))
    requires var s' := Apply(s, WriteChunk(payload, now, ok)); 0 <= t < |s'.log| && s'.log[t].sent
    ensures var s' := Apply(s, WriteChunk(payload, now, ok));
      t < s'.next || t in s'.abandoned || Held(s', t)
  {
    hide Wrap;
    var s' := Apply(s, WriteChunk(payload, now, ok));
    WireStep(s.first, |s.log| - 1);
    if t < |s.log| && Held(s, t) {
      if |s.log| - t < MOD {
        NumberIsNew(s, t);
        assert Wire(s.first, t) in s'.snd.sendBuf;
      } else {
        assert t == |s.log| - MOD && Enabled(s, WriteChunk(payload, now, ok));
      }
    }
    assert t < s'.next || t in s'.abandoned || Held(s', t);
  }

  /** The next number differs from those of the last 2^16 - 1 packets. */
  lemma NumberIsNew(s: Sys, t: int)
    requires |s.log| - MOD < t < |s.log|
    ensures Wire(s.first, t) != Wire(s.first, |s.log|)
  {
    AheadOfWire(s.first, |s.log|, t);
    WrapSmall(|s.log| - t);
    AheadZero(Wire(s.first, |s.log|), Wire(s.first, t));
  }

  /** A write drives only accepted packets out of the retransmit buffer exactly when it is safe. */
  lemma WriteIsSafeIff(s: Sys, payload: bytes, now: int, ok: bool)
    requires SendInv(s)
    ensures var s' := Apply(s, WriteChunk(payload, now, ok));
      (forall t :: Held(s, t) && !Held(s', t) ==> t < s.next) <==> WriteIsSafe(s)
  {
    hide Wrap;
    var s' := Apply(s, WriteChunk(payload, now, ok));
    WireStep(s.first, |s.log| - 1);
    forall t | Held(s, t) ensures Held(s', t) <==> t != |s.log| - MOD {
      if |s.log| - t < MOD {
        NumberIsNew(s, t);
      }
    }
  }

  /** The sender's invariants survive whatever the receiver does. */
  lemma SendFrame(s: Sys, s': Sys)
    requires DataInv(s) && SendInv(s) && NothingLost(s)
    requires s' == s.(rcv := s'.rcv, next := s'.next, acks := s'.acks) && s.next <= s'.next
    ensures DataInv(s') && SendInv(s') && NothingLost(s')
  {
    hide Wrap;
    forall i | 0 <= i < |s'.log| && s'.log[i].sent
      ensures i < s'.next || i in s'.abandoned || Held(s', i)
    {
      assert i < s.next || i in s.abandoned || Held(s, i);
    }
    forall k | k in s'.snd.sendBuf ensures Age(s', k) == Age(s, k) {
    }
    assert DataInv(s') && SendInv(s') && NothingLost(s');
  }

  /** An arriving ACK, however stale or repeated, removes only what the receiver accepted. */
  lemma AckRemovesOnlyAccepted(s: Sys, a: int, t: int)
    requires AckInv(s) && Enabled(s, DeliverAck(a)) && Held(s, t)
    requires !Held(Apply(s, DeliverAck(a)), t)
    ensures t < s.next && a < s.next
  {
    WireOrder(s.first, t, a);
  }

  /** What the sender can see of it: an ACK less than 2^15 packets behind the newest one is safe. */
  lemma RecentAckIsSafe(s: Sys, a: int)
    requires Inv(s) && a in s.acks && |s.log| - a <= HALF
    ensures AckIsSafe(s, a)
  {
    assert a < s.next;
    hide Wrap, Inv;
    forall t | Held(s, t) && t >= s.next ensures 0 < Wrap(t - a) < HALF {
      WrapSmall(t - a);
    }
  }

  /** An ACK takes out only accepted packets exactly when it is safe. */
  lemma AckIsSafeIff(s: Sys, a: int)
    ensures (forall t :: Held(s, t) && !Held(Apply(s, DeliverAck(a)), t) ==> t < s.next) <==> AckIsSafe(s, a)
  {
    var s' := Apply(s, DeliverAck(a));
    forall t | Held(s, t) ensures Held(s', t) <==> 0 < Wrap(t - a) < HALF {
      WireOrder(s.first, t, a);
    }
  }

  /** What is left of the retransmit buffer keeps its numbers and payloads. */
  lemma SendShrinks(s: Sys, s': Sys)
    requires SendInv(s)
    requires s'.first == s.first && s'.log == s.log && s'.snd.seqNr == s.snd.seqNr
    requires forall k :: k in s'.snd.sendBuf ==>
      k in s.snd.sendBuf && s'.snd.sendBuf[k].payload == s.snd.sendBuf[k].payload
    ensures SendInv(s')
  {
    hide Wrap;
    forall k | k in s'.snd.sendBuf ensures Age(s', k) == Age(s, k) && k in s.snd.sendBuf {
    }
    assert SendInv(s');
  }

  lemma AckKeeps(s: Sys, a: int)
    requires Inv(s) && Enabled(s, DeliverAck(a))
    ensures Inv(Apply(s, DeliverAck(a)))
  {
    hide Wrap, BufOk, RecvInv, SendInv;
    var s' := Apply(s, DeliverAck(a));
    forall t | 0 <= t < |s'.log| && s'.log[t].sent
      ensures t < s'.next || t in s'.abandoned || Held(s', t)
    {
      if Held(s, t) && !Held(s', t) {
        AckRemovesOnlyAccepted(s, a, t);
      }
    }
    SendShrinks(s, s');
    RecvFrame(s, s');
    assert NothingLost(s');
  }

  lemma TickKeeps(s: Sys, now: int, rto: int)
    requires Inv(s)
    ensures Inv(Apply(s, RetransmitTick(now, rto)))
  {
    hide Wrap, BufOk, RecvInv, SendInv;
    var s' := Apply(s, RetransmitTick(now, rto));
    SendShrinks(s, s');
    RecvFrame(s, s');
    forall t | 0 <= t < |s'.log| && s'.log[t].sent
      ensures t < s'.next || t in s'.abandoned || Held(s', t)
    {
      assert t < s.next || t in s.abandoned || Held(s, t);
    }
    assert NothingLost(s');
  }

  lemma DataKeeps(s: Sys, t: nat)
    requires Inv(s) && Enabled(s, DeliverData(t))
    ensures Inv(Apply(s, DeliverData(t)))
  {
    SafeDataKeeps(s, t);
    SendFrame(s, Deliver1(s, t));
  }

  lemma StepKeeps(s: Sys, step: Step)
    requires Inv(s) && Enabled(s, step)
    ensures Inv(Apply(s, step))
    ensures s.next <= Apply(s, step).next
  {
    hide Wrap, BufOk, Drain, Deliver, Sent;
    match step
    case WriteChunk(payload, now, ok) => WriteKeeps(s, payload, now, ok);
    case DeliverData(t) => SafeDataKeeps(s, t); DataKeeps(s, t);
    case SendAck =>
      RecvFrame(s, Apply(s, SendAck));
      SendFrame(s, Apply(s, SendAck));
    case DeliverAck(a) => AckKeeps(s, a);
    case RetransmitTick(now, rto) => TickKeeps(s, now, rto);
  }

  lemma {:induction false} RunKeeps(trace: seq<Sys>, steps: seq<Step>, i: nat)
    requires Run(trace, steps) && i < |trace|
    ensures Inv(trace[i])
  {
    hide Wrap;
    if i == 0 {
      InitHolds(trace[0]);
    } else {
      RunKeeps(trace, steps, i - 1);
      assert StepAt(trace, steps, i - 1);
      StepKeeps(trace[i - 1], steps[i - 1]);
    }
  }

  lemma InitHolds(s: Sys)
    requires Init(s)
    ensures Inv(s)
  {
    WireStep(s.first, 0);
  }

  // ------------------------------------------------------------- main theorems

  lemma {:induction false} AcceptedIsWritten(log: seq<Segment>, n: nat)
    requires n <= |log| && forall t :: 0 <= t < n ==> log[t].sent
    ensures Concat(Sent(log, n)) == Written(log[..n])
  {
    if n > 0 {
      AcceptedIsWritten(log, n - 1);
      PayloadsExtend(log, n - 1);
      WrittenSnoc(log, n);
      ConcatChunk(log[n - 1].payload);
      hide Sent, Concat, Written, Chunk;
      ConcatAppend(Sent(log, n - 1), Chunk(log[n - 1].payload));
    } else {
      assert Sent(log, 0) == [];
    }
  }

  lemma WrittenSnoc(log: seq<Segment>, n: nat)
    requires 0 < n <= |log| && log[n - 1].sent
    ensures Written(log[..n]) == Written(log[..n - 1]) + log[n - 1].payload
  {
    assert log[..n][..n - 1] == log[..n - 1];
  }

  lemma ConcatChunk(p: bytes)
    ensures Concat(Chunk(p)) == p
  {
  }

  lemma {:induction false} WrittenPrefix(log: seq<Segment>, n: nat)
    requires n <= |log|
    ensures Written(log[..n]) <= Written(log)
  {
    if n == |log| {
      assert log[..n] == log;
    } else {
      WrittenPrefix(log[..|log| - 1], n);
      assert log[..|log| - 1][..n] == log[..n];
    }
  }

  /** In every run the bytes handed to the reader are exactly the first `next` chunks that the
      sender wrote, so always a prefix of what Write reported as written. */
  lemma DeliveredIsPrefix(trace: seq<Sys>, steps: seq<Step>, i: nat)
    requires Run(trace, steps) && i < |trace|
    ensures trace[i].next <= |trace[i].log|
    ensures Concat(trace[i].rcv.recvCh) == Written(trace[i].log[..trace[i].next])
    ensures Concat(trace[i].rcv.recvCh) <= Written(trace[i].log)
  {
    hide Wrap;
    RunKeeps(trace, steps, i);
    AcceptedIsWritten(trace[i].log, trace[i].next);
    WrittenPrefix(trace[i].log, trace[i].next);
  }

  /** In every run the receiver's bookkeeping stays bounded: it buffers at most 64 packets, all of
      them strictly ahead of the one it waits for, and acknowledges the one before that. */
  lemma ReceiverStaysBounded(trace: seq<Sys>, steps: seq<Step>, i: nat)
    requires Run(trace, steps) && i < |trace|
    ensures var r := trace[i].rcv;
      && |r.reorderBuf| <= 64
      && r.ackNr == Wrap(r.nextExpected - 1)
      && forall k :: k in r.reorderBuf ==> WrappingGT(k, r.nextExpected)
  {
    RunKeeps(trace, steps, i);
    hide Wrap;
    var s := trace[i];
    forall k | k in s.rcv.reorderBuf
      ensures WrappingGT(k, s.rcv.nextExpected)
    {
      assert 1 <= Ahead(k, Wire(s.first, s.next)) < HALF;
    }
  }

  /** In every run an ACK takes out of the retransmit buffer only packets that the receiver has
      accepted, even when the ACK is stale or a duplicate. */
  lemma AcksRemoveOnlyAccepted(trace: seq<Sys>, steps: seq<Step>, i: nat, t: nat)
    requires Run(trace, steps) && i < |steps| && steps[i].DeliverAck?
    requires Held(trace[i], t) && !Held(trace[i + 1], t)
    ensures t < trace[i].next
  {
    hide Wrap;
    RunKeeps(trace, steps, i);
    assert StepAt(trace, steps, i);
    AckRemovesOnlyAccepted(trace[i], steps[i].a, t);
  }
}
