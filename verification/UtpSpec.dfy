/** What the two halves of a uTP connection compute, as functions on values:
    in-order delivery on the receiving side, the retransmit buffer on the sending side. */
module UtpSpec {
  import opened Bytes
  import opened SeqNumbers

  const MAX_RETRANSMITS: nat := 4
  const REORDER_BUF_MAX: nat := 64

  // ---------------------------------------------------------------- receiving

  datatype Recv = Recv(
    inited: bool,
    nextExpected: Seq16,
    ackNr: Seq16,
    reorderBuf: map<Seq16, bytes>,
    recvCh: seq<bytes>)

  datatype Drained = Drained(next: Seq16, rest: map<Seq16, bytes>, out: seq<bytes>)

  function Chunk(payload: bytes): seq<bytes> {
    if payload == [] then [] else [payload]
  }

  /** Hands out buffered packets as long as the next expected one is there. */
  function Drain(next: Seq16, buf: map<Seq16, bytes>): Drained
    decreases buf.Keys
  {
    if next !in buf then Drained(next, buf, [])
    else
      var d := Drain(Wrap(next + 1), buf - {next});
      d.(out := Chunk(buf[next]) + d.out)
  }

  lemma DrainUnfold(next: Seq16, buf: map<Seq16, bytes>)
    ensures next !in buf ==> Drain(next, buf) == Drained(next, buf, [])
    ensures next in buf ==>
      var d := Drain(Wrap(next + 1), buf - {next});
      Drain(next, buf) == Drained(d.next, d.rest, Chunk(buf[next]) + d.out)
  {
  }

  /** The reaction to one DATA packet. */
  function Deliver(r: Recv, seqNr: Seq16, payload: bytes): Recv {
    var r := if r.inited then r else r.(inited := true, nextExpected := seqNr);
    if seqNr == r.nextExpected then
      var d := Drain(Wrap(r.nextExpected + 1), r.reorderBuf);
      r.(nextExpected := d.next,
         ackNr := Wrap(d.next - 1),
         reorderBuf := d.rest,
         recvCh := r.recvCh + Chunk(payload) + d.out)
    else if WrappingGT(seqNr, r.nextExpected) && |r.reorderBuf| < REORDER_BUF_MAX then
      r.(reorderBuf := r.reorderBuf[seqNr := payload])
    else
      r
  }

  // ------------------------------------------------------------------ sending

  /** One chunk handed to the socket; `sent` says whether the socket took it. */
  datatype Segment = Segment(payload: bytes, sent: bool)

  /** The bytes that Write reported as written. */
  function Written(log: seq<Segment>): bytes {
    if log == [] then []
    else Written(log[..|log| - 1]) + if log[|log| - 1].sent then log[|log| - 1].payload else []
  }

  datatype SentPkt = SentPkt(payload: bytes, sentAt: int, retries: nat)

  datatype Send = Send(seqNr: Seq16, sendBuf: map<Seq16, SentPkt>)

  /** One chunk leaves: the sequence number is used up whether or not the socket accepts
      the packet, but only an accepted packet stays in the retransmit buffer. */
  function SendChunk(s: Send, payload: bytes, now: int, ok: bool): Send {
    var seq16 := Wrap(s.seqNr + 1);
    Send(seq16,
         if ok then s.sendBuf[seq16 := SentPkt(payload, now, 0)] else s.sendBuf - {seq16})
  }

  /** All the chunks of one Write call, chunk i sent at time clock(i). */
  function SendChunks(s: Send, log: seq<Segment>, clock: nat -> int): Send {
    if log == [] then s
    else
      var n := |log| - 1;
      SendChunk(SendChunks(s, log[..n], clock), log[n].payload, clock(n), log[n].sent)
  }

  /** A cumulative ACK: everything not after `ackNr` leaves the retransmit buffer. */
  function Acked(s: Send, ackNr: Seq16): Send {
    s.(sendBuf := map k | k in s.sendBuf && !WrappingLEQ(k, ackNr) :: s.sendBuf[k])
  }

  predicate Due(p: SentPkt, now: int, rto: int) {
    now - p.sentAt >= rto
  }

  predicate Exhausted(p: SentPkt, now: int, rto: int) {
    Due(p, now, rto) && p.retries >= MAX_RETRANSMITS
  }

  function Retried(p: SentPkt, now: int, rto: int): SentPkt {
    if Due(p, now, rto) then p.(sentAt := now, retries := p.retries + 1) else p
  }

  /** The packets that one tick of the retransmission loop gives up on. */
  function GivenUp(s: Send, now: int, rto: int): set<Seq16> {
    set k | k in s.sendBuf && Exhausted(s.sendBuf[k], now, rto)
  }

  /** The packets that one tick sends again. */
  function Resent(s: Send, now: int, rto: int): set<Seq16> {
    set k | k in s.sendBuf && Due(s.sendBuf[k], now, rto) && !Exhausted(s.sendBuf[k], now, rto)
  }

  function Tick(s: Send, now: int, rto: int): Send {
    s.(sendBuf := map k | k in s.sendBuf && !Exhausted(s.sendBuf[k], now, rto) ::
      Retried(s.sendBuf[k], now, rto))
  }
}
