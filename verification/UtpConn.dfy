/** The uTP connection object. Each method is proved against the functions of UtpSpec; UtpRun proves
    what those functions guarantee over whole runs. */
module UtpConn {
  import opened Bytes
  import opened SeqNumbers
  import opened UtpSpec
  import Ledbat

  const MSS: int := Ledbat.MSS

  type Uint32 = x: int | 0 <= x < 0x1_0000_0000

  datatype WriteError = NoError | Blocked | SocketError

  /** Chunk i goes to the socket; only the last one may be refused, or be smaller than a full packet. */
  ghost predicate ChunksOk(log: seq<Segment>, accepts: nat -> bool, refused: bool) {
    forall i :: 0 <= i < |log| ==>
      && 0 < |log[i].payload| <= 1400
      && log[i].sent == accepts(i)
      && (log[i].sent || (i == |log| - 1 && refused))
      && (|log[i].payload| == 1400 || i == |log| - 1)
  }

  ghost predicate FullSize(log: seq<Segment>) {
    log != [] ==> |log[|log| - 1].payload| == 1400
  }

  lemma NoChunks(s: Send, clock: nat -> int, accepts: nat -> bool)
    ensures ChunksOk([], accepts, false) && SendChunks(s, [], clock) == s && Written([]) == [] && FullSize([])
  {
  }

  lemma MoreChunks(s: Send, log: seq<Segment>, p: bytes, ok: bool, clock: nat -> int)
    ensures var log' := log + [Segment(p, ok)];
      && SendChunks(s, log', clock) == SendChunk(SendChunks(s, log, clock), p, clock(|log|), ok)
      && Written(log') == Written(log) + (if ok then p else [])
      && (|p| == 1400 ==> FullSize(log'))
  {
    hide SendChunk;
    assert (log + [Segment(p, ok)])[..|log|] == log;
  }

  lemma PrefixMore(b: bytes, total: nat, n: nat)
    requires total + n <= |b|
    ensures b[..total + n] == b[..total] + b[total..][..n]
  {
  }

  lemma MoreChunksOk(log: seq<Segment>, p: bytes, accepts: nat -> bool)
    requires ChunksOk(log, accepts, false) && FullSize(log) && 0 < |p| <= 1400
    ensures ChunksOk(log + [Segment(p, accepts(|log|))], accepts, !accepts(|log|))
  {
  }

  /** A tick that has visited all packets but those in `todo`. */
  ghost predicate Ticked(was: Send, buf: map<Seq16, SentPkt>, resent: set<Seq16>, given: set<Seq16>,
                         todo: set<Seq16>, now: int, rto: int)
  {
    && todo <= buf.Keys <= was.sendBuf.Keys
    && (forall k :: k in todo ==> buf[k] == was.sendBuf[k])
    && (forall k :: k in was.sendBuf && k !in todo ==> (k in buf <==> !Exhausted(was.sendBuf[k], now, rto)))
    && (forall k :: k in buf && k !in todo ==> buf[k] == Retried(was.sendBuf[k], now, rto))
    && (forall k :: k in resent <==> k in Resent(was, now, rto) && k !in todo)
    && (forall k :: k in given <==> k in GivenUp(was, now, rto) && k !in todo)
  }

  lemma TickedOne(was: Send, buf: map<Seq16, SentPkt>, resent: set<Seq16>, given: set<Seq16>,
                  todo: set<Seq16>, now: int, rto: int, k: Seq16)
    requires Ticked(was, buf, resent, given, todo, now, rto) && k in todo
    ensures buf[k] == was.sendBuf[k] && k !in given
    ensures now - buf[k].sentAt < rto ==> Ticked(was, buf, resent, given, todo - {k}, now, rto)
    ensures now - buf[k].sentAt >= rto && buf[k].retries >= 4 ==>
      Ticked(was, buf - {k}, resent, given + {k}, todo - {k}, now, rto)
    ensures now - buf[k].sentAt >= rto && buf[k].retries < 4 ==>
      var again := buf[k := SentPkt(buf[k].payload, now, buf[k].retries + 1)];
      Ticked(was, again, resent + {k}, given, todo - {k}, now, rto)
  {
  }

  lemma TickedAll(was: Send, buf: map<Seq16, SentPkt>, resent: set<Seq16>, given: set<Seq16>, now: int, rto: int)
    requires Ticked(was, buf, resent, given, {}, now, rto)
    ensures Send(was.seqNr, buf) == Tick(was, now, rto)
    ensures resent == Resent(was, now, rto) && given == GivenUp(was, now, rto)
  {
    hide Due, Exhausted, Retried;
    assert buf == Tick(was, now, rto).sendBuf;
  }

  lemma TickedWithin(was: Send, buf: map<Seq16, SentPkt>, resent: set<Seq16>, given: set<Seq16>,
                     todo: set<Seq16>, now: int, rto: int)
    requires Ticked(was, buf, resent, given, todo, now, rto)
    ensures todo <= buf.Keys
  {
  }

  lemma TickedNone(was: Send, now: int, rto: int)
    ensures Ticked(was, was.sendBuf, {}, {}, was.sendBuf.Keys, now, rto)
  {
  }

  /** The congestion window after n losses: each halves it, down to 150 bytes. */
  function Halved(cwnd: real, n: nat): real {
    if n == 0 then cwnd
    else
      var c := Halved(cwnd, n - 1);
      if c < 300.0 then 150.0 else c / 2.0
  }

  lemma HalvedNone(cwnd: real)
    ensures Halved(cwnd, 0) == cwnd
  {
  }

  lemma HalvedMore(cwnd: real, n: nat)
    ensures Halved(Halved(cwnd, n), 1) == Halved(cwnd, n + 1)
  {
  }

  class Conn {
    const ledbat: Ledbat.Controller
    const rto: int
    // sending
    var seqNr: Seq16
    var sendBuf: map<Seq16, SentPkt>
    var remoteWnd: int
    // receiving
    var recvInited: bool
    var nextExpected: Seq16
    var ackNr: Seq16
    var reorderBuf: map<Seq16, bytes>
    var recvCh: seq<bytes>

    ghost predicate Valid()
      reads this, ledbat, ledbat.buckets
    {
      ledbat.Valid() && MSS <= remoteWnd
    }

    function Sending(): Send
      reads this`seqNr, this`sendBuf
    {
      Send(seqNr, sendBuf)
    }

    function Receiving(): Recv
      reads this`recvInited, this`nextExpected, this`ackNr, this`reorderBuf, this`recvCh
    {
      Recv(recvInited, nextExpected, ackNr, reorderBuf, recvCh)
    }

    constructor (seqNr: Seq16, ackNr: Seq16, now: int)
      ensures Valid() && fresh(ledbat) && fresh(ledbat.buckets)
      ensures Sending() == Send(seqNr, map[])
      ensures Receiving() == Recv(false, 0, ackNr, map[], [])
      ensures remoteWnd == 256 * MSS && rto == 1_000_000
    {
      ledbat := new Ledbat.Controller(now);
      rto := 1_000_000;
      this.seqNr := seqNr;
      this.ackNr := ackNr;
      sendBuf := map[];
      remoteWnd := 256 * MSS;
      recvInited := false;
      nextExpected := 0;
      reorderBuf := map[];
      recvCh := [];
    }

    method SetFirstExpected(seqNr: Seq16)
      modifies this`nextExpected, this`recvInited
      ensures Receiving() == old(Receiving()).(inited := true, nextExpected := seqNr)
    {
      nextExpected := seqNr;
      recvInited := true;
    }

    /** Hands out the packets buffered right behind the last accepted one. */
    method Flush() returns (out: seq<bytes>)
      modifies this`nextExpected, this`reorderBuf
      ensures Drained(nextExpected, reorderBuf, out) == old(Drain(nextExpected, reorderBuf))
    {
      hide Wrap, Drain;
      ghost var all := Drain(nextExpected, reorderBuf);
      out := [];
      while nextExpected in reorderBuf
        invariant Drain(nextExpected, reorderBuf).next == all.next
        invariant Drain(nextExpected, reorderBuf).rest == all.rest
        invariant out + Drain(nextExpected, reorderBuf).out == all.out
        decreases reorderBuf.Keys
      {
        DrainUnfold(nextExpected, reorderBuf);
        var p := reorderBuf[nextExpected];
        reorderBuf := reorderBuf - {nextExpected};
        nextExpected := Wrap(nextExpected + 1);
        if p != [] {
          out := out + [p];
        }
      }
      DrainUnfold(nextExpected, reorderBuf);
      assert out + [] == out;
      assert Drained(nextExpected, reorderBuf, out) == all;
    }

    /** One incoming DATA packet. */
    method DeliverInOrder(seqNr: Seq16, payload: bytes)
      modifies this`recvInited, this`nextExpected, this`ackNr, this`reorderBuf, this`recvCh
      ensures Receiving() == Deliver(old(Receiving()), seqNr, payload)
    {
      if !recvInited {
        nextExpected := seqNr;
        recvInited := true;
      }
      var toDeliver := [];
      if seqNr == nextExpected {
        nextExpected := Wrap(nextExpected + 1);
        if payload != [] {
          toDeliver := [payload];
        }
        var flushed := Flush();
        toDeliver := toDeliver + flushed;
        ackNr := Wrap(nextExpected - 1);
        assert recvCh + toDeliver == recvCh + Chunk(payload) + flushed;
      } else if WrappingGT(seqNr, nextExpected) {
        if |reorderBuf| < REORDER_BUF_MAX {
          reorderBuf := reorderBuf[seqNr := payload];
        }
      }
      recvCh := recvCh + toDeliver;
    }

    method UpdateRemoteWnd(w: Uint32)
      modifies this`remoteWnd
      ensures remoteWnd == if w < MSS then MSS else w
    {
      remoteWnd := if w < MSS then MSS else w;
    }

    /** The bytes that both the congestion window and the remote window leave room for. */
    method EffectiveCanSend() returns (n: int)
      requires Valid()
      ensures n > 0 ==>
        && ledbat.flightSize + n <= ledbat.cwnd.Floor && ledbat.flightSize + n <= remoteWnd
        && (ledbat.flightSize + n == ledbat.cwnd.Floor || ledbat.flightSize + n == remoteWnd)
      ensures n <= 0 ==> ledbat.flightSize >= ledbat.cwnd.Floor || ledbat.flightSize >= remoteWnd
    {
      var cwndAvail := ledbat.CanSend();
      var remoteAvail := remoteWnd - ledbat.flightSize;
      n := if remoteAvail < cwndAvail then remoteAvail else cwndAvail;
    }

    /** One round of Write: nothing happens while the windows are closed; otherwise one chunk is
        buffered and handed to the socket, and taken out again when the socket refuses it. What is
        then in flight fits both windows. */
    method WriteChunk(rest: bytes, now: int, ok: bool) returns (n: nat, err: WriteError)
      requires Valid() && rest != []
      modifies this`seqNr, this`sendBuf, ledbat`flightSize
      ensures Valid()
      ensures err == Blocked ==>
        && n == 0 && Sending() == old(Sending())
        && (ledbat.flightSize >= ledbat.cwnd.Floor || ledbat.flightSize >= remoteWnd)
      ensures err != Blocked ==>
        && err == (if ok then NoError else SocketError)
        && 0 < n <= |rest| && n <= 1400
        && Sending() == SendChunk(old(Sending()), rest[..n], now, ok)
        && old(ledbat.flightSize) + n <= ledbat.cwnd.Floor
        && old(ledbat.flightSize) + n <= remoteWnd
        && (n == |rest| || n == 1400 || old(ledbat.flightSize) + n == ledbat.cwnd.Floor
            || old(ledbat.flightSize) + n == remoteWnd)
      ensures ledbat.flightSize == old(ledbat.flightSize) + if err == NoError then n else 0
    {
      var canSend := EffectiveCanSend();
      if canSend <= 0 {
        return 0, Blocked;
      }
      n := MSS;
      if n > |rest| {
        n := |rest|;
      }
      if n > canSend {
        n := canSend;
      }
      seqNr := Wrap(seqNr + 1);
      sendBuf := sendBuf[seqNr := SentPkt(rest[..n], now, 0)];
      if !ok {
        sendBuf := sendBuf - {seqNr};
        return n, SocketError;
      }
      ledbat.OnSend(n);
      err := NoError;
    }

    /** Splits `b` into chunks that fit the windows. Chunk i goes out at time clock(i); the socket
        takes it if accepts(i). A closed window that does not open before the deadline ends the call.
        Every chunk but the last has the full packet size. */
    method Write(b: bytes, clock: nat -> int, accepts: nat -> bool)
      returns (total: nat, err: WriteError, ghost log: seq<Segment>)
      requires Valid()
      modifies this`seqNr, this`sendBuf, ledbat`flightSize
      ensures Valid()
      ensures total <= |b| && Written(log) == b[..total]
      ensures err == NoError <==> total == |b|
      ensures Sending() == SendChunks(old(Sending()), log, clock)
      ensures ChunksOk(log, accepts, err == SocketError)
      ensures err == Blocked ==> ledbat.flightSize >= ledbat.cwnd.Floor || ledbat.flightSize >= remoteWnd
      ensures ledbat.flightSize == old(ledbat.flightSize) + total
      ensures total > 0 ==> ledbat.flightSize <= ledbat.cwnd.Floor && ledbat.flightSize <= remoteWnd
    {
      hide SendChunk, SendChunks, ChunksOk, FullSize, Written;
      total, err, log := 0, NoError, [];
      NoChunks(Sending(), clock, accepts);
      var i := 0;
      while total < |b|
        invariant Valid()
        invariant total <= |b| && i == |log| && err == NoError
        invariant Written(log) == b[..total] && ChunksOk(log, accepts, false)
        invariant Sending() == SendChunks(old(Sending()), log, clock)
        invariant ledbat.flightSize == old(ledbat.flightSize) + total
        invariant total > 0 ==> ledbat.flightSize <= ledbat.cwnd.Floor && ledbat.flightSize <= remoteWnd
        invariant FullSize(log) || total == |b|
               || ledbat.flightSize == ledbat.cwnd.Floor || ledbat.flightSize == remoteWnd
      {
        var ok := accepts(i);
        var n, e := WriteChunk(b[total..], clock(i), ok);
        err := e;
        if err == Blocked {
          break;
        }
        ghost var p := b[total..][..n];
        MoreChunks(old(Sending()), log, p, ok, clock);
        MoreChunksOk(log, p, accepts);
        log := log + [Segment(p, ok)];
        if err != NoError {
          break;
        }
        PrefixMore(b, total, n);
        total, i := total + n, i + 1;
      }
    }

    /** Drops everything the cumulative ACK covers, visiting the buffer in any order. */
    method RemoveAcked(ack: Seq16)
      modifies this`sendBuf
      ensures Sending() == Acked(old(Sending()), ack)
    {
      hide WrappingGT;
      var todo := sendBuf.Keys;
      while todo != {}
        invariant todo <= sendBuf.Keys <= old(sendBuf).Keys
        invariant forall k :: k in old(sendBuf) ==>
          (k in sendBuf <==> k in todo || !WrappingLEQ(k, ack))
        invariant forall k :: k in sendBuf ==> sendBuf[k] == old(sendBuf)[k]
        decreases todo
      {
        var k :| k in todo;
        todo := todo - {k};
        if WrappingLEQ(k, ack) {
          sendBuf := sendBuf - {k};
        }
      }
    }

    /** An incoming STATE packet. A delay sample, if there is one, is measured against the least live
        sample `base`. */
    method HandleAck(ack: Seq16, wnd: Uint32, tsDiff: Uint32, now: int) returns (ghost base: int)
      requires Valid()
      modifies this`sendBuf, this`remoteWnd, ledbat, ledbat.buckets
      ensures Valid()
      ensures Sending() == Acked(old(Sending()), ack)
      ensures remoteWnd == if wnd < MSS then MSS else wnd
      ensures tsDiff == 0 ==> ledbat.cwnd == old(ledbat.cwnd) && ledbat.flightSize == old(ledbat.flightSize)
      ensures tsDiff != 0 ==>
        && ledbat.history == old(ledbat.history) + [Ledbat.Sample(ledbat.epoch, tsDiff)]
        && Ledbat.IsMin(base, ledbat.history, ledbat.epoch - (Ledbat.BASE_DELAY_BUCKETS - 1), ledbat.epoch)
        && ledbat.cwnd == Ledbat.AckedCwnd(old(ledbat.cwnd), tsDiff - base, MSS)
        && ledbat.flightSize == if old(ledbat.flightSize) < MSS then 0 else old(ledbat.flightSize) - MSS
    {
      UpdateRemoteWnd(wnd);
      base := 0;
      if tsDiff != 0 {
        base := ledbat.OnAck(tsDiff, MSS, now);
      }
      RemoveAcked(ack);
    }

    /** A packet whose timer has run out is sent again, or given up after the last retry. */
    method RetransmitOne(k: Seq16, now: int) returns (sent: bool)
      requires Valid() && k in sendBuf
      modifies this`sendBuf, ledbat`cwnd, ledbat`flightSize
      ensures Valid()
      ensures var p := old(sendBuf)[k];
        && sendBuf == (if Exhausted(p, now, rto) then old(sendBuf) - {k}
                       else old(sendBuf)[k := Retried(p, now, rto)])
        && (now - p.sentAt < rto ==> !sent && sendBuf == old(sendBuf) && ledbat.cwnd == old(ledbat.cwnd))
        && (now - p.sentAt >= rto && p.retries < 4 ==>
              && sent && sendBuf == old(sendBuf)[k := SentPkt(p.payload, now, p.retries + 1)]
              && ledbat.cwnd == 1400.0 && ledbat.flightSize == 0)
        && (now - p.sentAt >= rto && p.retries >= 4 ==>
              && !sent && sendBuf == old(sendBuf) - {k}
              && ledbat.cwnd == Halved(old(ledbat.cwnd), 1))
        && (!sent ==> ledbat.flightSize == old(ledbat.flightSize))
    {
      var p := sendBuf[k];
      sent := false;
      if now - p.sentAt < rto {
        return;
      }
      if p.retries >= MAX_RETRANSMITS {
        sendBuf := sendBuf - {k};
        ledbat.OnLoss();
        return;
      }
      sent := true;
      sendBuf := sendBuf[k := p.(sentAt := now, retries := p.retries + 1)];
      ledbat.OnTimeout();
    }

    /** One tick of the retransmission loop, over the buffer in any order. */
    method RetransmitTick(now: int) returns (resent: set<Seq16>)
      requires Valid()
      modifies this`sendBuf, ledbat`cwnd, ledbat`flightSize
      ensures Valid()
      ensures Sending() == Tick(old(Sending()), now, rto)
      ensures resent == Resent(old(Sending()), now, rto)
      ensures resent == {} ==>
        && ledbat.flightSize == old(ledbat.flightSize)
        && ledbat.cwnd == Halved(old(ledbat.cwnd), |GivenUp(old(Sending()), now, rto)|)
      ensures resent != {} ==>
        && ledbat.flightSize == 0
        && exists n :: 0 <= n <= |GivenUp(old(Sending()), now, rto)| && ledbat.cwnd == Halved(1400.0, n)
    {
      hide Due, Exhausted, Retried, Halved, Ticked, Tick, Resent, GivenUp;
      ghost var was := Sending();
      resent := {};
      ghost var given: set<Seq16>, losses: nat := {}, 0;
      HalvedNone(ledbat.cwnd);
      TickedNone(was, now, rto);
      var todo := sendBuf.Keys;
      while todo != {}
        invariant seqNr == was.seqNr && Valid() && todo <= sendBuf.Keys
        invariant Ticked(was, sendBuf, resent, given, todo, now, rto)
        invariant resent == {} ==>
          ledbat.flightSize == old(ledbat.flightSize) && ledbat.cwnd == Halved(old(ledbat.cwnd), |given|)
        invariant resent != {} ==>
          ledbat.flightSize == 0 && losses <= |given| && ledbat.cwnd == Halved(1400.0, losses)
        decreases todo
      {
        var k :| k in todo;
        TickedOne(was, sendBuf, resent, given, todo, now, rto, k);
        HalvedMore(old(ledbat.cwnd), |given|);
        HalvedMore(1400.0, losses);
        HalvedNone(1400.0);
        var sent := RetransmitOne(k, now);
        todo := todo - {k};
        if sent {
          resent, losses := resent + {k}, 0;
        } else if k !in sendBuf {
          given, losses := given + {k}, losses + 1;
        }
        TickedWithin(was, sendBuf, resent, given, todo, now, rto);
      }
      TickedAll(was, sendBuf, resent, given, now, rto);
    }
  }
}
