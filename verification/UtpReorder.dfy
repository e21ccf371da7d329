/** What the receiver keeps of the packets that come early. */
module UtpReorder {
  import opened Bytes
  import opened SeqNumbers
  import opened UtpSpec
  import opened UtpRun

  /** Packet t has come early and waits in the reorder buffer. */
  predicate Buffered(s: Sys, t: int) {
    s.next < t < s.next + HALF && Wire(s.first, t) in s.rcv.reorderBuf
  }

  lemma NumbersDiffer(first: Seq16, a: int, b: int)
    requires 0 < b - a < MOD
    ensures Wire(first, a) != Wire(first, b)
  {
    WireOrder(first, b, a);
    WrapSmall(b - a);
  }

  /** Draining takes out consecutive packets from `next` on, stops at the first that is missing and
      leaves all the others. */
  lemma {:induction false} DrainTakesRun(first: Seq16, next: nat, buf: map<Seq16, bytes>, t: nat)
    ensures var n := next + DrainCount(Wire(first, next), buf);
      && (next <= t < n ==> Wire(first, t) in buf)
      && (n <= t < next + MOD ==> (Wire(first, t) in buf <==> Wire(first, t) in Drain(Wire(first, next), buf).rest))
      && Wire(first, n) !in Drain(Wire(first, next), buf).rest
    decreases buf.Keys
  {
    hide Wrap, Wire, Drain, DrainCount;
    var ne := Wire(first, next);
    DrainWire(first, next, buf);
    if ne in buf {
      RemoveOne(buf, ne);
      DrainTakesRun(first, next + 1, buf - {ne}, t);
      if next < t < next + MOD {
        NumbersDiffer(first, next, t);
      }
    }
    var n := next + DrainCount(ne, buf);
    assert next <= t < n ==> Wire(first, t) in buf;
    assert n <= t < next + MOD ==> (Wire(first, t) in buf <==> Wire(first, t) in Drain(ne, buf).rest);
    assert Wire(first, n) !in Drain(ne, buf).rest;
  }

  /** Where the receiver stands after the number it waits for. */
  lemma NextAfter(s: Sys, u: nat) returns (n: nat)
    requires RecvInv(s) && s.next < |s.log| && u < |s.log| && Wire(s.first, u) == s.rcv.nextExpected
    ensures n == s.next + 1 + DrainCount(Wire(s.first, s.next + 1), s.rcv.reorderBuf) <= s.next + 65
    ensures Deliver1(s, u).next == n
    ensures Deliver1(s, u).rcv.reorderBuf == Drain(Wire(s.first, s.next + 1), s.rcv.reorderBuf).rest
  {
    hide Wrap, BufOk, Drain, DrainCount, Sent, Payloads, Wire, Ahead;
    BufBehind(s);
    DrainCounts(s, s.next + 1, s.rcv.reorderBuf);
    n := s.next + 1 + DrainCount(Wire(s.first, s.next + 1), s.rcv.reorderBuf);
    WireStep(s.first, s.next);
    StepsAhead(s.first, s.next, n);
  }

  /** A packet that comes in, whichever it is, drives nothing out of the reorder buffer but into the
      hands of the reader. */
  lemma DeliverKeepsBuffered(s: Sys, u: nat, t: nat)
    requires RecvInv(s) && u < |s.log| && Buffered(s, t)
    ensures Buffered(Deliver1(s, u), t) || t < Deliver1(s, u).next
  {
    BufferedIsWritten(s, t);
    var s' := Deliver1(s, u);
    if Wire(s.first, u) == s.rcv.nextExpected {
      var n := NextAfter(s, u);
      hide *;
      DrainedKeepsBuffered(s, s', t);
    } else {
      EarlyOrOld(s, u);
      hide Wrap, RecvInv, Deliver1;
      assert Buffered(s', t);
    }
    hide RecvInv, Deliver1, Buffered;
    assert Buffered(s', t) || t < s'.next;
  }

  lemma DrainedKeepsBuffered(s: Sys, s': Sys, t: nat)
    requires Buffered(s, t) && s'.first == s.first
    requires s'.next == s.next + 1 + DrainCount(Wire(s.first, s.next + 1), s.rcv.reorderBuf)
    requires s'.rcv.reorderBuf == Drain(Wire(s.first, s.next + 1), s.rcv.reorderBuf).rest
    ensures Buffered(s', t) || t < s'.next
  {
    hide Wrap, Wire, Drain, DrainCount;
    DrainTakesRun(s.first, s.next + 1, s.rcv.reorderBuf, t);
    assert Buffered(s', t) || t < s'.next;
  }

  lemma BufferedIsWritten(s: Sys, t: nat)
    requires RecvInv(s) && Buffered(s, t)
    ensures s.next < t < |s.log| && s.rcv.inited && s.rcv.nextExpected == Wire(s.first, s.next)
  {
    hide Wrap;
    AheadOfWire(s.first, t, s.next);
    WrapSmall(t - s.next);
  }

  /** A packet that is not the one waited for is buffered if it is ahead and there is room. */
  lemma EarlyOrOld(s: Sys, u: nat)
    requires s.rcv.inited && u < |s.log| && Wire(s.first, u) != s.rcv.nextExpected
    ensures Deliver1(s, u).next == s.next && Deliver1(s, u).first == s.first
    ensures Deliver1(s, u).rcv.reorderBuf ==
      if WrappingGT(Wire(s.first, u), s.rcv.nextExpected) && |s.rcv.reorderBuf| < 64
      then s.rcv.reorderBuf[Wire(s.first, u) := s.log[u].payload] else s.rcv.reorderBuf
  {
    AheadZero(s.rcv.nextExpected, s.rcv.nextExpected);
  }

  // --------------------------------------------------------------------- runs

  lemma RecvHolds(trace: seq<Sys>, steps: seq<Step>, i: nat)
    requires Run(trace, steps) && i < |steps|
    ensures RecvInv(trace[i]) && Enabled(trace[i], steps[i]) && trace[i + 1] == Apply(trace[i], steps[i])
  {
    RunKeeps(trace, steps, i);
    assert StepAt(trace, steps, i);
  }

  /** In every run a packet that came early stays buffered until it is handed on. */
  lemma KeptUntilHandedOn(trace: seq<Sys>, steps: seq<Step>, i: nat, t: nat)
    requires Run(trace, steps) && i < |steps| && Buffered(trace[i], t)
    ensures Buffered(trace[i + 1], t) || t < trace[i + 1].next
  {
    RecvHolds(trace, steps, i);
    hide RecvInv, Wrap, Wire, Deliver1, Run;
    match steps[i]
    case DeliverData(u) => DeliverKeepsBuffered(trace[i], u, t);
    case _ =>
  }

  /** In every run a packet that comes less than 2^15 early is buffered if fewer than 64 are. */
  lemma EarlyIsBuffered(trace: seq<Sys>, steps: seq<Step>, i: nat)
    requires Run(trace, steps) && i < |steps| && steps[i].DeliverData?
    requires trace[i].next < steps[i].t < trace[i].next + HALF && |trace[i].rcv.reorderBuf| < 64
    ensures Buffered(trace[i + 1], steps[i].t)
  {
    RecvHolds(trace, steps, i);
    var s, t := trace[i], steps[i].t;
    assert s.rcv.inited && s.rcv.nextExpected == Wire(s.first, s.next);
    hide RecvInv, Wrap, Run;
    OrderInsideWindow(s.first, t, s.next);
    EarlyOrOld(s, t);
  }

  /** In every run, when the packet waited for comes, the receiver moves on to the first packet after it
      that has not come early. */
  lemma GapCloses(trace: seq<Sys>, steps: seq<Step>, i: nat, m: nat)
    requires Run(trace, steps) && i < |steps| && steps[i] == DeliverData(trace[i].next)
    ensures var next, next' := trace[i].next, trace[i + 1].next;
      && next < next' <= next + 65
      && (next < m < next' ==> Buffered(trace[i], m))
      && !Buffered(trace[i], next')
  {
    RecvHolds(trace, steps, i);
    GapClosesAt(trace[i], m);
  }

  lemma GapClosesAt(s: Sys, m: nat)
    requires RecvInv(s) && s.next < |s.log|
    ensures var next' := Deliver1(s, s.next).next;
      && s.next < next' <= s.next + 65
      && (s.next < m < next' ==> Buffered(s, m))
      && !Buffered(s, next')
  {
    var n := NextAfter(s, s.next);
    FirstMissing(s, n, m);
    hide *;
  }

  lemma FirstMissing(s: Sys, n: nat, m: nat)
    requires n == s.next + 1 + DrainCount(Wire(s.first, s.next + 1), s.rcv.reorderBuf) <= s.next + 65
    ensures s.next < m < n ==> Buffered(s, m)
    ensures !Buffered(s, n)
  {
    hide Wrap, Wire, Drain, DrainCount;
    DrainTakesRun(s.first, s.next + 1, s.rcv.reorderBuf, m);
    DrainTakesRun(s.first, s.next + 1, s.rcv.reorderBuf, n);
    assert s.next < m < n ==> Buffered(s, m);
    assert !Buffered(s, n);
  }
}
