/** How often a packet goes out: the write that makes it, and the ticks that send it again. */
module UtpRetries {
  import opened Bytes
  import opened SeqNumbers
  import opened UtpSpec
  import opened UtpRun

  /** When a step puts packet t on the wire. */
  function SendsIn(s: Sys, step: Step, t: nat): seq<int> {
    match step
    case WriteChunk(_, now, ok) => if ok && t == |s.log| then [now] else []
    case RetransmitTick(now, rto) =>
      if Held(s, t) && Wire(s.first, t) in Resent(s.snd, now, rto) then [now] else []
    case _ => []
  }

  /** When the first n steps of a run put packet t on the wire. */
  function SendTimes(trace: seq<Sys>, steps: seq<Step>, n: nat, t: nat): seq<int>
    requires n <= |steps| < |trace|
  {
    if n == 0 then [] else SendTimes(trace, steps, n - 1, t) + SendsIn(trace[n - 1], steps[n - 1], t)
  }

  /** No two sends are less than `rto` apart. */
  predicate Spaced(times: seq<int>, rto: int) {
    forall i :: 0 < i < |times| ==> times[i] - times[i - 1] >= rto
  }

  /** Every tick uses at least this timeout. */
  predicate Patient(steps: seq<Step>, rto: int) {
    forall i :: 0 <= i < |steps| && steps[i].RetransmitTick? ==> steps[i].rto >= rto
  }

  // ---------------------------------------------------------------- one packet

  predicate TimesOk(s: Sys, t: nat, times: seq<int>) {
    && |times| <= 5
    && (t >= |s.log| ==> times == [] && t !in s.abandoned)
    && (t in s.abandoned ==> |times| == 5 && !Held(s, t))
    && (Held(s, t) ==>
         var p := s.snd.sendBuf[Wire(s.first, t)];
         |times| == p.retries + 1 && times[|times| - 1] == p.sentAt)
  }

  lemma WriteTimes(s: Sys, payload: bytes, now: int, ok: bool, t: nat, times: seq<int>)
    requires SendInv(s) && TimesOk(s, t, times)
    ensures var step := WriteChunk(payload, now, ok);
      TimesOk(Apply(s, step), t, times + SendsIn(s, step, t))
  {
    hide Wrap;
    WireStep(s.first, |s.log| - 1);
    if |s.log| - MOD < t < |s.log| {
      NumberIsNew(s, t);
    }
  }

  lemma AckTimes(s: Sys, a: int, t: nat, times: seq<int>)
    requires TimesOk(s, t, times)
    ensures TimesOk(Apply(s, DeliverAck(a)), t, times)
  {
    hide Wrap;
  }

  lemma TickTimes(s: Sys, now: int, rto: int, t: nat, times: seq<int>)
    requires TimesOk(s, t, times)
    ensures var step := RetransmitTick(now, rto);
      TimesOk(Apply(s, step), t, times + SendsIn(s, step, t))
  {
    hide Wrap, Wire;
  }

  /** What one tick does to a held packet, in terms of when it went out before. */
  lemma TickOutcome(s: Sys, now: int, rto: int, t: nat, times: seq<int>)
    requires TimesOk(s, t, times) && Held(s, t)
    ensures 1 <= |times| <= 5
    ensures var s' := Apply(s, RetransmitTick(now, rto));
      var again := SendsIn(s, RetransmitTick(now, rto), t);
      var due := now - times[|times| - 1] >= rto;
      && again == (if due && |times| < 5 then [now] else [])
      && (due && |times| == 5 ==> !Held(s', t) && t in s'.abandoned)
      && (!due || |times| < 5 ==>
            && Held(s', t) && (t in s'.abandoned <==> t in s.abandoned)
            && s'.snd.sendBuf[Wire(s.first, t)].payload == s.snd.sendBuf[Wire(s.first, t)].payload)
  {
    hide Wrap, Wire;
  }

  lemma StepTimes(s: Sys, step: Step, t: nat, times: seq<int>)
    requires SendInv(s) && TimesOk(s, t, times)
    ensures TimesOk(Apply(s, step), t, times + SendsIn(s, step, t))
  {
    match step
    case WriteChunk(payload, now, ok) => WriteTimes(s, payload, now, ok, t, times);
    case DeliverAck(a) => AckTimes(s, a, t, times);
    case RetransmitTick(now, rto) => TickTimes(s, now, rto, t, times);
    case DeliverData(_) =>
    case SendAck =>
  }

  lemma StepSpaced(s: Sys, step: Step, t: nat, times: seq<int>, rto: int)
    requires TimesOk(s, t, times) && Spaced(times, rto) && (step.RetransmitTick? ==> step.rto >= rto)
    ensures Spaced(times + SendsIn(s, step, t), rto)
  {
    var all := times + SendsIn(s, step, t);
    if step.RetransmitTick? && Held(s, t) {
      TickOutcome(s, step.now, step.rto, t, times);
    }
    assert forall i :: 0 <= i < |times| ==> all[i] == times[i];
  }

  // --------------------------------------------------------------------- runs

  lemma {:induction false} RunTimes(trace: seq<Sys>, steps: seq<Step>, n: nat, t: nat)
    requires Run(trace, steps) && n < |trace|
    ensures TimesOk(trace[n], t, SendTimes(trace, steps, n, t))
  {
    hide TimesOk, SendsIn, Inv, Apply;
    if n == 0 {
      FirstTimes(trace[0], t);
    } else {
      RunTimes(trace, steps, n - 1, t);
      RunKeeps(trace, steps, n - 1);
      InvSends(trace[n - 1]);
      assert StepAt(trace, steps, n - 1);
      StepTimes(trace[n - 1], steps[n - 1], t, SendTimes(trace, steps, n - 1, t));
    }
    assert TimesOk(trace[n], t, SendTimes(trace, steps, n, t));
  }

  lemma FirstTimes(s: Sys, t: nat)
    requires Init(s)
    ensures TimesOk(s, t, [])
  {
  }

  lemma InvSends(s: Sys)
    requires Inv(s)
    ensures SendInv(s)
  {
  }

  /** In every run each packet goes out at most five times, no two times less than the timeout apart. */
  lemma {:induction false} SendsAreSpaced(trace: seq<Sys>, steps: seq<Step>, n: nat, t: nat, rto: int)
    requires Run(trace, steps) && n < |trace| && Patient(steps, rto)
    ensures |SendTimes(trace, steps, n, t)| <= 5 && Spaced(SendTimes(trace, steps, n, t), rto)
  {
    RunTimes(trace, steps, n, t);
    hide SendsIn, Run;
    if n > 0 {
      SendsAreSpaced(trace, steps, n - 1, t, rto);
      RunTimes(trace, steps, n - 1, t);
      StepSpaced(trace[n - 1], steps[n - 1], t, SendTimes(trace, steps, n - 1, t), rto);
    }
  }

  /** In every run a packet is given up only after it went out five times: when it was written, and four
      times more at ticks at least a timeout apart. */
  lemma GivenUpAfterFourMore(trace: seq<Sys>, steps: seq<Step>, n: nat, t: nat, rto: int)
    requires Run(trace, steps) && n < |trace| && Patient(steps, rto)
    ensures t in trace[n].abandoned ==>
      |SendTimes(trace, steps, n, t)| == 1 + 4 && Spaced(SendTimes(trace, steps, n, t), rto)
  {
    RunTimes(trace, steps, n, t);
    SendsAreSpaced(trace, steps, n, t, rto);
  }

  /** In every run a tick sends a held packet again exactly when the timeout has passed since it last went
      out and it has gone out fewer than five times, and then keeps it with its payload; it gives the
      packet up exactly when the timeout has passed after the fifth. */
  lemma TickSendsOrGivesUp(trace: seq<Sys>, steps: seq<Step>, i: nat, t: nat)
    requires Run(trace, steps) && i < |steps| && steps[i].RetransmitTick? && Held(trace[i], t)
    ensures var times, times' := SendTimes(trace, steps, i, t), SendTimes(trace, steps, i + 1, t);
      && 1 <= |times| <= 5
      && var due := steps[i].now - times[|times| - 1] >= steps[i].rto;
         && times' == (if due && |times| < 5 then times + [steps[i].now] else times)
         && (t in trace[i + 1].abandoned <==> due && |times| == 5)
         && (Held(trace[i + 1], t) <==> !(due && |times| == 5))
         && (Held(trace[i + 1], t) ==>
               trace[i + 1].snd.sendBuf[Wire(trace[i + 1].first, t)].payload == trace[i].log[t].payload)
  {
    var s := trace[i];
    var times := SendTimes(trace, steps, i, t);
    RunTimes(trace, steps, i, t);
    RunKeeps(trace, steps, i);
    assert StepAt(trace, steps, i);
    TickOutcome(s, steps[i].now, steps[i].rto, t, times);
    HeldAge(s, t);
    assert trace[i + 1].first == s.first && t !in s.abandoned;
    hide *;
    assert times + [] == times;
  }

  /** In every run each packet that Write reported as sent has been accepted in order, or is still in the
      retransmit buffer with its payload, or was given up after going out five times. */
  lemma NothingWrittenIsLost(trace: seq<Sys>, steps: seq<Step>, n: nat, t: nat, rto: int)
    requires Run(trace, steps) && n < |trace| && Patient(steps, rto)
    requires t < |trace[n].log| && trace[n].log[t].sent
    ensures var s := trace[n];
      || t < s.next
      || (var k := Wire(s.first, t); k in s.snd.sendBuf && s.snd.sendBuf[k].payload == s.log[t].payload)
      || (t in s.abandoned
          && |SendTimes(trace, steps, n, t)| == 1 + 4 && Spaced(SendTimes(trace, steps, n, t), rto))
  {
    hide Wrap;
    RunKeeps(trace, steps, n);
    GivenUpAfterFourMore(trace, steps, n, t, rto);
    if Held(trace[n], t) {
      HeldAge(trace[n], t);
    }
  }
}
