/** The LEDBAT congestion window (section 2.4.2 of RFC 6817), over real numbers and with time as
    an input. */
module Ledbat {

  const TARGET_DELAY: int := 100_000
  const MAX_CWND: real := 1048576.0
  const MIN_CWND: real := 150.0
  const MSS: int := 1400
  const BASE_DELAY_BUCKETS: int := 8
  const BUCKET_INTERVAL: int := 30_000_000
  const MAX_INT64: int := 0x7FFF_FFFF_FFFF_FFFF

  /** A one-way delay in microseconds; it comes from a 32-bit header field. */
  type Delay = x: int | 0 <= x < 0x1_0000_0000

  predicate CwndOk(cwnd: real) {
    MIN_CWND <= cwnd <= MAX_CWND
  }

  function Clamp(cwnd: real): real {
    var low := if cwnd < MIN_CWND then MIN_CWND else cwnd;
    if low > MAX_CWND then MAX_CWND else low
  }

  /** How far an ACK for `acked` bytes moves the window. */
  function Gain(acked: real, offTarget: real, cwnd: real): real
    requires cwnd > 0.0
  {
    acked * offTarget / cwnd * MSS as real
  }

  /** The window after an ACK that saw `queuingDelay`. */
  function AckedCwnd(cwnd: real, queuingDelay: int, ackedBytes: int): real
    requires cwnd > 0.0
  {
    var offTarget := (TARGET_DELAY - queuingDelay) as real / TARGET_DELAY as real;
    Clamp(cwnd + Gain(ackedBytes as real, offTarget, cwnd))
  }

  lemma ScaleMono(a: real, x: real, y: real)
    requires a >= 0.0 && x <= y
    ensures a * x <= a * y
  {
  }

  lemma DivMono(x: real, y: real, c: real)
    requires c > 0.0 && x <= y
    ensures x / c <= y / c
  {
  }

  lemma OffTarget(queuingDelay: int)
    requires 0 <= queuingDelay
    ensures var off := (TARGET_DELAY - queuingDelay) as real / TARGET_DELAY as real;
      && off <= 1.0
      && (queuingDelay <= TARGET_DELAY ==> 0.0 <= off)
      && (queuingDelay >= TARGET_DELAY ==> off <= 0.0)
  {
  }

  lemma GainAtMost(acked: real, off: real, cwnd: real)
    requires acked >= 0.0 && off <= 1.0 && cwnd > 0.0
    ensures Gain(acked, off, cwnd) <= Gain(acked, 1.0, cwnd)
  {
    ScaleMono(acked, off, 1.0);
    DivMono(acked * off, acked * 1.0, cwnd);
  }

  lemma FullGain(acked: real, cwnd: real)
    requires cwnd > 0.0
    ensures Gain(acked, 1.0, cwnd) == acked * MSS as real / cwnd
  {
    var per := acked / cwnd;
    assert acked == per * cwnd;
  }

  lemma GainSign(acked: real, off: real, cwnd: real)
    requires acked >= 0.0 && cwnd > 0.0
    ensures off >= 0.0 ==> Gain(acked, off, cwnd) >= 0.0
    ensures off <= 0.0 ==> Gain(acked, off, cwnd) <= 0.0
  {
    if off >= 0.0 {
      ScaleMono(acked, 0.0, off);
      DivMono(0.0, acked * off, cwnd);
    }
    if off <= 0.0 {
      ScaleMono(acked, off, 0.0);
      DivMono(acked * off, 0.0, cwnd);
    }
  }

  lemma GainTimesWindow(acked: real, off: real, cwnd: real)
    requires cwnd > 0.0
    ensures Gain(acked, off, cwnd) * cwnd == acked * off * 1400.0
  {
    var share := acked * off / cwnd;
    assert share * cwnd == acked * off;
    SwapFactors(share, 1400.0, cwnd);
  }

  lemma SwapFactors(a: real, b: real, c: real)
    ensures a * b * c == a * c * b
  {
  }

  lemma OffTargetTimes(acked: real, queuingDelay: int)
    ensures var off := (TARGET_DELAY - queuingDelay) as real / TARGET_DELAY as real;
      acked * off * 1400.0 * 100_000.0 == acked * (100_000 - queuingDelay) as real * 1400.0
  {
    var off := (TARGET_DELAY - queuingDelay) as real / TARGET_DELAY as real;
    assert off * 100_000.0 == (100_000 - queuingDelay) as real;
    SwapFactors(acked * off, 1400.0, 100_000.0);
    MoveFactor(acked, off, 100_000.0);
  }

  lemma MoveFactor(a: real, b: real, c: real)
    ensures a * b * c == a * (b * c)
  {
  }

  /** The window an ACK leads to, before the bounds: `(w - cwnd) * cwnd * 100_000` is the acked bytes
      times the distance from the target delay times 1400. */
  ghost predicate Unbounded(w: real, cwnd: real, queuingDelay: int, ackedBytes: int) {
    (w - cwnd) * cwnd * 100_000.0 == ackedBytes as real * (100_000 - queuingDelay) as real * 1400.0
  }

  /** Only one window meets the equation. */
  lemma UnboundedOnce(w: real, v: real, cwnd: real, queuingDelay: int, ackedBytes: int)
    requires cwnd > 0.0
    requires Unbounded(w, cwnd, queuingDelay, ackedBytes) && Unbounded(v, cwnd, queuingDelay, ackedBytes)
    ensures w == v
  {
    CancelFactor(w - cwnd, v - cwnd, cwnd);
  }

  lemma CancelFactor(x: real, y: real, c: real)
    requires c > 0.0 && x * c == y * c
    ensures x == y
  {
    assert x == x * c / c && y == y * c / c;
  }

  /** What one ACK does, exactly: the window that meets the equation, or the bound it lies beyond. */
  lemma AckedExactly(cwnd: real, queuingDelay: int, ackedBytes: int) returns (w: real)
    requires cwnd > 0.0
    ensures Unbounded(w, cwnd, queuingDelay, ackedBytes)
    ensures AckedCwnd(cwnd, queuingDelay, ackedBytes)
         == if w < 150.0 then 150.0 else if w > 1048576.0 then 1048576.0 else w
  {
    var off := (TARGET_DELAY - queuingDelay) as real / TARGET_DELAY as real;
    var acked := ackedBytes as real;
    w := cwnd + Gain(acked, off, cwnd);
    GainTimesWindow(acked, off, cwnd);
    OffTargetTimes(acked, queuingDelay);
  }

  /** A longer queuing delay gives a strictly smaller window, unless both end on the same bound. */
  lemma LessDelayMoreWindow(cwnd: real, shorter: int, longer: int, ackedBytes: int)
    requires CwndOk(cwnd) && shorter < longer && 0 < ackedBytes
    ensures var a, b := AckedCwnd(cwnd, shorter, ackedBytes), AckedCwnd(cwnd, longer, ackedBytes);
      a > b || a == b == 150.0 || a == b == 1048576.0
  {
    var v := AckedExactly(cwnd, shorter, ackedBytes);
    var w := AckedExactly(cwnd, longer, ackedBytes);
    hide AckedCwnd;
    ScaleStrict(ackedBytes as real, (100_000 - longer) as real, (100_000 - shorter) as real);
    ScaledLess((w - cwnd) * cwnd, (v - cwnd) * cwnd,
               ackedBytes as real * (100_000 - longer) as real, ackedBytes as real * (100_000 - shorter) as real);
    CancelLess(w - cwnd, v - cwnd, cwnd);
  }

  lemma ScaleStrict(a: real, x: real, y: real)
    requires a > 0.0 && x < y
    ensures a * x < a * y
  {
  }

  lemma ScaledLess(x: real, y: real, p: real, q: real)
    requires x * 100_000.0 == p * 1400.0 && y * 100_000.0 == q * 1400.0 && p < q
    ensures x < y
  {
  }

  lemma CancelLess(x: real, y: real, c: real)
    requires c > 0.0 && x * c < y * c
    ensures x < y
  {
    if x >= y {
      ScaleMono(c, y, x);
    }
  }

  /** Below the target delay the window grows, above it shrinks, at it nothing changes. */
  lemma StrictlyTowardsTarget(cwnd: real, queuingDelay: int, ackedBytes: int)
    requires CwndOk(cwnd) && 0 < ackedBytes
    ensures var r := AckedCwnd(cwnd, queuingDelay, ackedBytes);
      && (queuingDelay < 100_000 && cwnd < 1048576.0 ==> r > cwnd)
      && (queuingDelay > 100_000 && cwnd > 150.0 ==> r < cwnd)
      && (queuingDelay == 100_000 ==> r == cwnd)
  {
    var at := AckedExactly(cwnd, 100_000, ackedBytes);
    assert at == cwnd by { UnboundedOnce(at, cwnd, cwnd, 100_000, ackedBytes); }
    if queuingDelay < 100_000 {
      LessDelayMoreWindow(cwnd, queuingDelay, 100_000, ackedBytes);
    } else if queuingDelay > 100_000 {
      LessDelayMoreWindow(cwnd, 100_000, queuingDelay, ackedBytes);
    }
  }

  /** One ACK keeps the window in bounds, grows it by at most ackedBytes*MSS/cwnd, never raises it
      above the target delay and never lowers it below. */
  lemma AckMovesTowardsTarget(cwnd: real, queuingDelay: int, ackedBytes: int)
    requires CwndOk(cwnd) && 0 <= queuingDelay && 0 <= ackedBytes
    ensures CwndOk(AckedCwnd(cwnd, queuingDelay, ackedBytes))
    ensures AckedCwnd(cwnd, queuingDelay, ackedBytes) <= cwnd + ackedBytes as real * MSS as real / cwnd
    ensures queuingDelay <= TARGET_DELAY ==> AckedCwnd(cwnd, queuingDelay, ackedBytes) >= cwnd
    ensures queuingDelay >= TARGET_DELAY ==> AckedCwnd(cwnd, queuingDelay, ackedBytes) <= cwnd
  {
    var off := (TARGET_DELAY - queuingDelay) as real / TARGET_DELAY as real;
    var acked := ackedBytes as real;
    OffTarget(queuingDelay);
    GainAtMost(acked, off, cwnd);
    GainSign(acked, off, cwnd);
    GainSign(acked, 1.0, cwnd);
    FullGain(acked, cwnd);
    hide Gain;
    var after := AckedCwnd(cwnd, queuingDelay, ackedBytes);
    assert after <= cwnd + acked * MSS as real / cwnd;
    assert queuingDelay <= TARGET_DELAY ==> after >= cwnd;
    assert queuingDelay >= TARGET_DELAY ==> after <= cwnd;
  }

  // --------------------------------------------------------------- base delay

  /** A delay sample and the rotation during which it arrived. */
  datatype Sample = Sample(epoch: int, delay: Delay)

  /** `m` is the least delay of the samples with an epoch in [lo, hi], or MAX_INT64 if there are none. */
  ghost predicate IsMin(m: int, history: seq<Sample>, lo: int, hi: int) {
    && (forall s :: s in history && lo <= s.epoch <= hi ==> m <= s.delay)
    && (m == MAX_INT64 || exists s :: s in history && lo <= s.epoch <= hi && m == s.delay)
  }

  /** The last epoch, up to `epoch`, whose samples bucket b holds. */
  function EpochOf(epoch: nat, b: int): int {
    epoch - (epoch - b) % BASE_DELAY_BUCKETS
  }

  lemma EpochOfIsLast(epoch: nat, b: int, e: int)
    requires 0 <= b < BASE_DELAY_BUCKETS
    ensures EpochOf(epoch, b) == e <==>
      epoch - BASE_DELAY_BUCKETS < e <= epoch && e % BASE_DELAY_BUCKETS == b
  {
  }

  lemma EpochOfNext(epoch: nat, b: int)
    requires 0 <= b < BASE_DELAY_BUCKETS
    ensures b == (epoch + 1) % BASE_DELAY_BUCKETS ==> EpochOf(epoch + 1, b) == epoch + 1
    ensures b != (epoch + 1) % BASE_DELAY_BUCKETS ==> EpochOf(epoch + 1, b) == EpochOf(epoch, b)
  {
    EpochOfIsLast(epoch + 1, b, epoch + 1);
    EpochOfIsLast(epoch, b, EpochOf(epoch, b));
    EpochOfIsLast(epoch + 1, b, EpochOf(epoch, b));
  }

  lemma NoSamplesYet(history: seq<Sample>, epoch: int)
    requires forall s :: s in history ==> s.epoch < epoch
    ensures IsMin(MAX_INT64, history, epoch, epoch)
  {
  }

  class Controller {
    var cwnd: real
    var flightSize: int
    const buckets: array<int>
    var currentBkt: int
    var lastRotate: int
    /** The number of rotations so far, and every sample ever seen. */
    ghost var epoch: nat
    ghost var history: seq<Sample>

    ghost predicate Valid()
      reads this, buckets
    {
      && CwndOk(cwnd) && 0 <= flightSize
      && buckets.Length == BASE_DELAY_BUCKETS
      && currentBkt == epoch % BASE_DELAY_BUCKETS
      && (forall s :: s in history ==> 0 <= s.epoch <= epoch)
      && (forall b :: 0 <= b < BASE_DELAY_BUCKETS ==>
           IsMin(buckets[b], history, EpochOf(epoch, b), EpochOf(epoch, b)))
    }

    constructor (now: int)
      ensures Valid() && fresh(buckets)
      ensures cwnd == 2800.0 && flightSize == 0 && lastRotate == now
      ensures epoch == 0 && history == []
    {
      cwnd := MSS as real * 2.0;
      flightSize := 0;
      buckets := new int[BASE_DELAY_BUCKETS](_ => MAX_INT64);
      currentBkt := 0;
      lastRotate := now;
      epoch := 0;
      history := [];
    }

    /** Starts the next bucket when the interval is over, which forgets the oldest one. */
    method RotateBuckets(now: int)
      requires Valid()
      modifies this`currentBkt, this`lastRotate, this`epoch, buckets
      ensures Valid()
      ensures epoch == if now - old(lastRotate) < BUCKET_INTERVAL then old(epoch) else old(epoch) + 1
      ensures lastRotate == if now - old(lastRotate) < BUCKET_INTERVAL then old(lastRotate) else now
    {
      hide EpochOf;
      if now - lastRotate < BUCKET_INTERVAL {
        return;
      }
      currentBkt := (currentBkt + 1) % BASE_DELAY_BUCKETS;
      buckets[currentBkt] := MAX_INT64;
      lastRotate := now;
      ghost var was := epoch;
      epoch := epoch + 1;
      forall b | 0 <= b < BASE_DELAY_BUCKETS
        ensures IsMin(buckets[b], history, EpochOf(epoch, b), EpochOf(epoch, b))
      {
        EpochOfNext(was, b);
        assert IsMin(old(buckets[b]), history, EpochOf(was, b), EpochOf(was, b));
        if b == currentBkt {
          NoSamplesYet(history, epoch);
        }
      }
    }

    /** The least delay among all samples that have not been rotated out. */
    method GetBaseDelay() returns (min: int)
      requires Valid()
      ensures IsMin(min, history, epoch - (BASE_DELAY_BUCKETS - 1), epoch)
    {
      hide EpochOf;
      min := MAX_INT64;
      for i := 0 to buckets.Length
        invariant min <= MAX_INT64
        invariant forall b :: 0 <= b < i ==> min <= buckets[b]
        invariant min == MAX_INT64 || exists b :: 0 <= b < i && min == buckets[b]
      {
        if buckets[i] < min {
          min := buckets[i];
        }
      }
      if b :| 0 <= b < BASE_DELAY_BUCKETS && min == buckets[b] && min != MAX_INT64 {
        EpochOfIsLast(epoch, b, EpochOf(epoch, b));
        assert IsMin(min, history, EpochOf(epoch, b), EpochOf(epoch, b));
      }
      forall s | s in history && epoch - (BASE_DELAY_BUCKETS - 1) <= s.epoch <= epoch
        ensures min <= s.delay
      {
        var b := s.epoch % BASE_DELAY_BUCKETS;
        EpochOfIsLast(epoch, b, s.epoch);
        assert IsMin(buckets[b], history, s.epoch, s.epoch);
      }
    }

    /** Records a sample in the current bucket. */
    method Observe(delay: Delay)
      requires Valid()
      modifies this`history, buckets
      ensures Valid()
      ensures history == old(history) + [Sample(epoch, delay)]
    {
      ghost var was := history;
      EpochOfIsLast(epoch, currentBkt, epoch);
      assert IsMin(buckets[currentBkt], history, epoch, epoch);
      if delay < buckets[currentBkt] {
        buckets[currentBkt] := delay;
      }
      history := history + [Sample(epoch, delay)];
      assert forall s :: s in history <==> s in was || s == Sample(epoch, delay);
      forall b | 0 <= b < BASE_DELAY_BUCKETS
        ensures IsMin(buckets[b], history, EpochOf(epoch, b), EpochOf(epoch, b))
      {
        assert IsMin(old(buckets[b]), was, EpochOf(epoch, b), EpochOf(epoch, b));
        if b == currentBkt {
          assert Sample(epoch, delay) in history;
        } else {
          EpochOfIsLast(epoch, b, epoch);
        }
      }
    }

    /** An ACK: the sample is part of the base delay, so the queuing delay is the excess over the
        least live sample and never negative. */
    method OnAck(delay: Delay, ackedBytes: int, now: int) returns (ghost base: int)
      requires Valid() && 0 <= ackedBytes
      modifies this`cwnd, this`flightSize, this`currentBkt, this`lastRotate, this`epoch, this`history, buckets
      ensures Valid()
      ensures epoch == if now - old(lastRotate) < BUCKET_INTERVAL then old(epoch) else old(epoch) + 1
      ensures history == old(history) + [Sample(epoch, delay)]
      ensures IsMin(base, history, epoch - (BASE_DELAY_BUCKETS - 1), epoch) && 0 <= base <= delay
      ensures lastRotate == if now - old(lastRotate) < BUCKET_INTERVAL then old(lastRotate) else now
      ensures cwnd == AckedCwnd(old(cwnd), delay - base, ackedBytes)
      ensures 150.0 < cwnd < 1048576.0 ==> Unbounded(cwnd, old(cwnd), delay - base, ackedBytes)
      ensures flightSize == if old(flightSize) < ackedBytes then 0 else old(flightSize) - ackedBytes
    {
      RotateBuckets(now);
      Observe(delay);
      var least := GetBaseDelay();
      base := least;
      assert Sample(epoch, delay) in history;
      var queuingDelay := 0;
      if least != MAX_INT64 {
        queuingDelay := delay - least;
        if queuingDelay < 0 {
          queuingDelay := 0;
        }
      }
      AckMovesTowardsTarget(cwnd, queuingDelay, ackedBytes);
      ghost var w := AckedExactly(cwnd, queuingDelay, ackedBytes);
      hide AckedCwnd, Unbounded;
      cwnd := AckedCwnd(cwnd, queuingDelay, ackedBytes);
      flightSize := flightSize - ackedBytes;
      if flightSize < 0 {
        flightSize := 0;
      }
    }

    method OnLoss()
      requires Valid()
      modifies this`cwnd
      ensures Valid()
      ensures cwnd == if old(cwnd) < 300.0 then 150.0 else old(cwnd) / 2.0
    {
      cwnd := cwnd / 2.0;
      if cwnd < MIN_CWND {
        cwnd := MIN_CWND;
      }
    }

    method OnTimeout()
      requires Valid()
      modifies this`cwnd, this`flightSize
      ensures Valid() && cwnd == 1400.0 && flightSize == 0
    {
      cwnd := MSS as real;
      flightSize := 0;
    }

    method OnSend(bytes: nat)
      requires Valid()
      modifies this`flightSize
      ensures Valid() && flightSize == old(flightSize) + bytes
    {
      flightSize := flightSize + bytes;
    }

    /** The bytes the congestion window still has room for. */
    method CanSend() returns (avail: nat)
      requires Valid()
      ensures avail > 0 ==> flightSize + avail == cwnd.Floor
      ensures avail == 0 ==> flightSize >= cwnd.Floor
    {
      var room := cwnd.Floor - flightSize;
      avail := if room < 0 then 0 else room;
    }
  }
}
