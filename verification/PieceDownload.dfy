/** Downloading one piece from one peer: a window of block requests kept full while answers arrive in
    any order. */
module PieceDownload {
  import opened Bytes

  const BLOCK_SIZE: nat := 16384
  const MAX_UNEXPECTED_MESSAGES: nat := 100
  const DEFAULT_MAX_PIPELINE: int := 16
  const DEFAULT_PIPELINE_MIN: int := 4
  const DEFAULT_PIPELINE_MAX: int := 256
  const DEFAULT_PIPELINE_WINDOW_SECS: int := 3

  // ------------------------------------------------------------ pipeline depth

  /** The value of a product in 64-bit two's complement. */
  function Wrap64(x: int): int {
    (x + 0x8000_0000_0000_0000) % 0x1_0000_0000_0000_0000 - 0x8000_0000_0000_0000
  }

  /** Division that truncates toward zero. */
  function TruncDiv(a: int, b: int): int
    requires b > 0
  {
    if a >= 0 then a / b else -((-a) / b)
  }

  /** The number of requests that covers `windowSecs` seconds at the observed rate, within bounds. */
  function TargetFor(downRate: int, windowSecs: int, minP: int, maxP: int): (target: int)
    ensures 1 <= target
    ensures var lo := if minP < 1 then 1 else minP; lo <= target <= if maxP < lo then lo else maxP
    ensures var window := if windowSecs <= 0 then 3 else windowSecs;
      var lo := if minP < 1 then 1 else minP;
      0 <= downRate && downRate * window < 0x8000_0000_0000_0000 && lo < target < maxP ==>
        target * 16384 <= downRate * window < (target + 1) * 16384
    ensures var window := if windowSecs <= 0 then 3 else windowSecs;
      var lo := if minP < 1 then 1 else minP;
      0 <= downRate && downRate * window < 0x8000_0000_0000_0000 ==>
        && (target == lo < maxP ==> downRate * window < (lo + 1) * 16384)
        && (target == maxP > lo ==> maxP * 16384 <= downRate * window)
  {
    var window := if windowSecs <= 0 then DEFAULT_PIPELINE_WINDOW_SECS else windowSecs;
    var lo := if minP < 1 then 1 else minP;
    var hi := if maxP < lo then lo else maxP;
    var rate := if downRate < 0 then 0 else downRate;
    var target := TruncDiv(Wrap64(rate * window), BLOCK_SIZE);
    var raised := if target < lo then lo else target;
    if raised > hi then hi else raised
  }

  /** A client's pipeline depth: never zero, which would stall the download loop. */
  function PipelineTarget(pipelineMin: int, pipelineMax: int, maxPipeline: int, window: int,
                          downRate: int): (target: int)
    ensures 1 <= target
    ensures pipelineMin > 0 && pipelineMax >= pipelineMin ==> pipelineMin <= target <= pipelineMax
    ensures pipelineMin <= 0 && pipelineMax <= 0 && maxPipeline > 0 ==> target == maxPipeline
  {
    if pipelineMin <= 0 && pipelineMax <= 0 then
      if maxPipeline <= 0 then DEFAULT_MAX_PIPELINE else maxPipeline
    else
      var lo := if pipelineMin <= 0 then DEFAULT_PIPELINE_MIN else pipelineMin;
      var hi := if pipelineMax > 0 then pipelineMax
                else if maxPipeline > 0 then maxPipeline else DEFAULT_PIPELINE_MAX;
      TargetFor(downRate, window, lo, hi)
  }

  // ----------------------------------------------------------------- the loop

  datatype Message =
    | KeepAlive
    | Piece(index: nat, begin: nat, block: bytes)
    | Malformed
    | Choke
    | Reject
    | Ignored

  datatype Failure = ReadError | ParseError | TooManyUnexpected | OutOfBounds | Choked | Rejected

  /** The counters of the download loop and its buffer. */
  datatype Progress = Progress(downloaded: int, requested: int, backlog: int, noProgress: int, buf: bytes)

  datatype Outcome = Continue(p: Progress) | Stop(why: Failure)

  /** Sends requests until `target` are outstanding or the whole piece has been asked for. */
  function Fill(p: Progress, target: int, length: nat): (q: Progress)
    ensures q.buf == p.buf && q.downloaded == p.downloaded
    decreases length - p.requested
  {
    if p.backlog < target && p.requested < length then
      var size := if p.requested + BLOCK_SIZE > length then length - p.requested else BLOCK_SIZE;
      Fill(p.(requested := p.requested + size, backlog := p.backlog + 1), target, length)
    else p
  }

  /** Overwrites buf from `begin` on. */
  function Copied(buf: bytes, begin: nat, block: bytes): (r: bytes)
    requires begin + |block| <= |buf|
    ensures |r| == |buf|
  {
    buf[..begin] + block + buf[begin + |block|..]
  }

  /** The reaction to one message while piece `index` is downloaded. */
  function React(p: Progress, index: nat, msg: Message): (o: Outcome)
    ensures o.Continue? ==> |o.p.buf| == |p.buf|
  {
    match msg
    case KeepAlive => Continue(p)
    case Ignored => Continue(p)
    case Malformed => Stop(ParseError)
    case Choke => Stop(Choked)
    case Reject => Stop(Rejected)
    case Piece(idx, begin, block) =>
      if idx != index then
        var q := p.(backlog := p.backlog - 1, noProgress := p.noProgress + 1);
        if q.noProgress > MAX_UNEXPECTED_MESSAGES then Stop(TooManyUnexpected)
        else Continue(if q.backlog <= 0 then q.(requested := q.downloaded) else q)
      else if begin + |block| > |p.buf| then Stop(OutOfBounds)
      else Continue(p.(noProgress := 0, buf := Copied(p.buf, begin, block),
                       downloaded := p.downloaded + |block|, backlog := p.backlog - 1))
  }

  /** The loop from round k on; a peer that sends nothing more ends it. */
  function Loop(p: Progress, index: nat, targets: nat -> int, msgs: seq<Message>, k: nat): (o: Outcome)
    requires k <= |msgs|
    ensures o.Continue? ==> |o.p.buf| == |p.buf| <= o.p.downloaded
    decreases |msgs| - k
  {
    if p.downloaded >= |p.buf| then Continue(p)
    else if k == |msgs| then Stop(ReadError)
    else
      match React(Fill(p, targets(k), |p.buf|), index, msgs[k])
      case Stop(why) => Stop(why)
      case Continue(q) => Loop(q, index, targets, msgs, k + 1)
  }

  lemma LoopTurn(p: Progress, index: nat, targets: nat -> int, msgs: seq<Message>, k: nat)
    requires k <= |msgs|
    ensures p.downloaded >= |p.buf| ==> Loop(p, index, targets, msgs, k) == Continue(p)
    ensures p.downloaded < |p.buf| && k == |msgs| ==> Loop(p, index, targets, msgs, k) == Stop(ReadError)
    ensures p.downloaded < |p.buf| && k < |msgs| ==>
      var o := React(Fill(p, targets(k), |p.buf|), index, msgs[k]);
      Loop(p, index, targets, msgs, k) == if o.Stop? then o else Loop(o.p, index, targets, msgs, k + 1)
  {
  }

  function Start(buf: bytes): Progress {
    Progress(0, 0, 0, 0, buf)
  }

  // ------------------------------------- the outcome, from the messages alone

  predicate Own(msg: Message, index: nat) {
    msg.Piece? && msg.index == index
  }

  predicate Stray(msg: Message, index: nat) {
    msg.Piece? && msg.index != index
  }

  /** The bytes of this piece in the first n messages. */
  function OwnBytes(msgs: seq<Message>, index: nat, n: nat): nat
    requires n <= |msgs|
  {
    if n == 0 then 0
    else OwnBytes(msgs, index, n - 1) + if Own(msgs[n - 1], index) then |msgs[n - 1].block| else 0
  }

  /** The blocks of other pieces among the messages from j to n. */
  function StrayCount(msgs: seq<Message>, index: nat, j: nat, n: nat): nat
    requires j <= n <= |msgs|
    decreases n
  {
    if j == n then 0 else StrayCount(msgs, index, j, n - 1) + if Stray(msgs[n - 1], index) then 1 else 0
  }

  /** The message after the last block of this piece among the first n, or the first message. */
  function SinceOwn(msgs: seq<Message>, index: nat, n: nat): (j: nat)
    requires n <= |msgs|
    ensures j <= n && forall i :: j <= i < n ==> !Own(msgs[i], index)
    ensures j > 0 ==> Own(msgs[j - 1], index)
  {
    if n == 0 || Own(msgs[n - 1], index) then n else SinceOwn(msgs, index, n - 1)
  }

  /** Message n ends the download: a choke, a reject, a block that does not parse or leaves the buffer,
      or the 101st block of other pieces without one of this piece between them. */
  predicate Breaks(msgs: seq<Message>, index: nat, length: nat, n: nat)
    requires n < |msgs|
  {
    || msgs[n].Choke? || msgs[n].Reject? || msgs[n].Malformed?
    || (Own(msgs[n], index) && msgs[n].begin + |msgs[n].block| > length)
    || (Stray(msgs[n], index) && StrayCount(msgs, index, SinceOwn(msgs, index, n), n + 1) >= 101)
  }

  /** The loop reads the first n messages and goes on. */
  ghost predicate ReadsOn(msgs: seq<Message>, index: nat, length: nat, n: nat)
    requires n <= |msgs|
  {
    forall k :: 0 <= k < n ==> OwnBytes(msgs, index, k) < length && !Breaks(msgs, index, length, k)
  }

  /** Blocks of this piece add up to its length before any message breaks the download off. */
  ghost predicate Delivers(msgs: seq<Message>, index: nat, length: nat) {
    exists n :: 0 <= n <= |msgs| && ReadsOn(msgs, index, length, n) && OwnBytes(msgs, index, n) >= length
  }

  /** The counters of the loop after n messages. */
  predicate Counted(p: Progress, msgs: seq<Message>, index: nat, n: nat)
    requires n <= |msgs|
  {
    && p.downloaded == OwnBytes(msgs, index, n)
    && p.noProgress == StrayCount(msgs, index, SinceOwn(msgs, index, n), n)
  }

  lemma {:induction false} FillKeepsCounts(p: Progress, target: int, length: nat)
    ensures Fill(p, target, length).noProgress == p.noProgress
    decreases length - p.requested
  {
    if p.backlog < target && p.requested < length {
      var size := if p.requested + BLOCK_SIZE > length then length - p.requested else BLOCK_SIZE;
      FillKeepsCounts(p.(requested := p.requested + size, backlog := p.backlog + 1), target, length);
    }
  }

  /** One message: the loop stops exactly at the ones that break it off, and counts the others. */
  lemma ReactCounts(p: Progress, index: nat, msgs: seq<Message>, n: nat)
    requires n < |msgs| && Counted(p, msgs, index, n)
    ensures React(p, index, msgs[n]).Stop? <==> Breaks(msgs, index, |p.buf|, n)
    ensures React(p, index, msgs[n]).Continue? ==> Counted(React(p, index, msgs[n]).p, msgs, index, n + 1)
  {
    var j := SinceOwn(msgs, index, n);
    assert StrayCount(msgs, index, j, n + 1)
        == StrayCount(msgs, index, j, n) + if Stray(msgs[n], index) then 1 else 0;
  }

  /** From round k on, with the counts of the messages so far, the loop ends at message n. */
  lemma {:induction false} LoopReads(p: Progress, index: nat, targets: nat -> int, msgs: seq<Message>, k: nat,
                                     n: nat)
    requires k <= n <= |msgs| && Counted(p, msgs, index, k) && ReadsOn(msgs, index, |p.buf|, n)
    ensures var o := Loop(p, index, targets, msgs, k);
      && (OwnBytes(msgs, index, n) >= |p.buf| ==> o.Continue? && o.p.downloaded == OwnBytes(msgs, index, n))
      && (OwnBytes(msgs, index, n) < |p.buf| && n == |msgs| ==> o == Stop(ReadError))
      && (OwnBytes(msgs, index, n) < |p.buf| && n < |msgs| && Breaks(msgs, index, |p.buf|, n) ==>
            o.Stop? && o.why != ReadError)
    decreases n - k
  {
    LoopTurn(p, index, targets, msgs, k);
    if k < |msgs| && p.downloaded < |p.buf| {
      var f := Fill(p, targets(k), |p.buf|);
      FillKeepsCounts(p, targets(k), |p.buf|);
      ReactCounts(f, index, msgs, k);
      if k < n {
        LoopReads(React(f, index, msgs[k]).p, index, targets, msgs, k + 1, n);
      }
    }
  }

  /** The first message at which the loop ends. */
  lemma {:induction false} EndOfReading(msgs: seq<Message>, index: nat, length: nat, k: nat) returns (n: nat)
    requires k <= |msgs| && ReadsOn(msgs, index, length, k)
    ensures k <= n <= |msgs| && ReadsOn(msgs, index, length, n)
    ensures OwnBytes(msgs, index, n) >= length || n == |msgs| || Breaks(msgs, index, length, n)
    decreases |msgs| - k
  {
    n := k;
    if k < |msgs| && OwnBytes(msgs, index, k) < length && !Breaks(msgs, index, length, k) {
      n := EndOfReading(msgs, index, length, k + 1);
    }
  }

  lemma {:induction false} OwnBytesGrow(msgs: seq<Message>, index: nat, a: nat, b: nat)
    requires a <= b <= |msgs|
    ensures OwnBytes(msgs, index, a) <= OwnBytes(msgs, index, b)
    decreases b
  {
    if a < b {
      OwnBytesGrow(msgs, index, a, b - 1);
    }
  }

  /** Whatever the peer sends: the loop ends normally exactly when the blocks of this piece add up to its
      length before a message breaks the download off; it gives up for want of messages exactly when
      neither happens. */
  lemma LoopOutcome(buf: bytes, index: nat, targets: nat -> int, msgs: seq<Message>)
    ensures var o := Loop(Start(buf), index, targets, msgs, 0);
      && (o.Continue? <==> Delivers(msgs, index, |buf|))
      && (o == Stop(ReadError) <==>
            ReadsOn(msgs, index, |buf|, |msgs|) && OwnBytes(msgs, index, |msgs|) < |buf|)
  {
    var n := EndOfReading(msgs, index, |buf|, 0);
    LoopReads(Start(buf), index, targets, msgs, 0, n);
    if m :| 0 <= m <= |msgs| && ReadsOn(msgs, index, |buf|, m) && OwnBytes(msgs, index, m) >= |buf| {
      LoopReads(Start(buf), index, targets, msgs, 0, m);
    }
    if ReadsOn(msgs, index, |buf|, |msgs|) && OwnBytes(msgs, index, |msgs|) < |buf| {
      LoopReads(Start(buf), index, targets, msgs, 0, |msgs|);
    }
  }

  /** A message that breaks the download off while bytes are missing leaves nothing delivered. */
  lemma BrokenOff(msgs: seq<Message>, index: nat, length: nat, n: nat)
    requires n < |msgs| && Breaks(msgs, index, length, n) && OwnBytes(msgs, index, n) < length
    ensures !Delivers(msgs, index, length)
  {
    hide Breaks;
    if m :| 0 <= m <= |msgs| && ReadsOn(msgs, index, length, m) && OwnBytes(msgs, index, m) >= length {
      if m <= n {
        OwnBytesGrow(msgs, index, m, n);
      }
      assert false;
    }
  }

  lemma {:induction false} StrayCountFrom(msgs: seq<Message>, index: nat, i: nat, j: nat, n: nat)
    requires i <= j <= n <= |msgs|
    ensures StrayCount(msgs, index, i, n) >= StrayCount(msgs, index, j, n)
    decreases n
  {
    if j < n {
      StrayCountFrom(msgs, index, i, j, n - 1);
    }
  }

  /** So do 101 blocks of other pieces without a block of this one between them. */
  lemma {:induction false} StraysBreakOff(msgs: seq<Message>, index: nat, length: nat, j: nat, n: nat)
    requires j <= n <= |msgs| && (forall i :: j <= i < n ==> !Own(msgs[i], index))
    requires StrayCount(msgs, index, j, n) >= 101 && OwnBytes(msgs, index, n) < length
    ensures !Delivers(msgs, index, length)
    decreases n
  {
    OwnBytesGrow(msgs, index, n - 1, n);
    if StrayCount(msgs, index, j, n - 1) >= 101 {
      StraysBreakOff(msgs, index, length, j, n - 1);
    } else {
      StrayCountFrom(msgs, index, SinceOwn(msgs, index, n - 1), j, n);
      BrokenOff(msgs, index, length, n - 1);
    }
  }

  function Capped(x: int, length: nat): int {
    if x > length then length else x
  }

  /** The block that starts at `begin`: its offset and its size. */
  function RequestAt(begin: int, length: nat): (int, int) {
    (begin, Capped(begin + 16384, length) - begin)
  }

  method FillPipeline(requested: int, backlog: int, target: int, length: nat, ghost p: Progress)
    returns (requested': int, backlog': int, requests: seq<(int, int)>)
    requires p.requested == requested && p.backlog == backlog
    ensures Fill(p, target, length) == p.(requested := requested', backlog := backlog')
    ensures |requests| == backlog' - backlog
    ensures forall i :: 0 <= i < |requests| ==> requests[i] == RequestAt(requested + i * 16384, length)
    ensures requested < length ==> requested' == Capped(requested + |requests| * 16384, length)
  {
    requested', backlog', requests := requested, backlog, [];
    while backlog' < target && requested' < length
      invariant Fill(p, target, length) == Fill(p.(requested := requested', backlog := backlog'), target, length)
      invariant |requests| == backlog' - backlog
      invariant forall i :: 0 <= i < |requests| ==> requests[i] == RequestAt(requested + i * 16384, length)
      invariant requested < length ==> requested' == Capped(requested + |requests| * 16384, length)
      decreases length - requested'
    {
      var blockSize := BLOCK_SIZE;
      if requested' + blockSize > length {
        blockSize := length - requested';
      }
      requests := requests + [(requested', blockSize)];
      requested' := requested' + blockSize;
      backlog' := backlog' + 1;
    }
  }

  /** Overwrites part of the buffer in place. */
  method CopyInto(buf: array<byte>, begin: nat, block: bytes)
    requires begin + |block| <= buf.Length
    modifies buf
    ensures buf[..] == Copied(old(buf[..]), begin, block)
  {
    for i := 0 to |block|
      invariant buf[..begin] == old(buf[..begin])
      invariant buf[begin..begin + i] == block[..i]
      invariant buf[begin + i..] == old(buf[..])[begin + i..]
    {
      buf[begin + i] := block[i];
      assert buf[begin..begin + i + 1] == buf[begin..begin + i] + [block[i]];
    }
    assert buf[..] == buf[..begin] + buf[begin..begin + |block|] + buf[begin + |block|..];
  }

  /** Data is returned only after a normal end of the loop, and only if its hash is the expected one. */
  function Verdict(o: Outcome, sha1: bytes -> bytes, hash: bytes): Option<bytes> {
    if o.Continue? && sha1(o.p.buf) == hash then Some(o.p.buf) else None
  }

  /** No other data of this length has the hash of `content`. */
  ghost predicate Separates(sha1: bytes -> bytes, content: bytes) {
    forall b :: |b| == |content| && sha1(b) == sha1(content) ==> b == content
  }

  /** However the loop was led astray, a hash without collisions lets only the piece through. */
  lemma HashCatches(buf: bytes, index: nat, targets: nat -> int, msgs: seq<Message>, sha1: bytes -> bytes,
                    content: bytes)
    requires |buf| == |content| && Separates(sha1, content)
    ensures var o := Loop(Start(buf), index, targets, msgs, 0);
      Verdict(o, sha1, sha1(content)) == if o.Continue? && o.p.buf == content then Some(content) else None
  {
  }

  /** The receive loop: whether it came to its normal end, with the buffer it then leaves. Every write
      stays inside the buffer. */
  method Receive(index: nat, buf: array<byte>, targets: nat -> int, msgs: seq<Message>) returns (done: bool)
    modifies buf
    ensures done <==> Loop(Start(old(buf[..])), index, targets, msgs, 0).Continue?
    ensures done ==> buf[..] == Loop(Start(old(buf[..])), index, targets, msgs, 0).p.buf
  {
    hide Loop, Fill, Copied;
    var downloaded, requested, backlog, noProgress, k := 0, 0, 0, 0, 0;
    ghost var p := Start(buf[..]);
    while downloaded < buf.Length
      invariant 0 <= k <= |msgs|
      invariant p == Progress(downloaded, requested, backlog, noProgress, buf[..])
      invariant Loop(p, index, targets, msgs, k) == Loop(Start(old(buf[..])), index, targets, msgs, 0)
      decreases |msgs| - k
    {
      LoopTurn(p, index, targets, msgs, k);
      var reqs;
      requested, backlog, reqs := FillPipeline(requested, backlog, targets(k), buf.Length, p);
      p := Fill(p, targets(k), buf.Length);
      if k == |msgs| {
        return false;
      }
      var msg := msgs[k];
      k := k + 1;
      match msg
      case KeepAlive =>
      case Ignored =>
      case Malformed => return false;
      case Choke => return false;
      case Reject => return false;
      case Piece(idx, begin, block) =>
        if idx != index {
          backlog := backlog - 1;
          noProgress := noProgress + 1;
          if noProgress > MAX_UNEXPECTED_MESSAGES {
            return false;
          }
          if backlog <= 0 {
            requested := downloaded;
          }
        } else {
          noProgress := 0;
          if begin + |block| > buf.Length {
            return false;
          }
          CopyInto(buf, begin, block);
          downloaded := downloaded + |block|;
          backlog := backlog - 1;
        }
      p := Progress(downloaded, requested, backlog, noProgress, buf[..]);
    }
    LoopTurn(p, index, targets, msgs, k);
    return true;
  }

  /** Downloads piece `index` into `buf`. The messages may come from any peer whatever: every write
      stays inside the buffer, and data is returned only if its hash is the expected one. */
  method DownloadPiece(index: nat, hash: bytes, sha1: bytes -> bytes, buf: array<byte>,
                       targets: nat -> int, msgs: seq<Message>)
    returns (r: Option<bytes>)
    modifies buf
    ensures r == Verdict(Loop(Start(old(buf[..])), index, targets, msgs, 0), sha1, hash)
    ensures r.Some? <==> Delivers(msgs, index, buf.Length) && sha1(buf[..]) == hash
    ensures r.Some? ==> r.value == buf[..]
  {
    LoopOutcome(buf[..], index, targets, msgs);
    hide Loop, Delivers;
    var done := Receive(index, buf, targets, msgs);
    return if done && sha1(buf[..]) == hash then Some(buf[..]) else None;
  }
}
