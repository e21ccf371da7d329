/** What the download loop makes of a peer that may repeat itself, answer what was never asked and leave
    out what was, as long as the blocks it sends hold the right bytes. */
module TruthfulPeer {
  import opened Bytes
  import opened PieceDownload
  import HonestPeer

  /** A block of this piece that fits into it. */
  predicate Accepted(msg: Message, index: nat, length: nat) {
    msg.Piece? && msg.index == index && msg.begin + |msg.block| <= length
  }

  predicate Tells(msg: Message, index: nat, content: bytes) {
    Accepted(msg, index, |content|) ==> msg.block == content[msg.begin..msg.begin + |msg.block|]
  }

  predicate Truthful(msgs: seq<Message>, index: nat, content: bytes) {
    forall j :: 0 <= j < |msgs| ==> Tells(msgs[j], index, content)
  }

  /** How many messages the loop has read when it ends. */
  function Taken(p: Progress, index: nat, targets: nat -> int, msgs: seq<Message>, k: nat): (n: nat)
    requires k <= |msgs|
    ensures k <= n <= |msgs|
    decreases |msgs| - k
  {
    if p.downloaded >= |p.buf| || k == |msgs| then k
    else
      var o := React(Fill(p, targets(k), |p.buf|), index, msgs[k]);
      if o.Stop? then k + 1 else Taken(o.p, index, targets, msgs, k + 1)
  }

  predicate Hits(msg: Message, index: nat, length: nat, x: int) {
    Accepted(msg, index, length) && msg.begin <= x < msg.begin + |msg.block|
  }

  /** Position x is in an accepted block among the messages from k to n. */
  ghost predicate Hit(msgs: seq<Message>, index: nat, length: nat, k: nat, n: nat, x: int)
    requires k <= n <= |msgs|
  {
    exists j :: k <= j < n && Hits(msgs[j], index, length, x)
  }

  lemma HitFirst(msgs: seq<Message>, index: nat, length: nat, k: nat, n: nat, x: int)
    requires k < n <= |msgs|
    ensures Hit(msgs, index, length, k, n, x) <==>
      Hits(msgs[k], index, length, x) || Hit(msgs, index, length, k + 1, n, x)
  {
  }

  /** One message changes the buffer exactly at the positions it hits. */
  lemma ReactWrites(p: Progress, index: nat, msg: Message, content: bytes, x: nat)
    requires |p.buf| == |content| && x < |content| && Tells(msg, index, content) && React(p, index, msg).Continue?
    ensures React(p, index, msg).p.buf[x] == if Hits(msg, index, |content|, x) then content[x] else p.buf[x]
  {
  }

  /** The final buffer holds the piece where an accepted block was, and its old bytes elsewhere. */
  lemma {:induction false} LoopWrites(p: Progress, index: nat, targets: nat -> int, msgs: seq<Message>, k: nat,
                                      content: bytes, x: nat)
    requires k <= |msgs| && |p.buf| == |content| && x < |content| && Truthful(msgs, index, content)
    requires Loop(p, index, targets, msgs, k).Continue?
    ensures var n := Taken(p, index, targets, msgs, k);
      Loop(p, index, targets, msgs, k).p.buf[x] == if Hit(msgs, index, |content|, k, n, x) then content[x] else p.buf[x]
    decreases |msgs| - k
  {
    LoopTurn(p, index, targets, msgs, k);
    if p.downloaded < |p.buf| {
      var f := Fill(p, targets(k), |p.buf|);
      var o := React(f, index, msgs[k]);
      assert Tells(msgs[k], index, content);
      ReactWrites(f, index, msgs[k], content, x);
      HitFirst(msgs, index, |content|, k, Taken(p, index, targets, msgs, k), x);
      hide Hit, Hits, Fill, React, Tells;
      LoopWrites(o.p, index, targets, msgs, k + 1, content, x);
    }
  }

  ghost predicate HitAll(msgs: seq<Message>, index: nat, length: nat, n: nat)
    requires n <= |msgs|
  {
    forall x :: 0 <= x < length ==> Hit(msgs, index, length, 0, n, x)
  }

  /** The loop ends with the piece exactly when every position that no accepted block covers was already
      right. */
  lemma CompleteIffRestWasRight(buf: bytes, index: nat, targets: nat -> int, msgs: seq<Message>, content: bytes)
    requires |buf| == |content| && Truthful(msgs, index, content)
    requires Loop(Start(buf), index, targets, msgs, 0).Continue?
    ensures var n := Taken(Start(buf), index, targets, msgs, 0);
      Loop(Start(buf), index, targets, msgs, 0).p.buf == content <==>
      forall x :: 0 <= x < |content| && !Hit(msgs, index, |content|, 0, n, x) ==> buf[x] == content[x]
  {
    var o := Loop(Start(buf), index, targets, msgs, 0);
    var n := Taken(Start(buf), index, targets, msgs, 0);
    forall x | 0 <= x < |content|
      ensures o.p.buf[x] == if Hit(msgs, index, |content|, 0, n, x) then content[x] else buf[x]
    {
      LoopWrites(Start(buf), index, targets, msgs, 0, content, x);
    }
  }

  // ---------------------------------------------------- the old bytes do not steer the loop

  predicate Alike(p: Progress, q: Progress) {
    q == p.(buf := q.buf) && |q.buf| == |p.buf|
  }

  lemma {:induction false} FillAlike(p: Progress, q: Progress, target: int, length: nat)
    requires Alike(p, q)
    ensures Alike(Fill(p, target, length), Fill(q, target, length))
    decreases length - p.requested
  {
    if p.backlog < target && p.requested < length {
      var size := if p.requested + BLOCK_SIZE > length then length - p.requested else BLOCK_SIZE;
      FillAlike(p.(requested := p.requested + size, backlog := p.backlog + 1),
                q.(requested := q.requested + size, backlog := q.backlog + 1), target, length);
    }
  }

  lemma ReactAlike(p: Progress, q: Progress, index: nat, msg: Message)
    requires Alike(p, q)
    ensures var a, b := React(p, index, msg), React(q, index, msg);
      if a.Stop? then b == a else b.Continue? && Alike(a.p, b.p)
  {
  }

  lemma {:induction false} LoopAlike(p: Progress, q: Progress, index: nat, targets: nat -> int, msgs: seq<Message>,
                                     k: nat)
    requires Alike(p, q) && k <= |msgs|
    ensures Loop(p, index, targets, msgs, k).Continue? <==> Loop(q, index, targets, msgs, k).Continue?
    ensures Taken(p, index, targets, msgs, k) == Taken(q, index, targets, msgs, k)
    decreases |msgs| - k
  {
    LoopTurn(p, index, targets, msgs, k);
    LoopTurn(q, index, targets, msgs, k);
    if p.downloaded < |p.buf| && k < |msgs| {
      FillAlike(p, q, targets(k), |p.buf|);
      var f, g := Fill(p, targets(k), |p.buf|), Fill(q, targets(k), |q.buf|);
      ReactAlike(f, g, index, msgs[k]);
      hide Fill, React;
      var a, b := React(f, index, msgs[k]), React(g, index, msgs[k]);
      if a.Continue? {
        LoopAlike(a.p, b.p, index, targets, msgs, k + 1);
      }
    }
  }

  ghost predicate EndsWith(buf: bytes, index: nat, targets: nat -> int, msgs: seq<Message>, content: bytes) {
    var o := Loop(Start(buf), index, targets, msgs, 0);
    o.Continue? && o.p.buf == content
  }

  /** The old contents changed at one place. */
  function Spoilt(buf: bytes, content: bytes, x: nat): bytes
    requires |buf| == |content| && x < |content|
  {
    buf[x := if content[x] == 0 then 1 else 0]
  }

  /** The loop ends with the piece whatever the buffer held before, exactly when the accepted blocks
      cover the piece. */
  lemma CompleteForAllIffCovered(buf: bytes, index: nat, targets: nat -> int, msgs: seq<Message>, content: bytes)
    requires |buf| == |content| && Truthful(msgs, index, content)
    requires Loop(Start(buf), index, targets, msgs, 0).Continue?
    ensures (forall b :: |b| == |content| ==> EndsWith(b, index, targets, msgs, content)) <==>
      HitAll(msgs, index, |content|, Taken(Start(buf), index, targets, msgs, 0))
  {
    var n := Taken(Start(buf), index, targets, msgs, 0);
    forall b: bytes | |b| == |content|
      ensures EndsWith(b, index, targets, msgs, content) <==>
        forall x :: 0 <= x < |content| && !Hit(msgs, index, |content|, 0, n, x) ==> b[x] == content[x]
    {
      LoopAlike(Start(buf), Start(b), index, targets, msgs, 0);
      CompleteIffRestWasRight(b, index, targets, msgs, content);
    }
    forall x | 0 <= x < |content| && !Hit(msgs, index, |content|, 0, n, x)
      ensures !EndsWith(Spoilt(buf, content, x), index, targets, msgs, content)
    {
      assert Spoilt(buf, content, x)[x] != content[x];
    }
  }

  // ---------------------------------------------------- blocks that do not overlap

  predicate Overlap(a: Message, b: Message, index: nat, length: nat) {
    && Accepted(a, index, length) && Accepted(b, index, length)
    && a.begin < b.begin + |b.block| && b.begin < a.begin + |a.block|
  }

  ghost predicate Disjoint(msgs: seq<Message>, index: nat, length: nat, n: nat)
    requires n <= |msgs|
  {
    forall i, j :: 0 <= i < j < n ==> !Overlap(msgs[i], msgs[j], index, length)
  }

  function Size(msg: Message, index: nat, length: nat): nat {
    if Accepted(msg, index, length) then |msg.block| else 0
  }

  function Sum(msgs: seq<Message>, index: nat, length: nat, n: nat): nat
    requires n <= |msgs|
  {
    if n == 0 then 0 else Sum(msgs, index, length, n - 1) + Size(msgs[n - 1], index, length)
  }

  lemma ReactCounts(p: Progress, index: nat, msg: Message)
    requires React(p, index, msg).Continue?
    ensures React(p, index, msg).p.downloaded == p.downloaded + Size(msg, index, |p.buf|)
  {
  }

  /** The bytes counted are the sizes of the accepted blocks. */
  lemma {:induction false} LoopCounts(p: Progress, index: nat, targets: nat -> int, msgs: seq<Message>, k: nat)
    requires k <= |msgs| && Loop(p, index, targets, msgs, k).Continue?
    ensures Loop(p, index, targets, msgs, k).p.downloaded - p.downloaded ==
      Sum(msgs, index, |p.buf|, Taken(p, index, targets, msgs, k)) - Sum(msgs, index, |p.buf|, k)
    decreases |msgs| - k
  {
    LoopTurn(p, index, targets, msgs, k);
    if p.downloaded < |p.buf| {
      var f := Fill(p, targets(k), |p.buf|);
      var o := React(f, index, msgs[k]);
      ReactCounts(f, index, msgs[k]);
      hide Fill, React;
      LoopCounts(o.p, index, targets, msgs, k + 1);
    }
  }

  function Span(lo: nat, hi: nat): (s: set<nat>)
    requires lo <= hi
    ensures |s| == hi - lo
    ensures forall x :: x in s <==> lo <= x < hi
    decreases hi
  {
    if lo == hi then {} else Span(lo, hi - 1) + {hi - 1}
  }

  ghost function Positions(msgs: seq<Message>, index: nat, length: nat, n: nat): set<nat>
    requires n <= |msgs|
  {
    set x: nat | x < length && Hit(msgs, index, length, 0, n, x)
  }

  /** Blocks that do not overlap cover as many positions as they have bytes. */
  lemma {:induction false} DisjointAddsUp(msgs: seq<Message>, index: nat, length: nat, n: nat)
    requires n <= |msgs| && Disjoint(msgs, index, length, n)
    ensures |Positions(msgs, index, length, n)| == Sum(msgs, index, length, n)
  {
    var now := Positions(msgs, index, length, n);
    if n == 0 {
      assert now == {};
    } else {
      DisjointAddsUp(msgs, index, length, n - 1);
      AddBlock(msgs, index, length, n);
    }
  }

  lemma AddBlock(msgs: seq<Message>, index: nat, length: nat, n: nat)
    requires 0 < n <= |msgs| && Disjoint(msgs, index, length, n)
    ensures |Positions(msgs, index, length, n)| ==
      |Positions(msgs, index, length, n - 1)| + Size(msgs[n - 1], index, length)
  {
    var msg := msgs[n - 1];
    var before, now := Positions(msgs, index, length, n - 1), Positions(msgs, index, length, n);
    var block := if Accepted(msg, index, length) then Span(msg.begin, msg.begin + |msg.block|) else {};
    forall x: nat ensures x in now <==> x in before || x in block {
      HitLast(msgs, index, length, n, x);
    }
    forall x: nat | x in before ensures x !in block {
      HitOnce(msgs, index, length, n, x);
    }
    assert now == before + block && before !! block;
  }

  lemma HitLast(msgs: seq<Message>, index: nat, length: nat, n: nat, x: int)
    requires 0 < n <= |msgs|
    ensures Hit(msgs, index, length, 0, n, x) <==>
      Hit(msgs, index, length, 0, n - 1, x) || Hits(msgs[n - 1], index, length, x)
  {
  }

  lemma HitOnce(msgs: seq<Message>, index: nat, length: nat, n: nat, x: int)
    requires 0 < n <= |msgs| && Disjoint(msgs, index, length, n) && Hit(msgs, index, length, 0, n - 1, x)
    ensures !Hits(msgs[n - 1], index, length, x)
  {
    var j :| 0 <= j < n - 1 && Hits(msgs[j], index, length, x);
    assert !Overlap(msgs[j], msgs[n - 1], index, length);
  }

  lemma SubsetOfSpan(s: set<nat>, n: nat)
    requires (forall x :: x in s ==> x < n) && |s| >= n
    ensures forall x: nat :: x < n ==> x in s
  {
    var all := Span(0, n);
    assert all == s + (all - s);
    assert |all - s| == 0;
    forall x: nat | x < n ensures x in s {
      assert x in all && x !in all - s;
    }
  }

  /** If no two accepted blocks overlap they cover the piece, so the loop ends with it. */
  lemma DisjointIsComplete(buf: bytes, index: nat, targets: nat -> int, msgs: seq<Message>, content: bytes)
    requires |buf| == |content| && Truthful(msgs, index, content)
    requires Loop(Start(buf), index, targets, msgs, 0).Continue?
    requires Disjoint(msgs, index, |content|, Taken(Start(buf), index, targets, msgs, 0))
    ensures HitAll(msgs, index, |content|, Taken(Start(buf), index, targets, msgs, 0))
    ensures Loop(Start(buf), index, targets, msgs, 0).p.buf == content
  {
    var n := Taken(Start(buf), index, targets, msgs, 0);
    LoopCounts(Start(buf), index, targets, msgs, 0);
    DisjointAddsUp(msgs, index, |content|, n);
    var all := Positions(msgs, index, |content|, n);
    SubsetOfSpan(all, |content|);
    forall x | 0 <= x < |content| ensures Hit(msgs, index, |content|, 0, n, x) {
      assert x in all;
    }
    CompleteIffRestWasRight(buf, index, targets, msgs, content);
  }

  /** A peer that answers honestly is truthful, whatever blocks of other pieces it sends in between. */
  lemma HonestIsTruthful(trace: seq<HonestPeer.State>, rounds: seq<HonestPeer.Round>, index: nat, content: bytes)
    requires HonestPeer.Run(trace, rounds, index, content)
    ensures Truthful(HonestPeer.Messages(rounds), index, content)
  {
    forall j | 0 <= j < |rounds| ensures Tells(rounds[j].msg, index, content) {
      assert HonestPeer.RoundAt(trace, rounds, index, content, j);
    }
  }

  /** So a finished run, however often the loop started over, left the piece in every buffer exactly when
      the answers cover the piece. */
  lemma HonestCompleteIffCovered(trace: seq<HonestPeer.State>, rounds: seq<HonestPeer.Round>, index: nat,
                                 content: bytes, targets: nat -> int)
    requires HonestPeer.Run(trace, rounds, index, content)
    requires forall j :: 0 <= j < |rounds| ==> targets(j) == rounds[j].target
    requires trace[|rounds|].p.downloaded >= |content|
    ensures var msgs := HonestPeer.Messages(rounds);
      (forall b :: |b| == |content| ==> EndsWith(b, index, targets, msgs, content)) <==>
      HitAll(msgs, index, |content|, Taken(Start(trace[0].p.buf), index, targets, msgs, 0))
  {
    HonestIsTruthful(trace, rounds, index, content);
    HonestPeer.LoopFollowsRun(trace, rounds, index, content, targets, |rounds|);
    HonestPeer.RunIsSound(trace, rounds, index, content, |rounds|);
    LoopTurn(trace[|rounds|].p, index, targets, HonestPeer.Messages(rounds), |rounds|);
    CompleteForAllIffCovered(trace[0].p.buf, index, targets, HonestPeer.Messages(rounds), content);
  }
}
