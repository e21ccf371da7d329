/** Downloads of two blocks that the loop takes for complete although the second block never came. */
module Miscounts {
  import opened Bytes
  import opened PieceDownload
  import opened HonestPeer

  function Half(content: bytes, buf: bytes): bytes
    requires |buf| == |content| == 2 * BLOCK_SIZE
  {
    content[..BLOCK_SIZE] + buf[BLOCK_SIZE..]
  }

  /** One round of a run that sends exactly one request before it waits. */
  lemma OneRequest(s: State, length: nat)
    requires s.p.backlog == 0 && s.p.requested < length
    ensures FillState(s, 1, length) == Asked(s, length)
  {
  }

  lemma FirstHalf(content: bytes, buf: bytes, b: bytes)
    requires |buf| == |content| == |b| == 2 * BLOCK_SIZE && (b == buf || b == Half(content, buf))
    ensures Copied(b, 0, content[..BLOCK_SIZE]) == Half(content, buf)
  {
  }

  /** A stray block that arrives while one request is outstanding makes the loop ask for block 0 again.
      The peer answers both requests once each, both are counted, and the loop ends with the second
      block never received. */
  lemma StrayStartsOver(buf: bytes, content: bytes, other: bytes, index: nat)
    returns (trace: seq<State>, rounds: seq<Round>)
    requires |buf| == |content| == 2 * BLOCK_SIZE
    ensures Run(trace, rounds, index, content) && trace[0].p.buf == buf && |rounds| == 3
    ensures ResetAt(trace, rounds, content, 0)
    ensures var block := content[..BLOCK_SIZE];
      Messages(rounds) == [Piece(index + 1, 0, other), Piece(index, 0, block), Piece(index, 0, block)]
    ensures Loop(Start(buf), index, _ => 1, Messages(rounds), 0) == Continue(trace[3].p)
    ensures trace[3].p.buf == Half(content, buf)
  {
    var B := BLOCK_SIZE;
    var block, r0, r1 := content[..B], Request(0, B), Request(B, B);
    var stray, msg := Piece(index + 1, 0, other), Piece(index, 0, block);
    var half := Half(content, buf);
    var s0 := State(Start(buf), [], 0);
    var s1 := State(Progress(0, 0, 0, 1, buf), [r0], 1);
    var s2 := State(Progress(B, B, 0, 0, half), [r0], 1);
    var s3 := State(Progress(2 * B, 2 * B, 0, 0, half), [r1], 1);
    trace, rounds := [s0, s1, s2, s3], [Stray(1, stray), Answer(1, msg, 0), Answer(1, msg, 0)];
    OneRequest(s0, |content|);
    OneRequest(s1, |content|);
    OneRequest(s2, |content|);
    FirstHalf(content, buf, buf);
    FirstHalf(content, buf, half);
    assert Next(s0, rounds[0], s1, index, content);
    assert Next(s1, rounds[1], s2, index, content) by {
      assert [r0, r0][..0] + [r0, r0][1..] == [r0];
    }
    assert Next(s2, rounds[2], s3, index, content) by {
      assert [r0, r1][..0] + [r0, r1][1..] == [r1];
    }
    assert forall i :: 0 <= i < 3 ==> RoundAt(trace, rounds, index, content, i);
    LoopFollowsRun(trace, rounds, index, content, _ => 1, 3);
    assert Messages(rounds) == [stray, msg, msg];
  }

  /** A peer that is asked for two blocks and sends the first one twice is counted as having sent both.
      Unless the old bytes happened to be right, the hash keeps the result from being used. */
  lemma RepeatedAnswerMiscounts(buf: bytes, content: bytes, index: nat, sha1: bytes -> bytes)
    requires |buf| == |content| == 2 * BLOCK_SIZE && Separates(sha1, content)
    ensures var block := content[..BLOCK_SIZE];
      var o := Loop(Start(buf), index, _ => 2, [Piece(index, 0, block), Piece(index, 0, block)], 0);
      && o.Continue? && o.p.buf == Half(content, buf)
      && (Verdict(o, sha1, sha1(content)) == None <==> buf[BLOCK_SIZE..] != content[BLOCK_SIZE..])
  {
    var B := BLOCK_SIZE;
    var block := content[..B];
    var msgs := [Piece(index, 0, block), Piece(index, 0, block)];
    var half := Half(content, buf);
    var p1 := Progress(0, 2 * B, 2, 0, buf);
    var p2, p3 := Progress(B, 2 * B, 1, 0, half), Progress(2 * B, 2 * B, 0, 0, half);
    assert Fill(Start(buf), 2, |buf|) == Fill(Progress(0, B, 1, 0, buf), 2, |buf|) == p1;
    FirstHalf(content, buf, buf);
    FirstHalf(content, buf, half);
    assert React(p1, index, msgs[0]) == Continue(p2) && Fill(p2, 2, |buf|) == p2;
    assert React(p2, index, msgs[1]) == Continue(p3);
    LoopTurn(Start(buf), index, _ => 2, msgs, 0);
    LoopTurn(p2, index, _ => 2, msgs, 1);
    LoopTurn(p3, index, _ => 2, msgs, 2);
    HashCatches(buf, index, _ => 2, msgs, sha1, content);
    assert half == content <==> buf[B..] == content[B..] by {
      assert content == content[..B] + content[B..];
      assert half[B..] == buf[B..];
    }
  }
}
