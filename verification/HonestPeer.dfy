/** What the download loop guarantees against a peer that answers every request once, with the right
    bytes, in any order and between any other messages that do not end the download. Blocks of other
    pieces are among those: the loop takes each for a lost answer, and when it believes that nothing is
    outstanding any more it starts asking again from as many bytes as it has counted. */
module HonestPeer {
  import opened Bytes
  import opened PieceDownload

  datatype Request = Request(begin: int, size: int)

  /** The loop together with what is on the wire: the requests not yet answered, in the order they
      were sent, and the number of blocks of other pieces so far. */
  datatype State = State(p: Progress, out: seq<Request>, strays: nat)

  /** Total size of the outstanding requests. */
  function OutBytes(out: seq<Request>): int {
    if out == [] then 0 else OutBytes(out[..|out| - 1]) + out[|out| - 1].size
  }

  /** One more request. */
  function Asked(s: State, length: nat): State {
    var size := if s.p.requested + BLOCK_SIZE > length then length - s.p.requested else BLOCK_SIZE;
    s.(p := s.p.(requested := s.p.requested + size, backlog := s.p.backlog + 1),
       out := s.out + [Request(s.p.requested, size)])
  }

  /** The loop's Fill, with the requests it sends. */
  function FillState(s: State, target: int, length: nat): State
    decreases length - s.p.requested
  {
    if s.p.backlog < target && s.p.requested < length then FillState(Asked(s, length), target, length) else s
  }

  lemma {:induction false} FillStateIsFill(s: State, target: int, length: nat)
    ensures FillState(s, target, length).p == Fill(s.p, target, length)
    ensures FillState(s, target, length).strays == s.strays
    decreases length - s.p.requested
  {
    if s.p.backlog < target && s.p.requested < length {
      FillStateIsFill(Asked(s, length), target, length);
    }
  }

  /** The request lies inside the piece. */
  predicate Fits(r: Request, length: nat) {
    0 <= r.begin && 0 < r.size && r.begin + r.size <= length
  }

  predicate Within(r: Request, x: int) {
    r.begin <= x < r.begin + r.size
  }

  /** The message answers outstanding request j. */
  predicate Answers(out: seq<Request>, index: nat, content: bytes, msg: Message, j: nat) {
    && j < |out| && Fits(out[j], |content|)
    && msg.Piece? && msg.index == index && msg.begin == out[j].begin
    && msg.block == content[out[j].begin..out[j].begin + out[j].size]
  }

  predicate Harmless(msg: Message) {
    msg.KeepAlive? || msg.Ignored?
  }

  /** A block of another piece. */
  predicate IsStray(msg: Message, index: nat) {
    msg.Piece? && msg.index != index
  }

  // ---------------------------------------------------------------------- runs

  /** One round of the loop: the pipeline depth it used and the message it read, which answers request
      j, is a block of another piece, or is harmless. */
  datatype Round =
    | Answer(target: int, msg: Message, j: nat)
    | Stray(target: int, msg: Message)
    | Other(target: int, msg: Message)

  /** What is left when the answer to request j arrives. */
  function Answered(f: State, index: nat, msg: Message, j: nat): State
    requires j < |f.out| && React(f.p, index, msg).Continue?
  {
    f.(p := React(f.p, index, msg).p, out := f.out[..j] + f.out[j + 1..])
  }

  function Strayed(f: State, index: nat, msg: Message): State
    requires React(f.p, index, msg).Continue?
  {
    f.(p := React(f.p, index, msg).p, strays := f.strays + 1)
  }

  ghost predicate Next(s: State, round: Round, s': State, index: nat, content: bytes) {
    var f := FillState(s, round.target, |content|);
    && s.p.downloaded < |content|
    && 1 <= round.target
    && match round
       case Answer(_, msg, j) =>
         Answers(f.out, index, content, msg, j) && React(f.p, index, msg).Continue? && s' == Answered(f, index, msg, j)
       case Stray(_, msg) =>
         IsStray(msg, index) && React(f.p, index, msg).Continue? && s' == Strayed(f, index, msg)
       case Other(_, msg) => Harmless(msg) && s' == f
  }

  ghost predicate RoundAt(trace: seq<State>, rounds: seq<Round>, index: nat, content: bytes, i: int)
    requires 0 <= i < |rounds| < |trace|
  {
    Next(trace[i], rounds[i], trace[i + 1], index, content)
  }

  /** A download from an honest peer, into a buffer with any old contents. */
  ghost predicate Run(trace: seq<State>, rounds: seq<Round>, index: nat, content: bytes) {
    && |trace| == |rounds| + 1
    && |trace[0].p.buf| == |content| && trace[0] == State(Start(trace[0].p.buf), [], 0)
    && forall i :: 0 <= i < |rounds| ==> RoundAt(trace, rounds, index, content, i)
  }

  /** Round i is a stray block that arrives when the loop counts at most one request as outstanding, so
      that the loop forgets what it has asked for. */
  ghost predicate ResetAt(trace: seq<State>, rounds: seq<Round>, content: bytes, i: int)
    requires 0 <= i < |rounds| < |trace|
  {
    rounds[i].Stray? && FillState(trace[i], rounds[i].target, |content|).p.backlog <= 1
  }

  ghost predicate NoReset(trace: seq<State>, rounds: seq<Round>, content: bytes, n: nat)
    requires n <= |rounds| < |trace|
  {
    forall i :: 0 <= i < n ==> !ResetAt(trace, rounds, content, i)
  }

  // ------------------------------------------------------------ what always holds

  ghost predicate Sound(s: State, content: bytes) {
    && |s.p.buf| == |content|
    && (forall j :: 0 <= j < |s.out| ==> Fits(s.out[j], |content|))
    && s.p.backlog == |s.out| - s.strays
    && 0 <= s.p.downloaded && 0 <= s.p.requested <= |content|
    && s.p.requested <= s.p.downloaded + OutBytes(s.out)
  }

  lemma OutBytesSnoc(out: seq<Request>, r: Request)
    ensures OutBytes(out + [r]) == OutBytes(out) + r.size
  {
    assert (out + [r])[..|out|] == out;
  }

  lemma {:induction false} OutBytesRemove(out: seq<Request>, j: nat)
    requires j < |out|
    ensures OutBytes(out[..j] + out[j + 1..]) == OutBytes(out) - out[j].size
  {
    var last := out[|out| - 1];
    var front := out[..|out| - 1];
    if j == |out| - 1 {
      assert out[..j] + out[j + 1..] == front;
    } else {
      OutBytesRemove(front, j);
      assert out == front + [last];
      assert out[..j] == front[..j] && out[j + 1..] == front[j + 1..] + [last];
      assert out[..j] + out[j + 1..] == (front[..j] + front[j + 1..]) + [last];
      OutBytesSnoc(front[..j] + front[j + 1..], last);
    }
  }

  lemma {:induction false} OutBytesPositive(out: seq<Request>, length: nat)
    requires forall j :: 0 <= j < |out| ==> Fits(out[j], length)
    ensures OutBytes(out) >= |out|
  {
    if out != [] {
      OutBytesPositive(out[..|out| - 1], length);
    }
  }

  lemma AskedKeepsSound(s: State, content: bytes)
    requires Sound(s, content) && s.p.requested < |content|
    ensures Sound(Asked(s, |content|), content)
    ensures Asked(s, |content|).p.requested - OutBytes(Asked(s, |content|).out) == s.p.requested - OutBytes(s.out)
  {
    var a := Asked(s, |content|);
    OutBytesSnoc(s.out, a.out[|s.out|]);
  }

  /** f is s with the pipeline filled. */
  ghost predicate Filled(s: State, target: int, content: bytes, f: State) {
    && Sound(f, content)
    && f.p.requested - OutBytes(f.out) == s.p.requested - OutBytes(s.out)
    && f.p.downloaded == s.p.downloaded
    && (f.p.backlog >= target || f.p.requested >= |content|)
  }

  lemma {:induction false} FillKeepsSound(s: State, target: int, content: bytes)
    requires Sound(s, content)
    ensures Filled(s, target, content, FillState(s, target, |content|))
    decreases |content| - s.p.requested
  {
    hide Sound, OutBytes;
    if s.p.backlog < target && s.p.requested < |content| {
      assert |content| - Asked(s, |content|).p.requested < |content| - s.p.requested;
      AskedKeepsSound(s, content);
      FillKeepsSound(Asked(s, |content|), target, content);
    }
  }

  /** The loop never waits for a message while nothing is outstanding. */
  lemma NeverWaitsForNothing(s: State, target: int, content: bytes)
    requires Sound(s, content) && s.p.downloaded < |content| && 1 <= target
    ensures var f := FillState(s, target, |content|); f.out != [] && OutBytes(f.out) > 0
  {
    FillKeepsSound(s, target, content);
    OutBytesPositive(FillState(s, target, |content|).out, |content|);
  }

  lemma AnswerKeepsSound(f: State, index: nat, content: bytes, msg: Message, j: nat)
    requires Sound(f, content) && Answers(f.out, index, content, msg, j)
    ensures React(f.p, index, msg).Continue?
    ensures Sound(Answered(f, index, msg, j), content)
    ensures var s' := Answered(f, index, msg, j);
      s'.p.requested - s'.p.downloaded - OutBytes(s'.out) == f.p.requested - f.p.downloaded - OutBytes(f.out)
  {
    OutBytesRemove(f.out, j);
  }

  lemma StrayKeepsSound(f: State, index: nat, content: bytes, msg: Message)
    requires Sound(f, content) && f.p.downloaded < |content|
    requires IsStray(msg, index) && React(f.p, index, msg).Continue?
    ensures Sound(Strayed(f, index, msg), content)
    ensures Strayed(f, index, msg).p.requested == if f.p.backlog <= 1 then f.p.downloaded else f.p.requested
  {
    OutBytesPositive(f.out, |content|);
  }

  lemma StepKeepsSound(s: State, round: Round, s': State, index: nat, content: bytes)
    requires Sound(s, content) && Next(s, round, s', index, content)
    ensures Sound(s', content)
  {
    FillKeepsSound(s, round.target, content);
    var f := FillState(s, round.target, |content|);
    hide Sound, FillState, Answers, React, OutBytes;
    match round
    case Answer(_, msg, j) => AnswerKeepsSound(f, index, content, msg, j);
    case Stray(_, msg) => StrayKeepsSound(f, index, content, msg);
    case Other(_, _) =>
  }

  lemma {:induction false} RunIsSound(trace: seq<State>, rounds: seq<Round>, index: nat, content: bytes, i: nat)
    requires Run(trace, rounds, index, content) && i < |trace|
    ensures Sound(trace[i], content)
  {
    if i > 0 {
      RunIsSound(trace, rounds, index, content, i - 1);
      assert RoundAt(trace, rounds, index, content, i - 1);
      hide Next;
      StepKeepsSound(trace[i - 1], rounds[i - 1], trace[i], index, content);
    }
  }

  /** In every run, whatever strays arrive, the backlog is the number of outstanding requests less the
      strays, and the loop never waits with nothing outstanding. */
  lemma BacklogCounts(trace: seq<State>, rounds: seq<Round>, index: nat, content: bytes, i: nat)
    requires Run(trace, rounds, index, content) && i < |trace|
    ensures trace[i].p.backlog == |trace[i].out| - trace[i].strays
    ensures i < |rounds| ==> FillState(trace[i], rounds[i].target, |content|).out != []
  {
    RunIsSound(trace, rounds, index, content, i);
    if i < |rounds| {
      assert RoundAt(trace, rounds, index, content, i);
      NeverWaitsForNothing(trace[i], rounds[i].target, content);
    }
  }

  // ------------------------------------------------------------ until the first reset

  /** What was asked for is what was received and what is outstanding. */
  ghost predicate Balanced(s: State) {
    s.p.requested == s.p.downloaded + OutBytes(s.out)
  }

  ghost predicate Awaited(out: seq<Request>, x: int) {
    exists j :: 0 <= j < |out| && Within(out[j], x)
  }

  /** Every byte asked for is in the buffer or outstanding. */
  ghost predicate Covered(s: State, content: bytes)
    requires |s.p.buf| == |content|
  {
    forall x :: 0 <= x < |content| && x < s.p.requested ==> s.p.buf[x] == content[x] || Awaited(s.out, x)
  }

  ghost predicate Inv(s: State, content: bytes) {
    Sound(s, content) && Balanced(s) && Covered(s, content)
  }

  lemma AwaitedSnoc(out: seq<Request>, r: Request, x: int)
    ensures Awaited(out + [r], x) <==> Awaited(out, x) || Within(r, x)
  {
    var more := out + [r];
    assert more[|out|] == r;
    if Awaited(out, x) {
      var j :| 0 <= j < |out| && Within(out[j], x);
      assert more[j] == out[j];
    }
  }

  lemma AskedCovers(s: State, content: bytes)
    requires |s.p.buf| == |content| && Covered(s, content) && s.p.requested < |content|
    ensures Covered(Asked(s, |content|), content)
  {
    var a := Asked(s, |content|);
    forall x | 0 <= x < |content| && x < a.p.requested ensures a.p.buf[x] == content[x] || Awaited(a.out, x) {
      AwaitedSnoc(s.out, a.out[|s.out|], x);
    }
  }

  lemma AwaitedWithout(out: seq<Request>, j: nat, x: int)
    requires j < |out| && Awaited(out, x) && !Within(out[j], x)
    ensures Awaited(out[..j] + out[j + 1..], x)
  {
    var rest := out[..j] + out[j + 1..];
    var i :| 0 <= i < |out| && Within(out[i], x);
    assert rest[if i < j then i else i - 1] == out[i];
  }

  lemma AnswerCovers(f: State, index: nat, content: bytes, msg: Message, j: nat)
    requires |f.p.buf| == |content| && Covered(f, content) && Answers(f.out, index, content, msg, j)
    ensures React(f.p, index, msg).Continue?
    ensures Covered(Answered(f, index, msg, j), content)
  {
    var s' := Answered(f, index, msg, j);
    var lo, hi := f.out[j].begin, f.out[j].begin + f.out[j].size;
    forall x | 0 <= x < |content| && x < s'.p.requested ensures s'.p.buf[x] == content[x] || Awaited(s'.out, x) {
      assert s'.p.buf[x] == if lo <= x < hi then content[x] else f.p.buf[x];
      if !Within(f.out[j], x) && Awaited(f.out, x) {
        AwaitedWithout(f.out, j, x);
      }
    }
  }

  /** An answer keeps counters and buffer exact. */
  lemma AnswerKeeps(f: State, index: nat, content: bytes, msg: Message, j: nat)
    requires Inv(f, content) && Answers(f.out, index, content, msg, j)
    ensures React(f.p, index, msg).Continue?
    ensures Inv(Answered(f, index, msg, j), content)
  {
    hide Covered, Answers, React, Answered, OutBytes;
    AnswerKeepsSound(f, index, content, msg, j);
    AnswerCovers(f, index, content, msg, j);
  }

  lemma AskedKeeps(s: State, content: bytes)
    requires Inv(s, content) && s.p.requested < |content|
    ensures Inv(Asked(s, |content|), content)
  {
    hide Covered, OutBytes;
    AskedKeepsSound(s, content);
    AskedCovers(s, content);
  }

  lemma {:induction false} FillKeeps(s: State, target: int, content: bytes)
    requires Inv(s, content)
    ensures Inv(FillState(s, target, |content|), content)
    decreases |content| - s.p.requested
  {
    hide Inv;
    if s.p.backlog < target && s.p.requested < |content| {
      AskedKeeps(s, content);
      assert |content| - Asked(s, |content|).p.requested < |content| - s.p.requested;
      FillKeeps(Asked(s, |content|), target, content);
    }
  }

  /** A stray that arrives while more than one request counts as outstanding changes only the backlog. */
  lemma StrayKeeps(f: State, index: nat, content: bytes, msg: Message)
    requires Inv(f, content) && f.p.downloaded < |content| && f.p.backlog > 1
    requires IsStray(msg, index) && React(f.p, index, msg).Continue?
    ensures Inv(Strayed(f, index, msg), content)
  {
    StrayKeepsSound(f, index, content, msg);
  }

  /** Any other stray breaks the balance. */
  lemma ResetBreaks(s: State, target: int, content: bytes, index: nat, msg: Message)
    requires Sound(s, content) && s.p.downloaded < |content| && 1 <= target
    requires var f := FillState(s, target, |content|);
      f.p.backlog <= 1 && IsStray(msg, index) && React(f.p, index, msg).Continue?
    ensures !Balanced(Strayed(FillState(s, target, |content|), index, msg))
  {
    NeverWaitsForNothing(s, target, content);
    FillKeepsSound(s, target, content);
    StrayKeepsSound(FillState(s, target, |content|), index, content, msg);
  }

  lemma StepKeeps(s: State, round: Round, s': State, index: nat, content: bytes)
    requires Inv(s, content) && Next(s, round, s', index, content)
    requires !(round.Stray? && FillState(s, round.target, |content|).p.backlog <= 1)
    ensures Inv(s', content)
  {
    FillKeeps(s, round.target, content);
    FillStateIsFill(s, round.target, |content|);
    var f := FillState(s, round.target, |content|);
    hide Inv, FillState, Answers, React, Fill;
    match round
    case Answer(_, msg, j) => AnswerKeeps(f, index, content, msg, j);
    case Stray(_, msg) => StrayKeeps(f, index, content, msg);
    case Other(_, _) =>
  }

  lemma {:induction false} RunKeeps(trace: seq<State>, rounds: seq<Round>, index: nat, content: bytes, i: nat)
    requires Run(trace, rounds, index, content) && i < |trace| && NoReset(trace, rounds, content, i)
    ensures Inv(trace[i], content)
  {
    if i > 0 {
      RunKeeps(trace, rounds, index, content, i - 1);
      assert RoundAt(trace, rounds, index, content, i - 1) && !ResetAt(trace, rounds, content, i - 1);
      hide Next, Inv;
      StepKeeps(trace[i - 1], rounds[i - 1], trace[i], index, content);
    }
  }

  /** When everything is counted the buffer is the piece. */
  lemma CountedIsComplete(s: State, content: bytes)
    requires Inv(s, content) && s.p.downloaded >= |content|
    ensures s.p.buf == content && s.p.downloaded == |content| && s.out == []
  {
    OutBytesPositive(s.out, |content|);
    forall x | 0 <= x < |content| ensures s.p.buf[x] == content[x] {
      assert !Awaited(s.out, x);
    }
  }

  /** As long as no stray makes the loop start over, the bytes requested are those received plus those
      outstanding, and when the loop stops counting the buffer is the piece. */
  lemma HonestDownload(trace: seq<State>, rounds: seq<Round>, index: nat, content: bytes, i: nat)
    requires Run(trace, rounds, index, content) && i < |trace| && NoReset(trace, rounds, content, i)
    ensures Balanced(trace[i])
    ensures trace[i].p.downloaded >= |content| ==> trace[i].p.buf == content && trace[i].out == []
  {
    RunKeeps(trace, rounds, index, content, i);
    if trace[i].p.downloaded >= |content| {
      CountedIsComplete(trace[i], content);
    }
  }

  lemma {:induction false} BalancedHasNoReset(trace: seq<State>, rounds: seq<Round>, index: nat, content: bytes, n: nat)
    requires Run(trace, rounds, index, content) && n < |trace|
    requires forall i :: 0 <= i <= n ==> Balanced(trace[i])
    ensures NoReset(trace, rounds, content, n)
  {
    if n > 0 {
      BalancedHasNoReset(trace, rounds, index, content, n - 1);
      RunIsSound(trace, rounds, index, content, n - 1);
      assert RoundAt(trace, rounds, index, content, n - 1);
      var s, round := trace[n - 1], rounds[n - 1];
      if ResetAt(trace, rounds, content, n - 1) {
        ResetBreaks(s, round.target, content, index, round.msg);
      }
    }
  }

  /** What a state of an undisturbed download looks like. */
  ghost predicate Undisturbed(s: State, content: bytes) {
    Balanced(s) && (s.p.downloaded >= |content| ==> s.p.buf == content && s.out == [])
  }

  /** The download is undisturbed exactly as long as no stray arrives while the loop counts at most one
      request as outstanding. */
  lemma UndisturbedIffNoReset(trace: seq<State>, rounds: seq<Round>, index: nat, content: bytes, n: nat)
    requires Run(trace, rounds, index, content) && n < |trace|
    ensures (forall i :: 0 <= i <= n ==> Undisturbed(trace[i], content)) <==> NoReset(trace, rounds, content, n)
  {
    if NoReset(trace, rounds, content, n) {
      forall i | 0 <= i <= n ensures Undisturbed(trace[i], content) {
        HonestDownload(trace, rounds, index, content, i);
      }
    }
    if forall i :: 0 <= i <= n ==> Undisturbed(trace[i], content) {
      forall i | 0 <= i <= n ensures Balanced(trace[i]) {
        assert Undisturbed(trace[i], content);
      }
      BalancedHasNoReset(trace, rounds, index, content, n);
    }
  }

  // ------------------------------------------------------------ runs and the loop

  function Messages(rounds: seq<Round>): (r: seq<Message>)
    ensures |r| == |rounds| && forall i :: 0 <= i < |r| ==> r[i] == rounds[i].msg
  {
    seq(|rounds|, i requires 0 <= i < |rounds| => rounds[i].msg)
  }

  lemma LoopStep(s: State, round: Round, s': State, index: nat, content: bytes, targets: nat -> int,
                 msgs: seq<Message>, k: nat)
    requires Next(s, round, s', index, content) && |s.p.buf| == |content|
    requires k < |msgs| && msgs[k] == round.msg && targets(k) == round.target
    ensures Loop(s.p, index, targets, msgs, k) == Loop(s'.p, index, targets, msgs, k + 1)
  {
    FillStateIsFill(s, round.target, |content|);
  }

  lemma {:induction false} LoopFollowsRun(trace: seq<State>, rounds: seq<Round>, index: nat, content: bytes,
                                          targets: nat -> int, i: nat)
    requires Run(trace, rounds, index, content) && i < |trace|
    requires forall j :: 0 <= j < |rounds| ==> targets(j) == rounds[j].target
    ensures Loop(trace[0].p, index, targets, Messages(rounds), 0) ==
      Loop(trace[i].p, index, targets, Messages(rounds), i)
  {
    if i > 0 {
      LoopFollowsRun(trace, rounds, index, content, targets, i - 1);
      RunIsSound(trace, rounds, index, content, i - 1);
      assert RoundAt(trace, rounds, index, content, i - 1);
      LoopStep(trace[i - 1], rounds[i - 1], trace[i], index, content, targets, Messages(rounds), i - 1);
    }
  }

  /** DownloadPiece, fed with the messages of such a run that answered everything, ends its loop with
      exactly the piece. */
  lemma HonestDownloadSucceeds(trace: seq<State>, rounds: seq<Round>, index: nat, content: bytes, targets: nat -> int)
    requires Run(trace, rounds, index, content) && NoReset(trace, rounds, content, |rounds|)
    requires forall j :: 0 <= j < |rounds| ==> targets(j) == rounds[j].target
    requires trace[|rounds|].p.downloaded >= |content|
    ensures var o := Loop(Start(trace[0].p.buf), index, targets, Messages(rounds), 0);
      o.Continue? && o.p.buf == content
  {
    LoopFollowsRun(trace, rounds, index, content, targets, |rounds|);
    HonestDownload(trace, rounds, index, content, |rounds|);
  }
}
