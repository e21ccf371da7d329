/** The engine's queue operations on its session map. Map iteration order is arbitrary. */
module EngineQueue {
  import opened Bytes
  import opened InsertionSort
  import opened DownloadQueue

  /** The ids of the sessions to keep, in some order. */
  method Collect(m: Sessions, keep: Session -> bool) returns (ids: seq<Id>)
    ensures NoDuplicates(ids)
    ensures forall id :: id in ids <==> id in m && keep(m[id])
  {
    ids := [];
    var todo := m.Keys;
    while todo != {}
      invariant todo <= m.Keys && NoDuplicates(ids)
      invariant forall id :: id in ids <==> id in m && id !in todo && keep(m[id])
    {
      var id :| id in todo;
      if keep(m[id]) {
        ids := ids + [id];
      }
      todo := todo - {id};
    }
  }

  function Position(m: Sessions, id: Id): int {
    if id in m then m[id].position else 0
  }

  ghost predicate SortedByPosition(m: Sessions, ids: seq<Id>) {
    Sorted(ids, (id: Id) => Position(m, id))
  }

  method SortByQueuePosition(m: Sessions, ids: seq<Id>) returns (r: seq<Id>)
    requires NoDuplicates(ids) && forall id :: id in ids ==> id in m
    ensures NoDuplicates(r) && forall id :: id in r <==> id in ids
    ensures SortedByPosition(m, r)
  {
    var a := new Id[|ids|](i requires 0 <= i < |ids| => ids[i]);
    assert a[..] == ids;
    var less := (x: Id, y: Id) => Position(m, x) < Position(m, y);
    ghost var rank := (id: Id) => Position(m, id);
    assert Ranks(less, rank);
    Sort(a, less, rank);
    r := a[..];
    PermutedIsSame(ids, r);
  }

  /** The sessions after the first n of the list were given their new positions. */
  ghost predicate Numbered(m: Sessions, r: Sessions, q: seq<Id>, n: nat)
    requires n <= |q|
  {
    && SameButPositions(m, r)
    && (forall i :: 0 <= i < n ==> q[i] in r && r[q[i]].position == i)
  }

  lemma NumberNext(m: Sessions, r: Sessions, q: seq<Id>, i: nat)
    requires Sorts(m, q) && i < |q| && Numbered(m, r, q, i)
    ensures q[i] in r && Numbered(m, r[q[i] := r[q[i]].(position := i)], q, i + 1)
  {
    assert q[i] in m;
  }

  lemma AllNumbered(m: Sessions, r: Sessions, q: seq<Id>)
    requires Sorts(m, q) && Numbered(m, r, q, |q|)
    ensures Compacts(m, r)
  {
    assert Lists(r, q);
  }

  lemma SortedSorts(m: Sessions, q: seq<Id>)
    requires NoDuplicates(q) && SortedByPosition(m, q) && forall id :: id in q <==> id in m
    ensures Sorts(m, q)
  {
    forall i, j | 0 <= i < j < |q|
      ensures q[i] in m && q[j] in m && m[q[i]].position <= m[q[j]].position
    {
      assert q[i] in q && q[j] in q;
      assert Position(m, q[i]) <= Position(m, q[j]);
    }
  }

  /** `begun` are the waiting sessions of the list. */
  ghost predicate WaitingAmong(m: Sessions, ids: seq<Id>, begun: set<Id>) {
    forall id :: id in begun <==> id in ids && id in m && IsWaiting(m[id])
  }

  lemma NoneBegun(m: Sessions)
    ensures Begun(m, {}) == m
  {
  }

  /** The next session is started exactly when it waits. */
  lemma BeginOne(m: Sessions, ids: seq<Id>, begun: set<Id>, id: Id)
    requires WaitingAmong(m, ids, begun) && id in m && m[id].state.Adding? && id !in ids
    ensures id !in begun && id in Begun(m, begun) && Begun(m, begun)[id] == m[id]
    ensures m[id].started ==> WaitingAmong(m, ids + [id], begun)
    ensures !m[id].started ==>
      && WaitingAmong(m, ids + [id], begun + {id})
      && Begun(m, begun)[id := m[id].(started := true)] == Begun(m, begun + {id})
  {
  }

  /** The waiting sessions of a sorted prefix are the first ones waiting. */
  lemma PrefixIsFirst(m: Sessions, q: seq<Id>, i: nat, begun: set<Id>, maxActive: int)
    requires SortedByPosition(m, q) && i <= |q| && WaitingAmong(m, q[..i], begun)
    requires forall id :: id in q <==> id in m && m[id].state.Adding?
    requires |Active(m)| + |begun| <= maxActive
    requires i == |q| || |Active(m)| + |begun| == maxActive
    ensures FirstWaiting(m, maxActive, begun)
  {
    assert begun <= Waiting(m);
    forall a, b | a in begun && b in Waiting(m) && b !in begun ensures m[a].position <= m[b].position {
      assert q == q[..i] + q[i..];
      assert b in q && b in q[i..] && a in q[..i];
      var j :| 0 <= j < i && q[j] == a;
      var k :| i <= k < |q| && q[k] == b;
      assert Position(m, q[j]) <= Position(m, q[k]);
    }
    if i == |q| {
      assert q[..i] == q;
      assert begun == Waiting(m);
    } else {
      Bigger(begun, Waiting(m));
    }
  }

  lemma Bigger(a: set<Id>, b: set<Id>)
    requires a <= b
    ensures |a| <= |b|
  {
    assert b == a + (b - a);
  }

  /** `who` is a session at this position, or none if there is none. */
  ghost predicate AtPosition(m: Sessions, p: int, who: Option<Id>) {
    match who
    case None => forall id :: id in m ==> m[id].position != p
    case Some(id) => id in m && m[id].position == p
  }

  ghost function Put(m: Sessions, who: Option<Id>, p: int): Sessions {
    if who.Some? && who.value in m then m[who.value := m[who.value].(position := p)] else m
  }

  /** One session at each of the two positions, if there is one, takes the other position; then waiting
      sessions are started. */
  ghost predicate Swaps(m: Sessions, a: int, b: int, maxActive: int, r: Sessions) {
    exists sa, sb :: AtPosition(m, a, sa) && AtPosition(m, b, sb) && Starts(Put(Put(m, sa, b), sb, a), maxActive, r)
  }

  ghost predicate SwapsUp(m: Sessions, id: Id, maxActive: int, r: Sessions) {
    if id in m && m[id].position > 0
    then Swaps(m, m[id].position, m[id].position - 1, maxActive, r)
    else r == m
  }

  ghost predicate SwapsBelow(m: Sessions, i: int, max: int, maxActive: int, r: Sessions) {
    if i < max then Swaps(m, i, i + 1, maxActive, r) else r == m
  }

  ghost predicate SwapsDown(m: Sessions, id: Id, maxActive: int, r: Sessions) {
    if id in m
    then exists p :: IsMaxPosition(m, p) && SwapsBelow(m, m[id].position, p, maxActive, r)
    else r == m
  }

  lemma PutExchanges(m: Sessions, a: int, b: int, sa: Option<Id>, sb: Option<Id>)
    requires DistinctPositions(m) && AtPosition(m, a, sa) && AtPosition(m, b, sb) && a != b
    ensures Put(Put(m, sa, b), sb, a) == Exchanged(m, a, b)
  {
  }

  /** Without ties a swap exchanges the two positions. */
  lemma SwapsExchanges(m: Sessions, a: int, b: int, maxActive: int, r: Sessions)
    requires DistinctPositions(m) && Swaps(m, a, b, maxActive, r) && a != b
    ensures Starts(Exchanged(m, a, b), maxActive, r)
  {
    var sa, sb :| AtPosition(m, a, sa) && AtPosition(m, b, sb) && Starts(Put(Put(m, sa, b), sb, a), maxActive, r);
    PutExchanges(m, a, b, sa, sb);
  }

  lemma UpIsNext(m: Sessions, id: Id, maxActive: int, r: Sessions)
    requires DistinctPositions(m) && SwapsUp(m, id, maxActive, r)
    ensures Next(m, maxActive, Up(id), r)
  {
    hide Starts, Swaps, DistinctPositions, Exchanged;
    if id in m && m[id].position > 0 {
      SwapsExchanges(m, m[id].position, m[id].position - 1, maxActive, r);
    }
  }

  lemma DownIsNext(m: Sessions, id: Id, maxActive: int, r: Sessions)
    requires DistinctPositions(m) && SwapsDown(m, id, maxActive, r)
    ensures Next(m, maxActive, Down(id), r)
  {
    hide Starts, Swaps, DistinctPositions, Exchanged, IsMaxPosition;
    if id in m {
      var i := m[id].position;
      var p :| IsMaxPosition(m, p) && SwapsBelow(m, i, p, maxActive, r);
      if i < p {
        SwapsExchanges(m, i, i + 1, maxActive, r);
      }
      assert DownFrom(m, maxActive, id, p, r);
    }
  }

  class Engine {
    var sessions: Sessions
    var maxActive: int

    constructor (maxActive: int)
      ensures sessions == map[] && Lists(sessions, [])
      ensures this.maxActive == if maxActive <= 0 then 5 else maxActive
    {
      sessions := map[];
      this.maxActive := if maxActive <= 0 then 5 else maxActive;
    }

    method MaxQueuePosition() returns (p: int)
      ensures IsMaxPosition(sessions, p)
    {
      p := -1;
      var todo := sessions.Keys;
      while todo != {}
        invariant todo <= sessions.Keys && p >= -1
        invariant forall id :: id in sessions && id !in todo ==> sessions[id].position <= p
        invariant p == -1 || exists id :: id in sessions && sessions[id].position == p
      {
        var id :| id in todo;
        if sessions[id].position > p {
          p := sessions[id].position;
        }
        todo := todo - {id};
      }
    }

    method ActiveCount() returns (count: nat)
      ensures count == |Active(sessions)|
      ensures count == |set id | id in sessions && (sessions[id].state in {Downloading, Metadata, Verifying}
                                                     || (sessions[id].state == Adding && sessions[id].started))|
    {
      SlotsTaken(sessions);
      count := 0;
      var todo := sessions.Keys;
      ghost var counted: set<Id> := {};
      while todo != {}
        invariant todo <= sessions.Keys && count == |counted| && counted !! todo
        invariant counted == set id | id in sessions && id !in todo && IsActive(sessions[id])
      {
        var id :| id in todo;
        if IsActive(sessions[id]) {
          count := count + 1;
          counted := counted + {id};
        }
        todo := todo - {id};
      }
      assert counted == Active(sessions);
    }

    method CompactQueue()
      modifies `sessions
      ensures Compacts(old(sessions), sessions)
    {
      ghost var m := sessions;
      var ids := Collect(sessions, (s: Session) => true);
      var q := SortByQueuePosition(sessions, ids);
      SortedSorts(m, q);
      assert Numbered(m, m, q, 0);
      hide Sorts, Numbered, Compacts;
      var i := 0;
      while i < |q|
        invariant 0 <= i <= |q|
        invariant Numbered(m, sessions, q, i)
      {
        var id := q[i];
        NumberNext(m, sessions, q, i);
        assert sessions[id].position == i ==> sessions == sessions[id := sessions[id].(position := i)];
        if sessions[id].position != i {
          sessions := sessions[id := sessions[id].(position := i)];
        }
        i := i + 1;
      }
      AllNumbered(m, sessions, q);
    }

    /** The sessions in Downloading, Metadata, Verifying or a started Adding stay within the limit, and
        reach it unless nobody waits any more. */
    method StartQueued()
      modifies `sessions
      ensures Starts(old(sessions), maxActive, sessions)
      ensures var taken := set id | id in sessions && (sessions[id].state in {Downloading, Metadata, Verifying}
                                                       || (sessions[id].state == Adding && sessions[id].started));
        && (sessions != old(sessions) ==> |taken| <= maxActive)
        && (|taken| >= maxActive
            || forall id :: id in sessions && sessions[id].state == Adding ==> sessions[id].started)
    {
      StartWithin();
      StartFillsSlots(old(sessions), maxActive, sessions);
    }

    method StartWithin()
      modifies `sessions
      ensures Starts(old(sessions), maxActive, sessions)
    {
      ghost var m := sessions;
      var active := ActiveCount();
      NoneBegun(m);
      if active >= maxActive {
        assert FirstWaiting(m, maxActive, {});
        return;
      }
      var ids := Collect(sessions, (s: Session) => s.state.Adding?);
      var q := SortByQueuePosition(sessions, ids);
      var i := 0;
      ghost var begun: set<Id> := {};
      hide Begun, IsWaiting, SortedByPosition;
      while i < |q| && active < maxActive
        invariant 0 <= i <= |q| && active == |Active(m)| + |begun| <= maxActive
        invariant WaitingAmong(m, q[..i], begun)
        invariant sessions == Begun(m, begun)
      {
        var id := q[i];
        assert id in m && m[id].state.Adding? && id !in q[..i];
        assert q[..i + 1] == q[..i] + [id];
        BeginOne(m, q[..i], begun, id);
        if !sessions[id].started {
          sessions := sessions[id := sessions[id].(started := true)];
          active := active + 1;
          begun := begun + {id};
        }
        i := i + 1;
      }
      PrefixIsFirst(m, q, i, begun, maxActive);
    }

    method ShiftSessions(id: Id, from: int, to: int)
      requires id in sessions && sessions[id].position == from
      modifies `sessions
      ensures sessions == Moved(old(sessions), id, to)[id := old(sessions)[id]]
    {
      ghost var m := sessions;
      var todo := sessions.Keys;
      while todo != {}
        invariant todo <= m.Keys && sessions.Keys == m.Keys && sessions[id] == m[id]
        invariant forall k :: k in todo ==> sessions[k] == m[k]
        invariant forall k :: k in m && k !in todo && k != id ==>
          sessions[k] == m[k].(position := ShiftOthers(m[k].position, from, to))
      {
        var k :| k in todo;
        var p := sessions[k].position;
        if k != id {
          if from < to {
            if p > from && p <= to {
              sessions := sessions[k := sessions[k].(position := p - 1)];
            }
          } else if p >= to && p < from {
            sessions := sessions[k := sessions[k].(position := p + 1)];
          }
        }
        todo := todo - {k};
      }
    }

    method SetQueuePosition(id: Id, newPos: int) returns (found: bool)
      modifies `sessions
      ensures found <==> id in old(sessions)
      ensures !found || old(sessions)[id].position == newPos ==> sessions == old(sessions)
      ensures found && old(sessions)[id].position != newPos ==>
        Starts(Moved(old(sessions), id, newPos), maxActive, sessions)
    {
      if id !in sessions {
        return false;
      }
      found := true;
      var oldPos := sessions[id].position;
      if oldPos == newPos {
        return;
      }
      ShiftSessions(id, oldPos, newPos);
      sessions := sessions[id := sessions[id].(position := newPos)];
      assert sessions == Moved(old(sessions), id, newPos);
      StartQueued();
    }

    /** With ties, any one session at each of the two positions is moved. */
    method SwapPositions(posA: int, posB: int)
      requires posA != posB
      modifies `sessions
      ensures Swaps(old(sessions), posA, posB, maxActive, sessions)
    {
      var a: Option<Id>, b: Option<Id> := None, None;
      var todo := sessions.Keys;
      while todo != {}
        invariant todo <= sessions.Keys
        invariant AtPosition(sessions - todo, posA, a) && AtPosition(sessions - todo, posB, b)
      {
        var id :| id in todo;
        assert sessions - (todo - {id}) == (sessions - todo)[id := sessions[id]];
        if sessions[id].position == posA {
          a := Some(id);
        }
        if sessions[id].position == posB {
          b := Some(id);
        }
        todo := todo - {id};
      }
      assert sessions - todo == sessions;
      ghost var m := sessions;
      if a.Some? {
        sessions := sessions[a.value := sessions[a.value].(position := posB)];
      }
      if b.Some? {
        sessions := sessions[b.value := sessions[b.value].(position := posA)];
      }
      assert sessions == Put(Put(m, a, posB), b, posA);
      StartQueued();
    }

    method QueueTop(id: Id) returns (found: bool)
      modifies `sessions
      ensures found <==> id in old(sessions)
      ensures Next(old(sessions), maxActive, Top(id), sessions)
    {
      found := SetQueuePosition(id, 0);
    }

    method QueueUp(id: Id) returns (found: bool)
      modifies `sessions
      ensures found <==> id in old(sessions)
      ensures SwapsUp(old(sessions), id, maxActive, sessions)
      ensures DistinctPositions(old(sessions)) ==> Next(old(sessions), maxActive, Up(id), sessions)
    {
      ghost var m := sessions;
      found := id in sessions;
      if found && sessions[id].position > 0 {
        SwapPositions(sessions[id].position, sessions[id].position - 1);
      }
      assert SwapsUp(m, id, maxActive, sessions);
      hide SwapsUp, DistinctPositions;
      if DistinctPositions(m) {
        UpIsNext(m, id, maxActive, sessions);
      }
    }

    method QueueDown(id: Id) returns (found: bool)
      modifies `sessions
      ensures found <==> id in old(sessions)
      ensures SwapsDown(old(sessions), id, maxActive, sessions)
      ensures DistinctPositions(old(sessions)) ==> Next(old(sessions), maxActive, Down(id), sessions)
    {
      ghost var m := sessions;
      found := id in sessions;
      if found {
        var p := sessions[id].position;
        var maxPos := MaxQueuePosition();
        if p < maxPos {
          SwapPositions(p, p + 1);
        }
        assert SwapsBelow(m, p, maxPos, maxActive, sessions);
      }
      assert SwapsDown(m, id, maxActive, sessions);
      hide SwapsDown, DistinctPositions;
      if DistinctPositions(m) {
        DownIsNext(m, id, maxActive, sessions);
      }
    }

    method QueueBottom(id: Id) returns (found: bool)
      modifies `sessions
      ensures found <==> id in old(sessions)
      ensures Next(old(sessions), maxActive, Bottom(id), sessions)
    {
      var maxPos := MaxQueuePosition();
      if id !in sessions {
        return false;
      }
      found := true;
      ghost var m := sessions;
      var oldPos := sessions[id].position;
      if oldPos == maxPos {
        return;
      }
      ShiftSessions(id, oldPos, maxPos);
      sessions := sessions[id := sessions[id].(position := maxPos)];
      assert sessions == Moved(m, id, maxPos);
    }

    /** False when the session limit is reached. */
    method AddTorrent(id: Id) returns (ok: bool)
      modifies `sessions
      ensures ok <==> id in old(sessions) || |old(sessions)| < MAX_SESSIONS
      ensures Next(old(sessions), maxActive, Add(id), sessions)
    {
      if id in sessions {
        return true;
      }
      if |sessions| >= MAX_SESSIONS {
        return false;
      }
      ok := true;
      var p := MaxQueuePosition();
      sessions := sessions[id := Session(p + 1, Adding, false)];
      StartQueued();
    }

    /** The removal itself. Starting the next session is a separate step. */
    method RemoveTorrent(id: Id) returns (found: bool)
      modifies `sessions
      ensures found <==> id in old(sessions)
      ensures Next(old(sessions), maxActive, Remove(id), sessions)
    {
      if id !in sessions {
        return false;
      }
      found := true;
      sessions := sessions - {id};
      CompactQueue();
    }
  }
}
