/** The download queue: sessions with positions, and the list those positions stand for. */
module DownloadQueue {

  type Id = string

  datatype State = Adding | Metadata | Verifying | Downloading | Seeding | Complete | Paused | Error

  /** A session and whether a goroutine works on it. */
  datatype Session = Session(position: int, state: State, started: bool)

  type Sessions = map<Id, Session>

  const MAX_SESSIONS := 10000

  /** The positions are 0 to n - 1, and q is the list they describe. */
  ghost predicate Lists(m: Sessions, q: seq<Id>) {
    && (forall id :: id in q <==> id in m)
    && (forall i :: 0 <= i < |q| ==> q[i] in m && m[q[i]].position == i)
  }

  ghost predicate DistinctPositions(m: Sessions) {
    forall a, b :: a in m && b in m && m[a].position == m[b].position ==> a == b
  }

  lemma ListsAt(m: Sessions, q: seq<Id>, id: Id)
    requires Lists(m, q) && id in m
    ensures 0 <= m[id].position < |q| && q[m[id].position] == id
  {
    var i :| 0 <= i < |q| && q[i] == id;
  }

  lemma ListsIsDistinct(m: Sessions, q: seq<Id>)
    requires Lists(m, q)
    ensures DistinctPositions(m)
  {
    forall a, b | a in m && b in m && m[a].position == m[b].position ensures a == b {
      ListsAt(m, q, a);
      ListsAt(m, q, b);
    }
  }

  lemma {:induction false} ListsHasSize(m: Sessions, q: seq<Id>)
    requires Lists(m, q)
    ensures |m| == |q|
    decreases |q|
  {
    if q == [] {
      assert m == map[];
    } else {
      var front, last := q[..|q| - 1], q[|q| - 1];
      var rest := m - {last};
      assert q == front + [last];
      forall id ensures id in front <==> id in rest {
        if id in front {
          var i :| 0 <= i < |front| && front[i] == id;
          assert m[q[i]].position == i && m[last].position == |q| - 1;
        }
      }
      ListsHasSize(rest, front);
      assert m.Keys == rest.Keys + {last};
    }
  }

  // Positions that move.

  /** Where a position goes when a session moves from one place to another. */
  function Shift(p: int, from: int, to: int): int {
    if p == from then to
    else if from < p <= to then p - 1
    else if to <= p < from then p + 1
    else p
  }

  function ShiftOthers(p: int, from: int, to: int): int {
    if from < to then (if from < p <= to then p - 1 else p)
    else if to <= p < from then p + 1
    else p
  }

  function Moved(m: Sessions, id: Id, to: int): Sessions
    requires id in m
  {
    var from := m[id].position;
    map k | k in m :: m[k].(position := if k == id then to else ShiftOthers(m[k].position, from, to))
  }

  function Swapped(p: int, a: int, b: int): int {
    if p == a then b else if p == b then a else p
  }

  function Exchanged(m: Sessions, a: int, b: int): Sessions {
    map k | k in m :: m[k].(position := Swapped(m[k].position, a, b))
  }

  function SwapAt(q: seq<Id>, i: nat, j: nat): seq<Id>
    requires i < |q| && j < |q|
  {
    q[i := q[j]][j := q[i]]
  }

  /** Element i taken out and put back at place j. */
  function Relocated(q: seq<Id>, i: nat, j: nat): (r: seq<Id>)
    requires i < |q| && j < |q|
    ensures |r| == |q|
  {
    var rest := q[..i] + q[i + 1..];
    rest[..j] + [q[i]] + rest[j..]
  }

  lemma RelocatedAt(q: seq<Id>, i: nat, j: nat, k: nat)
    requires i < |q| && j < |q| && k < |q|
    ensures 0 <= Shift(k, i, j) < |q| && Relocated(q, i, j)[Shift(k, i, j)] == q[k]
  {
  }

  lemma ShiftOnto(i: nat, j: nat, n: nat, k: nat)
    requires i < n && j < n && k < n
    ensures 0 <= Shift(k, j, i) < n && Shift(Shift(k, j, i), i, j) == k
  {
  }

  /** Renumbering every position by a bijection permutes the list by it. */
  lemma RenumberedLists(m: Sessions, q: seq<Id>, r: Sessions, q': seq<Id>, there: int -> int, back: int -> int)
    requires Lists(m, q) && r.Keys == m.Keys && |q'| == |q|
    requires forall id :: id in m ==> r[id].position == there(m[id].position)
    requires forall k :: 0 <= k < |q| ==> 0 <= there(k) < |q| && q'[there(k)] == q[k]
    requires forall k :: 0 <= k < |q| ==> 0 <= back(k) < |q| && there(back(k)) == k
    ensures Lists(r, q')
  {
    forall i | 0 <= i < |q'| ensures q'[i] in r && r[q'[i]].position == i {
      assert q'[there(back(i))] == q[back(i)];
    }
    forall id ensures id in q' <==> id in r {
      if id in r {
        ListsAt(m, q, id);
        assert q'[there(m[id].position)] == id;
      }
    }
  }

  lemma MoveRelocates(m: Sessions, q: seq<Id>, id: Id, j: nat)
    requires Lists(m, q) && id in m && j < |q|
    ensures 0 <= m[id].position < |q|
    ensures Lists(Moved(m, id, j), Relocated(q, m[id].position, j))
  {
    ListsAt(m, q, id);
    ListsIsDistinct(m, q);
    var i := m[id].position;
    var there := k => Shift(k, i, j);
    var back := k => Shift(k, j, i);
    forall k | 0 <= k < |q| ensures 0 <= there(k) < |q| && Relocated(q, i, j)[there(k)] == q[k] {
      RelocatedAt(q, i, j, k);
    }
    forall k | 0 <= k < |q| ensures 0 <= back(k) < |q| && there(back(k)) == k {
      ShiftOnto(i, j, |q|, k);
    }
    RenumberedLists(m, q, Moved(m, id, j), Relocated(q, i, j), there, back);
  }

  lemma ExchangeSwaps(m: Sessions, q: seq<Id>, i: nat, j: nat)
    requires Lists(m, q) && i < |q| && j < |q|
    ensures Lists(Exchanged(m, i, j), SwapAt(q, i, j))
  {
    var there := k => Swapped(k, i, j);
    RenumberedLists(m, q, Exchanged(m, i, j), SwapAt(q, i, j), there, there);
  }

  // The last position.

  ghost predicate IsMaxPosition(m: Sessions, p: int) {
    && p >= -1
    && (forall id :: id in m ==> m[id].position <= p)
    && (p == -1 || exists id :: id in m && m[id].position == p)
  }

  lemma ListsMax(m: Sessions, q: seq<Id>, p: int)
    requires Lists(m, q) && IsMaxPosition(m, p)
    ensures p == |q| - 1
  {
    if q != [] {
      assert m[q[|q| - 1]].position == |q| - 1;
    }
    if p != -1 {
      var id :| id in m && m[id].position == p;
      ListsAt(m, q, id);
    }
  }

  // Compaction.

  /** q lists all sessions by increasing position. */
  ghost predicate Sorts(m: Sessions, q: seq<Id>) {
    && (forall id :: id in q <==> id in m)
    && (forall i, j :: 0 <= i < j < |q| ==> q[i] != q[j])
    && (forall i, j :: 0 <= i < j < |q| ==> q[i] in m && q[j] in m && m[q[i]].position <= m[q[j]].position)
  }

  ghost predicate SameButPositions(m: Sessions, r: Sessions) {
    && r.Keys == m.Keys
    && forall id :: id in m ==> r[id] == m[id].(position := r[id].position)
  }

  /** r is m with the positions renumbered from 0 in the same order. */
  ghost predicate Compacts(m: Sessions, r: Sessions) {
    SameButPositions(m, r) && exists q :: Sorts(m, q) && Lists(r, q)
  }

  lemma EmptyAlike(m: Sessions, p: seq<Id>, q: seq<Id>)
    requires Sorts(m, p) && Sorts(m, q)
    ensures p == [] <==> q == []
  {
    if p != [] {
      assert p[0] in q;
    }
    if q != [] {
      assert q[0] in p;
    }
  }

  lemma FirstIsLeast(m: Sessions, p: seq<Id>, q: seq<Id>)
    requires Sorts(m, p) && Sorts(m, q) && p != [] && q != []
    ensures p[0] in m && q[0] in m && m[p[0]].position <= m[q[0]].position
  {
    assert p[0] in m && p[0] in q;
    assert q[0] in p;
  }

  lemma SameFirst(m: Sessions, p: seq<Id>, q: seq<Id>)
    requires DistinctPositions(m) && Sorts(m, p) && Sorts(m, q) && p != [] && q != []
    ensures p[0] == q[0]
  {
    hide Sorts;
    FirstIsLeast(m, p, q);
    FirstIsLeast(m, q, p);
  }

  /** With distinct positions there is only one sorted list. */
  lemma {:induction false} SortedOnce(m: Sessions, p: seq<Id>, q: seq<Id>)
    requires DistinctPositions(m) && Sorts(m, p) && Sorts(m, q)
    ensures p == q
    decreases |p|
  {
    hide Sorts;
    EmptyAlike(m, p, q);
    if p != [] {
      SameFirst(m, p, q);
      RestSorts(m, p);
      RestSorts(m, q);
      SortedOnce(m - {p[0]}, p[1..], q[1..]);
      assert p == [p[0]] + p[1..] && q == [q[0]] + q[1..];
    }
  }

  lemma RestSorts(m: Sessions, q: seq<Id>)
    requires Sorts(m, q) && q != []
    ensures Sorts(m - {q[0]}, q[1..])
  {
    var tail := q[1..];
    assert q == [q[0]] + tail;
    assert q[0] !in tail by { assert forall i :: 0 <= i < |tail| ==> tail[i] == q[i + 1]; }
    assert forall id :: id in q <==> id == q[0] || id in tail;
  }

  lemma ListsSorts(m: Sessions, q: seq<Id>)
    requires Lists(m, q)
    ensures Sorts(m, q)
  {
  }

  /** Compacting distinct positions keeps their order, both ways. */
  lemma CompactKeepsOrder(m: Sessions, r: Sessions, a: Id, b: Id)
    requires Compacts(m, r) && DistinctPositions(m) && a in m && b in m
    ensures m[a].position < m[b].position <==> r[a].position < r[b].position
  {
    var q :| Sorts(m, q) && Lists(r, q);
    ListsAt(r, q, a);
    ListsAt(r, q, b);
  }

  /** Compacting a dense queue changes nothing, so compacting twice is compacting once. */
  lemma CompactIsIdempotent(m: Sessions, q: seq<Id>, r: Sessions)
    requires Lists(m, q) && Compacts(m, r)
    ensures r == m
  {
    var p :| Sorts(m, p) && Lists(r, p);
    ListsSorts(m, q);
    ListsIsDistinct(m, q);
    SortedOnce(m, p, q);
    forall id | id in m ensures r[id].position == m[id].position {
      ListsAt(m, q, id);
    }
  }

  lemma DeleteSorts(m: Sessions, q: seq<Id>, id: Id)
    requires Lists(m, q) && id in m
    ensures 0 <= m[id].position < |q|
    ensures Sorts(m - {id}, q[..m[id].position] + q[m[id].position + 1..])
  {
    ListsAt(m, q, id);
    var i := m[id].position;
    var rest := q[..i] + q[i + 1..];
    forall k | 0 <= k < |rest|
      ensures rest[k] in m && rest[k] != id && m[rest[k]].position == if k < i then k else k + 1
    {
    }
    forall x ensures x in rest <==> x in m - {id} {
      if x in m - {id} {
        ListsAt(m, q, x);
        var k := m[x].position;
        assert rest[if k < i then k else k - 1] == x;
      }
    }
  }

  /** Removing a session and compacting deletes it from the list. */
  lemma RemoveDeletes(m: Sessions, q: seq<Id>, id: Id, r: Sessions)
    requires Lists(m, q) && id in m && Compacts(m - {id}, r)
    ensures 0 <= m[id].position < |q|
    ensures Lists(r, q[..m[id].position] + q[m[id].position + 1..])
  {
    var p :| Sorts(m - {id}, p) && Lists(r, p);
    DeleteSorts(m, q, id);
    ListsIsDistinct(m, q);
    assert DistinctPositions(m - {id});
    SortedOnce(m - {id}, p, q[..m[id].position] + q[m[id].position + 1..]);
  }

  // Starting what waits.

  predicate IsWaiting(s: Session) {
    s.state.Adding? && !s.started
  }

  predicate IsActive(s: Session) {
    match s.state
    case Downloading => true
    case Metadata => true
    case Verifying => true
    case Adding => s.started
    case _ => false
  }

  function Waiting(m: Sessions): set<Id> {
    set id | id in m && IsWaiting(m[id])
  }

  function Active(m: Sessions): set<Id> {
    set id | id in m && IsActive(m[id])
  }

  /** Seeding, complete, paused and failed sessions are out of the queue. */
  function Resting(m: Sessions): set<Id> {
    set id | id in m && m[id].state in {Seeding, Complete, Paused, Error}
  }

  /** Every session waits, rests or takes a slot, and does only one of these; so the slots taken are
      what the other two leave. A slot is taken in Downloading, Metadata and Verifying, and in Adding
      once started. */
  lemma SlotsTaken(m: Sessions)
    ensures Active(m) == set id | id in m &&
      (m[id].state in {Downloading, Metadata, Verifying} || (m[id].state == Adding && m[id].started))
    ensures Active(m) + Waiting(m) + Resting(m) == m.Keys
    ensures Active(m) !! Waiting(m) !! Resting(m)
    ensures |Active(m)| == |m| - |Waiting(m)| - |Resting(m)|
  {
    var a, w, x := Active(m), Waiting(m), Resting(m);
    forall id | id in m
      ensures m[id].state in {Seeding, Complete, Paused, Error} <==> !IsActive(m[id]) && !IsWaiting(m[id])
    {
      OneRole(m[id]);
    }
    assert m.Keys == a + w + x;
    Partition(m.Keys, a, w, x);
  }

  lemma OneRole(s: Session)
    ensures IsActive(s) <==>
      s.state in {Downloading, Metadata, Verifying} || (s.state == Adding && s.started)
    ensures s.state in {Seeding, Complete, Paused, Error} <==> !IsActive(s) && !IsWaiting(s)
  {
  }

  lemma Partition(all: set<Id>, a: set<Id>, b: set<Id>, c: set<Id>)
    requires all == a + b + c && a !! b !! c
    ensures |all| == |a| + |b| + |c|
  {
    assert |all| == |a + b| + |c| && |a + b| == |a| + |b|;
  }

  /** How many sessions there is room and need to start. */
  function ToStart(m: Sessions, maxActive: int): nat {
    var free := maxActive - |Active(m)|;
    if free <= 0 then 0 else if free < |Waiting(m)| then free else |Waiting(m)|
  }

  function Begun(m: Sessions, ids: set<Id>): Sessions {
    map id | id in m :: if id in ids then m[id].(started := true) else m[id]
  }

  /** The right number of waiting sessions, none of them behind one that keeps waiting. */
  ghost predicate FirstWaiting(m: Sessions, maxActive: int, ids: set<Id>) {
    && ids <= Waiting(m)
    && |ids| == ToStart(m, maxActive)
    && forall a, b :: a in ids && b in Waiting(m) && b !in ids ==> m[a].position <= m[b].position
  }

  ghost predicate Starts(m: Sessions, maxActive: int, r: Sessions) {
    exists ids :: FirstWaiting(m, maxActive, ids) && r == Begun(m, ids)
  }

  lemma BegunCounts(m: Sessions, ids: set<Id>)
    requires ids <= Waiting(m)
    ensures Active(Begun(m, ids)) == Active(m) + ids
    ensures |Active(Begun(m, ids))| == |Active(m)| + |ids|
    ensures Waiting(Begun(m, ids)) == Waiting(m) - ids
  {
    assert Active(m) !! ids;
  }

  /** Starting never takes the sessions in Downloading, Metadata, Verifying or a started Adding over
      the limit, and stops only when there are `maxActive` of them or nobody waits. */
  lemma StartFillsSlots(m: Sessions, maxActive: int, r: Sessions)
    requires Starts(m, maxActive, r)
    ensures |Active(r)| == |Active(m)| + ToStart(m, maxActive)
    ensures var taken := set id | id in r &&
        (r[id].state in {Downloading, Metadata, Verifying} || (r[id].state == Adding && r[id].started));
      && (r != m || |Active(m)| <= maxActive ==> |taken| <= maxActive)
      && (|taken| >= maxActive || forall id :: id in r && r[id].state == Adding ==> r[id].started)
  {
    var ids :| FirstWaiting(m, maxActive, ids) && r == Begun(m, ids);
    BegunCounts(m, ids);
    if |ids| == |Waiting(m)| {
      SameSize(ids, Waiting(m));
    }
    NobodyWaits(r);
    BegunNone(m, ids);
    hide Active, Begun, Waiting, IsActive, IsWaiting;
    SlotsTaken(r);
  }

  /** Starting does nothing but mark unstarted sessions in Adding as started. */
  lemma StartOnlyMarks(m: Sessions, maxActive: int, r: Sessions, id: Id)
    requires Starts(m, maxActive, r)
    ensures id in r <==> id in m
    ensures id in m ==> r[id] == m[id] || (m[id].state == Adding && r[id] == m[id].(started := true))
  {
    var ids :| FirstWaiting(m, maxActive, ids) && r == Begun(m, ids);
  }

  lemma NobodyWaits(r: Sessions)
    ensures Waiting(r) == {} <==> forall id :: id in r && r[id].state == Adding ==> r[id].started
  {
    assert forall id :: id in Waiting(r) <==> id in r && r[id].state == Adding && !r[id].started;
  }

  lemma BegunNone(m: Sessions, ids: set<Id>)
    ensures |ids| == 0 ==> Begun(m, ids) == m
  {
  }

  lemma SameSize(a: set<Id>, b: set<Id>)
    requires a <= b && |a| == |b|
    ensures a == b
  {
    assert b == a + (b - a);
    assert |b| == |a| + |b - a|;
  }

  /** With distinct positions there is only one choice of sessions to start. */
  lemma StartIsDetermined(m: Sessions, maxActive: int, r: Sessions, r': Sessions)
    requires DistinctPositions(m) && Starts(m, maxActive, r) && Starts(m, maxActive, r')
    ensures r == r'
  {
    var a :| FirstWaiting(m, maxActive, a) && r == Begun(m, a);
    var b :| FirstWaiting(m, maxActive, b) && r' == Begun(m, b);
    FirstWaitingOnce(m, maxActive, a, b);
  }

  lemma FirstWaitingOnce(m: Sessions, maxActive: int, a: set<Id>, b: set<Id>)
    requires DistinctPositions(m) && FirstWaiting(m, maxActive, a) && FirstWaiting(m, maxActive, b)
    ensures a == b
  {
    if b <= a {
      SameSize(b, a);
    } else {
      var y :| y in b && y !in a;
      forall x | x in a ensures x in b {
        assert m[x].position <= m[y].position;
      }
      SameSize(a, b);
    }
  }

  lemma StartKeepsList(m: Sessions, q: seq<Id>, maxActive: int, r: Sessions)
    requires Lists(m, q) && Starts(m, maxActive, r)
    ensures Lists(r, q)
  {
  }

  // Runs.

  /** One call on the engine, or a session changing state on its own. */
  datatype Step =
    | Add(id: Id)
    | Remove(id: Id)
    | Top(id: Id)
    | Up(id: Id)
    | Down(id: Id)
    | Bottom(id: Id)
    | Compact
    | Start
    | Progress(id: Id, state: State, started: bool)

  ghost predicate Next(m: Sessions, maxActive: int, step: Step, r: Sessions) {
    match step
    case Add(id) => AddNext(m, maxActive, id, r)
    case Remove(id) => if id in m then Compacts(m - {id}, r) else r == m
    case Top(id) =>
      if id in m && m[id].position != 0 then Starts(Moved(m, id, 0), maxActive, r) else r == m
    case Up(id) =>
      if id in m && m[id].position > 0
      then Starts(Exchanged(m, m[id].position, m[id].position - 1), maxActive, r)
      else r == m
    case Down(id) => DownNext(m, maxActive, id, r)
    case Bottom(id) => BottomNext(m, id, r)
    case Compact => Compacts(m, r)
    case Start => Starts(m, maxActive, r)
    case Progress(id, state, started) =>
      id in m && r == m[id := m[id].(state := state, started := started)]
  }

  ghost predicate AddNext(m: Sessions, maxActive: int, id: Id, r: Sessions) {
    if id in m || |m| >= MAX_SESSIONS then r == m
    else exists p :: IsMaxPosition(m, p) && Starts(m[id := Session(p + 1, Adding, false)], maxActive, r)
  }

  ghost predicate DownNext(m: Sessions, maxActive: int, id: Id, r: Sessions) {
    if id !in m then r == m
    else exists p :: IsMaxPosition(m, p) && DownFrom(m, maxActive, id, p, r)
  }

  ghost predicate DownFrom(m: Sessions, maxActive: int, id: Id, max: int, r: Sessions)
    requires id in m
  {
    var i := m[id].position;
    if i < max then Starts(Exchanged(m, i, i + 1), maxActive, r) else r == m
  }

  ghost predicate BottomNext(m: Sessions, id: Id, r: Sessions) {
    if id !in m then r == m
    else exists p :: IsMaxPosition(m, p) && r == if m[id].position == p then m else Moved(m, id, p)
  }

  function IndexOf(q: seq<Id>, id: Id): (i: nat)
    requires id in q
    ensures i < |q| && q[i] == id
  {
    if q[0] == id then 0 else 1 + IndexOf(q[1..], id)
  }

  function Deleted(q: seq<Id>, id: Id): seq<Id>
    requires id in q
  {
    q[..IndexOf(q, id)] + q[IndexOf(q, id) + 1..]
  }

  /** What a step does to the list. */
  function Effect(q: seq<Id>, step: Step): seq<Id> {
    match step
    case Add(id) => if id in q || |q| >= 10000 then q else q + [id]
    case Remove(id) => if id in q then Deleted(q, id) else q
    case Top(id) => if id in q then [id] + Deleted(q, id) else q
    case Bottom(id) => if id in q then Deleted(q, id) + [id] else q
    case Up(id) => if id in q && IndexOf(q, id) > 0 then SwapAt(q, IndexOf(q, id), IndexOf(q, id) - 1) else q
    case Down(id) => Lowered(q, id)
    case _ => q
  }

  function Lowered(q: seq<Id>, id: Id): seq<Id> {
    if id in q && IndexOf(q, id) < |q| - 1 then SwapAt(q, IndexOf(q, id), IndexOf(q, id) + 1) else q
  }

  lemma IndexIsPosition(m: Sessions, q: seq<Id>, id: Id)
    requires Lists(m, q) && id in m
    ensures id in q && IndexOf(q, id) == m[id].position
  {
    ListsAt(m, q, id);
    var i := IndexOf(q, id);
    assert m[q[i]].position == i;
  }

  lemma AddAppends(m: Sessions, q: seq<Id>, id: Id, p: int)
    requires Lists(m, q) && id !in m && IsMaxPosition(m, p)
    ensures Lists(m[id := Session(p + 1, Adding, false)], q + [id])
  {
    ListsMax(m, q, p);
  }

  lemma RelocatedToEnds(q: seq<Id>, i: nat)
    requires i < |q|
    ensures Relocated(q, i, 0) == [q[i]] + (q[..i] + q[i + 1..])
    ensures Relocated(q, i, |q| - 1) == (q[..i] + q[i + 1..]) + [q[i]]
  {
  }

  lemma TopMovesToFront(m: Sessions, q: seq<Id>, id: Id)
    requires Lists(m, q) && id in m
    ensures id in q && Lists(Moved(m, id, 0), [id] + Deleted(q, id))
  {
    hide Moved, Relocated;
    IndexIsPosition(m, q, id);
    MoveRelocates(m, q, id, 0);
    RelocatedToEnds(q, m[id].position);
  }

  lemma BottomMovesToBack(m: Sessions, q: seq<Id>, id: Id)
    requires Lists(m, q) && id in m
    ensures id in q && Lists(Moved(m, id, |q| - 1), Deleted(q, id) + [id])
  {
    hide Moved, Relocated;
    IndexIsPosition(m, q, id);
    MoveRelocates(m, q, id, |q| - 1);
    RelocatedToEnds(q, m[id].position);
  }

  /** Moving to where it already is changes nothing. */
  lemma AlreadyThere(m: Sessions, q: seq<Id>, id: Id)
    requires Lists(m, q) && id in m
    ensures id in q
    ensures m[id].position == 0 ==> [id] + Deleted(q, id) == q
    ensures m[id].position == |q| - 1 ==> Deleted(q, id) + [id] == q
  {
    IndexIsPosition(m, q, id);
  }

  /** Every step has exactly its named effect on the list. */
  lemma StepFollows(m: Sessions, q: seq<Id>, maxActive: int, step: Step, r: Sessions)
    requires Lists(m, q) && Next(m, maxActive, step, r)
    ensures Lists(r, Effect(q, step))
  {
    hide Lists, Starts, Compacts, Moved, Lowered, Deleted, IndexOf, SwapAt, Exchanged, AddNext, DownNext, BottomNext;
    match step
    case Add(id) => AddFollows(m, q, maxActive, id, r);
    case Remove(id) => RemoveFollows(m, q, maxActive, id, r);
    case Top(id) => TopFollows(m, q, maxActive, id, r);
    case Up(id) => UpFollows(m, q, maxActive, id, r);
    case Down(id) => DownFollows(m, q, maxActive, id, r); assert Effect(q, step) == Lowered(q, id);
    case Bottom(id) => BottomFollows(m, q, id, r);
    case Compact => CompactFollows(m, q, r);
    case Start => StartFollows(m, q, maxActive, r);
    case Progress(id, state, started) => ProgressFollows(m, q, maxActive, step, r);
  }

  lemma RemoveFollows(m: Sessions, q: seq<Id>, maxActive: int, id: Id, r: Sessions)
    requires Lists(m, q) && Next(m, maxActive, Remove(id), r)
    ensures Lists(r, Effect(q, Remove(id)))
  {
    if id in m {
      IndexIsPosition(m, q, id);
      RemoveDeletes(m, q, id, r);
    }
  }

  lemma CompactFollows(m: Sessions, q: seq<Id>, r: Sessions)
    requires Lists(m, q) && Compacts(m, r)
    ensures Lists(r, Effect(q, Compact))
  {
    CompactIsIdempotent(m, q, r);
  }

  lemma StartFollows(m: Sessions, q: seq<Id>, maxActive: int, r: Sessions)
    requires Lists(m, q) && Starts(m, maxActive, r)
    ensures Lists(r, Effect(q, Start))
  {
    StartKeepsList(m, q, maxActive, r);
  }

  lemma ProgressFollows(m: Sessions, q: seq<Id>, maxActive: int, step: Step, r: Sessions)
    requires step.Progress? && Lists(m, q) && Next(m, maxActive, step, r)
    ensures Lists(r, Effect(q, step))
  {
  }

  lemma AddFollows(m: Sessions, q: seq<Id>, maxActive: int, id: Id, r: Sessions)
    requires Lists(m, q) && AddNext(m, maxActive, id, r)
    ensures Lists(r, Effect(q, Add(id)))
  {
    ListsHasSize(m, q);
    if id !in m && |m| < MAX_SESSIONS {
      var p :| IsMaxPosition(m, p) && Starts(m[id := Session(p + 1, Adding, false)], maxActive, r);
      AddAppends(m, q, id, p);
      StartKeepsList(m[id := Session(p + 1, Adding, false)], q + [id], maxActive, r);
    }
  }

  lemma TopFollows(m: Sessions, q: seq<Id>, maxActive: int, id: Id, r: Sessions)
    requires Lists(m, q) && Next(m, maxActive, Top(id), r)
    ensures Lists(r, Effect(q, Top(id)))
  {
    if id in m {
      AlreadyThere(m, q, id);
      if m[id].position != 0 {
        TopMovesToFront(m, q, id);
        StartKeepsList(Moved(m, id, 0), [id] + Deleted(q, id), maxActive, r);
      }
    }
  }

  lemma SwapFollows(m: Sessions, q: seq<Id>, i: nat, j: nat, maxActive: int, r: Sessions)
    requires Lists(m, q) && i < |q| && j < |q| && Starts(Exchanged(m, i, j), maxActive, r)
    ensures Lists(r, SwapAt(q, i, j))
  {
    ExchangeSwaps(m, q, i, j);
    StartKeepsList(Exchanged(m, i, j), SwapAt(q, i, j), maxActive, r);
  }

  lemma UpFollows(m: Sessions, q: seq<Id>, maxActive: int, id: Id, r: Sessions)
    requires Lists(m, q) && Next(m, maxActive, Up(id), r)
    ensures Lists(r, Effect(q, Up(id)))
  {
    if id in m {
      IndexIsPosition(m, q, id);
      var i := m[id].position;
      if i > 0 {
        SwapFollows(m, q, i, i - 1, maxActive, r);
      }
    }
  }

  lemma DownFollows(m: Sessions, q: seq<Id>, maxActive: int, id: Id, r: Sessions)
    requires Lists(m, q) && DownNext(m, maxActive, id, r)
    ensures Lists(r, Lowered(q, id))
  {
    if id in m {
      IndexIsPosition(m, q, id);
      var i := m[id].position;
      var p :| IsMaxPosition(m, p) && DownFrom(m, maxActive, id, p, r);
      ListsMax(m, q, p);
      hide Lists, Starts, Exchanged, SwapAt, IndexOf, IsMaxPosition;
      if i < p {
        SwapFollows(m, q, i, i + 1, maxActive, r);
      }
      assert Lists(r, Lowered(q, id));
    }
  }

  lemma BottomFollows(m: Sessions, q: seq<Id>, id: Id, r: Sessions)
    requires Lists(m, q) && BottomNext(m, id, r)
    ensures Lists(r, Effect(q, Bottom(id)))
  {
    if id in m {
      AlreadyThere(m, q, id);
      var p :| IsMaxPosition(m, p) && r == if m[id].position == p then m else Moved(m, id, p);
      ListsMax(m, q, p);
      hide Moved, Deleted;
      BottomMovesToBack(m, q, id);
    }
  }

  ghost predicate StepAt(trace: seq<Sessions>, limits: seq<int>, steps: seq<Step>, i: nat)
    requires i < |steps| && |limits| == |steps| && |trace| == |steps| + 1
  {
    Next(trace[i], limits[i], steps[i], trace[i + 1])
  }

  /** A run of steps, each under the limit in force at the time. */
  ghost predicate Run(trace: seq<Sessions>, limits: seq<int>, steps: seq<Step>) {
    && |limits| == |steps|
    && |trace| == |steps| + 1
    && forall i :: 0 <= i < |steps| ==> StepAt(trace, limits, steps, i)
  }

  /** The list after the first n steps. */
  function EffectOf(q: seq<Id>, steps: seq<Step>, n: nat): seq<Id>
    requires n <= |steps|
  {
    if n == 0 then q else Effect(EffectOf(q, steps, n - 1), steps[n - 1])
  }

  /** From a dense start the positions stay dense, and the list is the named effects in turn. */
  lemma {:induction false} QueueStaysDense(trace: seq<Sessions>, limits: seq<int>, steps: seq<Step>, q: seq<Id>, n: nat)
    requires Run(trace, limits, steps) && Lists(trace[0], q) && n <= |steps|
    ensures Lists(trace[n], EffectOf(q, steps, n))
  {
    if n > 0 {
      QueueStaysDense(trace, limits, steps, q, n - 1);
      assert StepAt(trace, limits, steps, n - 1);
      StepFollows(trace[n - 1], EffectOf(q, steps, n - 1), limits[n - 1], steps[n - 1], trace[n]);
    }
  }
}
