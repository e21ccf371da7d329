/** The piece queue with its availability buckets. Every method keeps the buckets in step with the
    counts and is proved against the bucket-free queue of PieceQueueSpec. */
module PieceQueue {
  import opened Bytes
  import opened Bitfield
  import opened PieceQueueSpec
  import opened Sets

  type Buckets = map<int, set<nat>>

  /** The redundant index: each remaining piece is in exactly one bucket, the one keyed by its count;
      no bucket is empty or holds anything else. */
  ghost predicate Indexed(q: Queue, buckets: Buckets) {
    && (forall i :: i in q.pieces ==> Avail(q, i) in buckets && i in buckets[Avail(q, i)])
    && (forall a :: a in buckets ==> buckets[a] != {})
    && (forall a, i :: a in buckets && i in buckets[a] ==> i in q.pieces && Avail(q, i) == a)
  }

  /** Takes a piece out of a bucket, and the bucket out when it becomes empty. */
  function Without(buckets: Buckets, i: nat, a: int): Buckets {
    if a !in buckets then buckets
    else if buckets[a] - {i} == {} then buckets - {a}
    else buckets[a := buckets[a] - {i}]
  }

  function With(buckets: Buckets, i: nat, a: int): Buckets {
    buckets[a := (if a in buckets then buckets[a] else {}) + {i}]
  }

  lemma MoveKeepsIndexed(q: Queue, buckets: Buckets, i: nat, a: int)
    requires Indexed(q, buckets) && i in q.pieces
    ensures Indexed(q.(availability := q.availability[i := a]), With(Without(buckets, i, Avail(q, i)), i, a))
  {
    var q' := q.(availability := q.availability[i := a]);
    var between := Without(buckets, i, Avail(q, i));
    var after := With(between, i, a);
    WithoutFits(q, buckets, i);
    forall j | j in q'.pieces ensures Avail(q', j) in after && j in after[Avail(q', j)] {
      if j != i {
        assert Avail(q, j) in between && j in between[Avail(q, j)];
      }
    }
    forall x | x in after ensures after[x] != {} {
      if x == a {
        assert i in after[x];
      }
    }
    forall x, j | x in after && j in after[x] ensures j in q'.pieces && Avail(q', j) == x {
      if x != a || j != i {
        assert x in between && j in between[x];
      }
    }
  }

  /** Taking a piece out of its bucket leaves every other piece where it was. */
  lemma WithoutFits(q: Queue, buckets: Buckets, i: nat)
    requires Indexed(q, buckets)
    ensures var rest := Without(buckets, i, Avail(q, i));
      && (forall j :: j in q.pieces && j != i ==> Avail(q, j) in rest && j in rest[Avail(q, j)])
      && (forall x :: x in rest ==> rest[x] != {})
      && (forall x, j :: x in rest && j in rest[x] ==> j in q.pieces && j != i && Avail(q, j) == x)
  {
    var rest := Without(buckets, i, Avail(q, i));
    forall j | j in q.pieces && j != i ensures Avail(q, j) in rest && j in rest[Avail(q, j)] {
      assert j in buckets[Avail(q, j)];
      if Avail(q, j) == Avail(q, i) {
        assert j in buckets[Avail(q, i)] - {i};
      }
    }
    forall x, j | x in rest && j in rest[x] ensures j in q.pieces && j != i && Avail(q, j) == x {
      assert x in buckets && j in buckets[x];
    }
  }

  lemma RemoveKeepsIndexed(q: Queue, buckets: Buckets, i: nat)
    requires Indexed(q, buckets)
    ensures Indexed(Completed(q, i), Without(buckets, i, Avail(q, i)))
  {
    WithoutFits(q, buckets, i);
  }

  lemma IndexDependsOnCounts(q: Queue, q': Queue, buckets: Buckets)
    requires Indexed(q, buckets) && q'.pieces == q.pieces
    requires forall i :: i in q.pieces ==> Avail(q', i) == Avail(q, i)
    ensures Indexed(q', buckets)
  {
  }

  /** Some piece of the list has this index and is not skipped. */
  ghost predicate Queued(works: seq<PieceWork>, skip: Option<Bits>, i: nat) {
    exists k :: 0 <= k < |works| && works[k].index == i && !Skipped(skip, i)
  }

  /** The positions among the first n of the list that are not skipped. */
  function Unskipped(works: seq<PieceWork>, skip: Option<Bits>, n: nat): set<nat>
    requires n <= |works|
  {
    set k: nat | k < n && !Skipped(skip, works[k].index)
  }

  method Filter(works: seq<PieceWork>, skip: Option<Bits>) returns (remaining: map<nat, PieceWork>, filtered: nat)
    ensures forall i :: i in remaining <==> Queued(works, skip, i)
    ensures forall i :: i in remaining ==> remaining[i].index == i && remaining[i] in works
    ensures |remaining| <= filtered == |Unskipped(works, skip, |works|)|
  {
    hide HasPiece;
    remaining, filtered := map[], 0;
    for k := 0 to |works|
      invariant |remaining| <= filtered == |Unskipped(works, skip, k)|
      invariant forall i :: i in remaining ==> remaining[i].index == i && remaining[i] in works
      invariant forall i :: i in remaining <==> Queued(works[..k], skip, i)
    {
      var pw := works[k];
      QueuedSnoc(works, skip, k);
      UnskippedSnoc(works, skip, k);
      if !(skip.Some? && HasPiece(skip.value, pw.index)) {
        filtered := filtered + 1;
        remaining := remaining[pw.index := pw];
      }
    }
    assert works[..|works|] == works;
  }

  lemma UnskippedSnoc(works: seq<PieceWork>, skip: Option<Bits>, k: nat)
    requires k < |works|
    ensures |Unskipped(works, skip, k + 1)| ==
      |Unskipped(works, skip, k)| + if Skipped(skip, works[k].index) then 0 else 1
  {
    hide Skipped;
    var more := Unskipped(works, skip, k + 1);
    if Skipped(skip, works[k].index) {
      assert more == Unskipped(works, skip, k);
    } else {
      assert more == Unskipped(works, skip, k) + {k};
    }
  }

  lemma QueuedSnoc(works: seq<PieceWork>, skip: Option<Bits>, k: nat)
    requires k < |works|
    ensures forall i :: Queued(works[..k + 1], skip, i) <==>
      Queued(works[..k], skip, i) || (i == works[k].index && !Skipped(skip, i))
  {
    forall i ensures Queued(works[..k + 1], skip, i) <==>
        Queued(works[..k], skip, i) || (i == works[k].index && !Skipped(skip, i))
    {
      if Queued(works[..k], skip, i) {
        var j :| 0 <= j < k && works[..k][j].index == i;
        assert works[..k + 1][j].index == i;
      }
      if i == works[k].index {
        assert works[..k + 1][k].index == i;
      }
    }
  }

  /** The first and the last piece of the torrent, as far as they are queued. */
  function FirstAndLast(queued: set<nat>, torrentPieces: int, wanted: bool): set<nat> {
    set i | i in queued && wanted && torrentPieces > 0 && (i == 0 || i == torrentPieces - 1)
  }

  method Ends(queued: set<nat>, torrentPieces: int, wanted: bool) returns (ends: set<nat>)
    ensures ends == FirstAndLast(queued, torrentPieces, wanted) && ends <= queued
  {
    ends := {};
    if wanted && torrentPieces > 0 {
      if 0 in queued {
        ends := {0};
      }
      var last := torrentPieces - 1;
      if last != 0 {
        if last in queued {
          ends := ends + {last};
        }
      }
    }
  }

  /** The counts after the pieces in `seen` have been visited. */
  function Counted(q: Queue, seen: set<nat>, bf: Option<Bits>, delta: int): map<nat, int> {
    q.availability + map i | i in seen && Holds(bf, i) :: Avail(q, i) + delta
  }

  lemma CountedNone(q: Queue, bf: Option<Bits>, delta: int)
    ensures Counted(q, {}, bf, delta) == q.availability
  {
  }

  lemma CountedAll(q: Queue, bf: Option<Bits>, delta: int)
    ensures Counted(q, q.pieces.Keys, bf, delta) == Shifted(q, bf, delta).availability
  {
  }

  lemma CountedStep(q: Queue, seen: set<nat>, i: nat, bf: Option<Bits>, delta: int)
    requires i !in seen
    ensures Counted(q, seen + {i}, bf, delta) ==
      if Holds(bf, i) then Counted(q, seen, bf, delta)[i := Avail(q, i) + delta] else Counted(q, seen, bf, delta)
  {
    hide HasPiece;
  }

  class PieceQueue {
    var pieces: map<nat, PieceWork>
    var availability: map<nat, int>
    var pending: set<nat>
    var done: set<nat>
    var endgame: bool
    var totalPieces: nat
    var skipMask: Option<Bits>
    var priority: set<nat>
    var sequential: bool
    var buckets: Buckets

    function View(): Queue
      reads this
    {
      Queue(pieces, availability, pending, done, endgame, totalPieces, skipMask, priority, sequential)
    }

    ghost predicate Valid()
      reads this
    {
      Wellformed(View()) && Indexed(View(), buckets)
    }

    /** NewPieceQueueWithOptions: skipped pieces never enter the queue. */
    constructor (works: seq<PieceWork>, skip: Option<Bits>, torrentPieces: int, prioritizeFirstLast: bool,
                 sequential: bool)
      ensures Valid()
      ensures forall i :: i in pieces <==> Queued(works, skip, i)
      ensures forall i :: i in pieces ==> pieces[i] in works
      ensures availability == map[] && pending == {} && done == {} && !endgame && skipMask == None
      ensures this.sequential == sequential && totalPieces == |Unskipped(works, skip, |works|)| >= |pieces|
      ensures priority == if prioritizeFirstLast && torrentPieces > 0
        then set i | i in pieces && (i == 0 || i == torrentPieces - 1) else {}
    {
      hide Queued;
      var remaining, filtered := Filter(works, skip);
      var ends := Ends(remaining.Keys, torrentPieces, prioritizeFirstLast);
      pieces := remaining;
      availability, pending, done, endgame, skipMask := map[], {}, {}, false, None;
      totalPieces := filtered;
      buckets := if remaining.Keys == {} then map[] else map[0 := remaining.Keys];
      priority := ends;
      this.sequential := sequential;
    }

    method TakeOut(i: nat, a: int)
      modifies this`buckets
      ensures buckets == Without(old(buckets), i, a)
    {
      if a in buckets {
        var b := buckets[a] - {i};
        buckets := buckets[a := b];
        if b == {} {
          buckets := buckets - {a};
        }
      }
    }

    method MoveBucket(i: nat, oldAvail: int, newAvail: int)
      modifies this`buckets
      ensures buckets == With(Without(old(buckets), i, oldAvail), i, newAvail)
    {
      TakeOut(i, oldAvail);
      var b := {};
      if newAvail in buckets {
        b := buckets[newAvail];
      }
      buckets := buckets[newAvail := b + {i}];
    }

    /** Reservoir sampling: visits the candidates in any order and keeps one of the eligible. */
    method Sample(candidates: set<nat>, has: nat -> bool) returns (chosen: Option<nat>)
      requires candidates <= pieces.Keys
      ensures chosen.None? ==> forall i :: i in candidates ==> !Eligible(View(), has, i)
      ensures chosen.Some? ==> chosen.value in candidates && Eligible(View(), has, chosen.value)
    {
      chosen := None;
      var count := 0;
      var todo := candidates;
      while todo != {}
        invariant todo <= candidates
        invariant count == 0 <==> chosen.None?
        invariant chosen.None? ==> forall i :: i in candidates - todo ==> !Eligible(View(), has, i)
        invariant chosen.Some? ==> chosen.value in candidates && Eligible(View(), has, chosen.value)
        decreases todo
      {
        var i :| i in todo;
        todo := todo - {i};
        if (endgame || i !in pending) && !Skipped(skipMask, i) && has(i) {
          count := count + 1;
          var dice: nat :| dice < count;
          if dice == 0 {
            chosen := Some(i);
          }
        }
      }
    }

    /** Sequential mode: walks the remaining pieces upwards. */
    method PickLowest(has: nat -> bool) returns (chosen: Option<nat>)
      ensures chosen.None? ==> forall i :: !Eligible(View(), has, i)
      ensures chosen.Some? ==>
        && Eligible(View(), has, chosen.value)
        && forall j :: Eligible(View(), has, j) ==> chosen.value <= j
    {
      var todo := pieces.Keys;
      while todo != {}
        invariant todo <= pieces.Keys
        invariant forall i :: Eligible(View(), has, i) ==> i in todo
        decreases todo
      {
        var i := LeastIndex(todo);
        if (endgame || i !in pending) && !Skipped(skipMask, i) && has(i) {
          return Some(i);
        }
        todo := todo - {i};
      }
      return None;
    }

    /** Rarest first: walks the buckets upwards and samples the first with an eligible piece. */
    method PickRarest(has: nat -> bool) returns (chosen: Option<nat>)
      requires Valid()
      ensures chosen.None? ==> forall i :: !Eligible(View(), has, i)
      ensures chosen.Some? ==>
        && Eligible(View(), has, chosen.value)
        && forall j :: Eligible(View(), has, j) ==> Avail(View(), chosen.value) <= Avail(View(), j)
    {
      var todo := buckets.Keys;
      while todo != {}
        invariant todo <= buckets.Keys
        invariant forall i :: Eligible(View(), has, i) ==> Avail(View(), i) in todo
        decreases todo
      {
        var a := Least(todo);
        assert forall i :: i in buckets[a] ==> i in pieces.Keys;
        chosen := Sample(buckets[a], has);
        if chosen.Some? {
          return;
        }
        todo := todo - {a};
      }
      return None;
    }

    method CheckEndgame()
      requires Valid()
      modifies this`endgame
      ensures Valid() && View() == EnterEndgame(old(View()))
    {
      if !endgame {
        var remaining := |pieces|;
        var threshold := totalPieces / 100;
        if threshold < 5 {
          threshold := 5;
        }
        if remaining > 0 && remaining <= threshold {
          endgame := true;
        }
      }
      IndexDependsOnCounts(old(View()), View(), buckets);
    }

    /** The three selection modes. */
    method Select(has: nat -> bool) returns (chosen: Option<nat>)
      requires Valid()
      ensures chosen.None? ==> forall i :: !Eligible(View(), has, i)
      ensures chosen.Some? ==> Preferred(View(), has, chosen.value)
    {
      if sequential {
        chosen := PickLowest(has);
      } else {
        chosen := Sample(priority, has);
        if chosen.None? {
          chosen := PickRarest(has);
        }
      }
    }

    method Pick(has: nat -> bool) returns (r: Option<PieceWork>)
      requires Valid()
      modifies this`endgame, this`pending
      ensures Valid()
      ensures Picks(old(View()), has, View(), r)
    {
      CheckEndgame();
      ghost var e := View();
      var chosen := Select(has);
      if chosen.None? {
        return None;
      }
      assert chosen.value in pieces;
      hide Indexed, Preferred, Eligible;
      pending := pending + {chosen.value};
      IndexDependsOnCounts(e, View(), buckets);
      return Some(pieces[chosen.value]);
    }

    method Return(pw: PieceWork)
      requires Valid()
      modifies this`pending
      ensures Valid() && View() == Returned(old(View()), pw.index)
    {
      pending := pending - {pw.index};
      IndexDependsOnCounts(old(View()), View(), buckets);
    }

    method Complete(index: nat)
      requires Valid()
      modifies this`pending, this`buckets, this`priority, this`pieces, this`done
      ensures Valid() && View() == Completed(old(View()), index)
    {
      pending := pending - {index};
      var avail := if index in availability then availability[index] else 0;
      RemoveKeepsIndexed(old(View()), buckets, index);
      TakeOut(index, avail);
      priority := priority - {index};
      pieces := pieces - {index};
      done := done + {index};
    }

    /** One piece moves to the next bucket. */
    method Bump(i: nat, delta: int)
      requires Valid() && i in pieces
      modifies this`availability, this`buckets
      ensures Valid()
      ensures View() == old(View()).(availability := old(availability)[i := Avail(old(View()), i) + delta])
    {
      var count := if i in availability then availability[i] else 0;
      MoveKeepsIndexed(View(), buckets, i, count + delta);
      hide Indexed;
      availability := availability[i := count + delta];
      MoveBucket(i, count, count + delta);
    }

    /** A peer connects or leaves; the remaining pieces are visited in any order. */
    method ShiftPeer(bf: Option<Bits>, delta: int)
      requires Valid()
      modifies this`availability, this`buckets
      ensures Valid() && View() == Shifted(old(View()), bf, delta)
    {
      hide Indexed, HasPiece, Wellformed, Counted;
      ghost var was := View();
      var todo := pieces.Keys;
      assert pieces.Keys - todo == {};
      CountedNone(was, bf, delta);
      while todo != {}
        invariant todo <= pieces.Keys && Valid()
        invariant View() == was.(availability := availability)
        invariant forall i :: i in todo ==> Avail(View(), i) == Avail(was, i)
        invariant availability == Counted(was, pieces.Keys - todo, bf, delta)
        decreases todo
      {
        var i :| i in todo;
        ghost var seen := pieces.Keys - todo;
        todo := todo - {i};
        assert pieces.Keys - todo == seen + {i};
        CountedStep(was, seen, i, bf, delta);
        if bf.None? || HasPiece(bf.value, i) {
          Bump(i, delta);
        }
      }
      assert pieces.Keys - todo == pieces.Keys;
      CountedAll(was, bf, delta);
    }

    method AddPeerBitfield(bf: Option<Bits>)
      requires Valid()
      modifies this`availability, this`buckets
      ensures Valid() && View() == Shifted(old(View()), bf, 1)
    {
      ShiftPeer(bf, 1);
    }

    method RemovePeerBitfield(bf: Option<Bits>)
      requires Valid()
      modifies this`availability, this`buckets
      ensures Valid() && View() == Shifted(old(View()), bf, -1)
    {
      ShiftPeer(bf, -1);
    }

    method PeerHave(index: nat)
      requires Valid()
      modifies this`availability, this`buckets
      ensures Valid() && View() == Announced(old(View()), index)
    {
      if index in pieces {
        Bump(index, 1);
      } else {
        var count := if index in availability then availability[index] else 0;
        availability := availability[index := count + 1];
        IndexDependsOnCounts(old(View()), View(), buckets);
      }
    }

    /** The pieces still to be downloaded, the ones masked at the moment left out. */
    method Remaining() returns (n: nat)
      ensures n == |set i | i in pieces && !Skipped(skipMask, i)|
    {
      if skipMask.None? {
        assert (set i | i in pieces && !Skipped(skipMask, i)) == pieces.Keys;
        return |pieces|;
      }
      n := 0;
      var todo := pieces.Keys;
      ghost var counted: set<nat> := {};
      while todo != {}
        invariant todo <= pieces.Keys
        invariant counted == (set i | i in pieces && !Skipped(skipMask, i)) - todo
        invariant n == |counted|
        decreases todo
      {
        var i :| i in todo;
        todo := todo - {i};
        if !HasPiece(skipMask.value, i) {
          n := n + 1;
          counted := counted + {i};
        }
      }
      assert counted == set i | i in pieces && !Skipped(skipMask, i);
    }

    method UpdateSkipMask(mask: Option<Bits>)
      requires Valid()
      modifies this`skipMask
      ensures Valid() && View() == old(View()).(skipMask := mask)
    {
      skipMask := mask;
      IndexDependsOnCounts(old(View()), View(), buckets);
    }
  }
}
