/** The Kademlia routing table: 160 buckets of at most eight nodes. */
module RoutingTable {
  import opened Bitfield
  import opened NodeId
  import opened InsertionSort

  const K := 8
  const NUM_BUCKETS := 160

  datatype Node = Node(id: Id, addr: nat, lastSeen: int)

  /** A node reported to the table at some time. */
  datatype Sighting = Sighting(node: Node, now: int)

  type Buckets = seq<seq<Node>>

  function BucketIndex(self: Id, id: Id): (r: nat)
    ensures r < NUM_BUCKETS
  {
    var z := ZeroPrefixLen(Distance(self, id));
    if z >= NUM_BUCKETS then NUM_BUCKETS - 1 else z
  }

  ghost function Far(a: Id, b: Id): nat {
    Value(Distance(a, b))
  }

  /** Bucket i holds the ids whose distance to self has exactly 160 - i bits. */
  lemma BucketIff(self: Id, id: Id, i: nat)
    requires id != self && i < NUM_BUCKETS
    ensures BucketIndex(self, id) == i <==> Pow2(159 - i) <= Far(self, id) < Pow2(160 - i)
  {
    var d := Distance(self, id);
    ZeroPrefixIff(d, i);
    ZeroPrefixIff(d, ZeroPrefixLen(d));
    DistanceIsMetric(self, id, id);
    assert Pow2(0) == 1;
  }

  /** Two ids of one bucket are closer to each other than either is to self. */
  lemma SameBucketIsCloser(self: Id, a: Id, b: Id)
    requires a != self && b != self && BucketIndex(self, a) == BucketIndex(self, b)
    ensures Far(a, b) < Far(self, a) && Far(a, b) < Far(self, b)
  {
    var i := BucketIndex(self, a);
    BucketIff(self, a, i);
    BucketIff(self, b, i);
    DistanceIsXor(self, a);
    DistanceIsXor(self, b);
    DistanceIsXor(a, b);
    XorCancels(Value(self), Value(a), Value(b));
    XorSameTop(Far(self, a), Far(self, b), 159 - i);
  }

  /** Position of the first node with this id, or the length if there is none. */
  function IndexOf(nodes: seq<Node>, id: Id): (r: nat)
    ensures r <= |nodes|
    ensures r < |nodes| ==> nodes[r].id == id
    ensures forall k :: 0 <= k < r ==> nodes[k].id != id
  {
    if nodes == [] || nodes[0].id == id then 0
    else 1 + IndexOf(nodes[1..], id)
  }

  function Without(nodes: seq<Node>, i: nat): seq<Node> {
    if i < |nodes| then nodes[..i] + nodes[i + 1..] else nodes
  }

  /** A known node moves to the tail, a new one joins there while there is room. */
  function WithSighting(nodes: seq<Node>, s: Sighting): seq<Node> {
    var i := IndexOf(nodes, s.node.id);
    if i < |nodes| || |nodes| < K
    then Without(nodes, i) + [s.node.(lastSeen := s.now)]
    else nodes
  }

  function Updated(self: Id, table: Buckets, s: Sighting): (r: Buckets)
    requires |table| == NUM_BUCKETS
    ensures |r| == NUM_BUCKETS
  {
    var i := BucketIndex(self, s.node.id);
    if s.node.id == self then table else table[i := WithSighting(table[i], s)]
  }

  function NoNodes(): Buckets {
    seq(NUM_BUCKETS, i => [])
  }

  /** The table after a sequence of sightings. */
  function After(self: Id, seen: seq<Sighting>): (r: Buckets)
    ensures |r| == NUM_BUCKETS
  {
    if seen == [] then NoNodes()
    else Updated(self, After(self, seen[..|seen| - 1]), seen[|seen| - 1])
  }

  ghost predicate Distinct(nodes: seq<Node>) {
    forall j, k :: 0 <= j < k < |nodes| ==> nodes[j].id != nodes[k].id
  }

  ghost predicate BucketOk(self: Id, i: nat, nodes: seq<Node>) {
    && |nodes| <= 8
    && Distinct(nodes)
    && forall k :: 0 <= k < |nodes| ==> nodes[k].id != self && BucketIndex(self, nodes[k].id) == i
  }

  ghost predicate TableOk(self: Id, table: Buckets) {
    && |table| == NUM_BUCKETS
    && forall i :: 0 <= i < NUM_BUCKETS ==> BucketOk(self, i, table[i])
  }

  /** Taking one node out leaves the others in order. */
  lemma WithoutAt(nodes: seq<Node>, i: nat, k: nat)
    requires k < |Without(nodes, i)|
    ensures |Without(nodes, i)| == if i < |nodes| then |nodes| - 1 else |nodes|
    ensures Without(nodes, i)[k] == if k < i then nodes[k] else nodes[k + 1]
  {
  }

  lemma WithoutIsDistinct(nodes: seq<Node>, id: Id)
    requires Distinct(nodes)
    ensures var rest := Without(nodes, IndexOf(nodes, id));
      && Distinct(rest)
      && (forall k :: 0 <= k < |rest| ==> rest[k] in nodes && rest[k].id != id)
  {
    var i := IndexOf(nodes, id);
    var rest := Without(nodes, i);
    forall k | 0 <= k < |rest| ensures rest[k] in nodes && rest[k].id != id {
      WithoutAt(nodes, i, k);
    }
    forall j, k | 0 <= j < k < |rest| ensures rest[j].id != rest[k].id {
      WithoutAt(nodes, i, j);
      WithoutAt(nodes, i, k);
    }
  }

  lemma SightingKeepsOk(self: Id, i: nat, nodes: seq<Node>, s: Sighting)
    requires BucketOk(self, i, nodes) && s.node.id != self && BucketIndex(self, s.node.id) == i
    ensures BucketOk(self, i, WithSighting(nodes, s))
  {
    hide BucketIndex, Without;
    var k := IndexOf(nodes, s.node.id);
    var rest := Without(nodes, k);
    WithoutIsDistinct(nodes, s.node.id);
    WithoutFits(nodes, k);
    if k < |nodes| || |nodes| < K {
      TailKeepsOk(self, i, rest, s.node.(lastSeen := s.now));
    }
  }

  lemma WithoutFits(nodes: seq<Node>, i: nat)
    requires i <= |nodes| <= K
    ensures i < |nodes| || |nodes| < K ==> |Without(nodes, i)| < K
  {
  }

  lemma TailKeepsOk(self: Id, i: nat, nodes: seq<Node>, n: Node)
    requires |nodes| < K && Distinct(nodes) && n.id != self && BucketIndex(self, n.id) == i
    requires forall k :: 0 <= k < |nodes| ==>
      nodes[k].id != n.id && nodes[k].id != self && BucketIndex(self, nodes[k].id) == i
    ensures BucketOk(self, i, nodes + [n])
  {
    hide BucketIndex;
  }

  lemma UpdateKeepsOk(self: Id, table: Buckets, s: Sighting)
    requires TableOk(self, table)
    ensures TableOk(self, Updated(self, table, s))
  {
    if s.node.id != self {
      var i := BucketIndex(self, s.node.id);
      SightingKeepsOk(self, i, table[i], s);
    }
  }

  /** Buckets stay small, duplicate free and correctly sorted into, and never hold self. */
  lemma {:induction false} TableStaysOk(self: Id, seen: seq<Sighting>)
    ensures TableOk(self, After(self, seen))
  {
    if seen != [] {
      TableStaysOk(self, seen[..|seen| - 1]);
      UpdateKeepsOk(self, After(self, seen[..|seen| - 1]), seen[|seen| - 1]);
    }
  }

  /** When an id was last seen, or -1. */
  ghost function Last(seen: seq<Sighting>, id: Id): (r: int)
    ensures -1 <= r < |seen|
  {
    if seen == [] then -1
    else if seen[|seen| - 1].node.id == id then |seen| - 1
    else Last(seen[..|seen| - 1], id)
  }

  /** What the bucket keeps of a node is its latest sighting. */
  ghost predicate Latest(seen: seq<Sighting>, n: Node) {
    var l := Last(seen, n.id);
    l >= 0 && n == seen[l].node.(lastSeen := seen[l].now)
  }

  /** Least recently seen first, every node as last seen. */
  ghost predicate Current(seen: seq<Sighting>, nodes: seq<Node>) {
    && (forall k :: 0 <= k < |nodes| ==> Latest(seen, nodes[k]))
    && (forall j, k :: 0 <= j < k < |nodes| ==> Last(seen, nodes[j].id) < Last(seen, nodes[k].id))
  }

  /** The distinct ids of bucket i in order of first appearance. */
  ghost function Arrivals(self: Id, seen: seq<Sighting>, i: nat): seq<Id> {
    if seen == [] then []
    else
      var earlier := Arrivals(self, seen[..|seen| - 1], i);
      var id := seen[|seen| - 1].node.id;
      if id == self || BucketIndex(self, id) != i || id in earlier then earlier
      else earlier + [id]
  }

  function Min(a: nat, b: nat): nat {
    if a < b then a else b
  }

  /** The nodes are exactly the first eight arrivals. */
  ghost predicate FirstArrivals(arrivals: seq<Id>, nodes: seq<Node>) {
    && |nodes| == Min(8, |arrivals|)
    && (forall k :: 0 <= k < |nodes| ==> nodes[k].id in arrivals[..|nodes|])
    && (forall k :: 0 <= k < |nodes| ==> Holds(nodes, arrivals[k]))
  }

  ghost predicate Holds(nodes: seq<Node>, id: Id) {
    exists k :: 0 <= k < |nodes| && nodes[k].id == id
  }

  lemma LastMoves(seen: seq<Sighting>, id: Id)
    requires seen != []
    ensures Last(seen, id) ==
      if seen[|seen| - 1].node.id == id then |seen| - 1 else Last(seen[..|seen| - 1], id)
  {
  }

  /** Another id's sighting leaves a node as last seen. */
  lemma LatestStays(seen: seq<Sighting>, n: Node)
    requires seen != [] && Latest(seen[..|seen| - 1], n) && n.id != seen[|seen| - 1].node.id
    ensures Latest(seen, n) && Last(seen, n.id) == Last(seen[..|seen| - 1], n.id)
  {
    LastMoves(seen, n.id);
  }

  /** Nodes of other ids stay current. */
  lemma OthersStayCurrent(seen: seq<Sighting>, nodes: seq<Node>)
    requires seen != [] && Current(seen[..|seen| - 1], nodes)
    requires forall k :: 0 <= k < |nodes| ==> nodes[k].id != seen[|seen| - 1].node.id
    ensures Current(seen, nodes)
  {
    forall k | 0 <= k < |nodes|
      ensures Latest(seen, nodes[k]) && Last(seen, nodes[k].id) == Last(seen[..|seen| - 1], nodes[k].id)
    {
      LatestStays(seen, nodes[k]);
    }
  }

  lemma WithoutIsCurrent(seen: seq<Sighting>, nodes: seq<Node>, i: nat)
    requires Current(seen, nodes)
    ensures Current(seen, Without(nodes, i))
  {
    var rest := Without(nodes, i);
    forall k | 0 <= k < |rest| ensures Latest(seen, rest[k]) {
      WithoutAt(nodes, i, k);
    }
    forall j, k | 0 <= j < k < |rest| ensures Last(seen, rest[j].id) < Last(seen, rest[k].id) {
      WithoutAt(nodes, i, j);
      WithoutAt(nodes, i, k);
    }
  }

  lemma SightingKeepsCurrent(seen: seq<Sighting>, nodes: seq<Node>)
    requires seen != [] && Current(seen[..|seen| - 1], nodes) && Distinct(nodes)
    ensures Current(seen, WithSighting(nodes, seen[|seen| - 1]))
  {
    var s := seen[|seen| - 1];
    var i := IndexOf(nodes, s.node.id);
    if i < |nodes| || |nodes| < K {
      var rest := Without(nodes, i);
      WithoutIsDistinct(nodes, s.node.id);
      WithoutIsCurrent(seen[..|seen| - 1], nodes, i);
      OthersStayCurrent(seen, rest);
      NewestIsLast(seen, rest);
    } else {
      OthersStayCurrent(seen, nodes);
    }
  }

  lemma NewestIsLast(seen: seq<Sighting>, nodes: seq<Node>)
    requires seen != [] && Current(seen, nodes)
    requires forall k :: 0 <= k < |nodes| ==> nodes[k].id != seen[|seen| - 1].node.id
    ensures var s := seen[|seen| - 1]; Current(seen, nodes + [s.node.(lastSeen := s.now)])
  {
    var s := seen[|seen| - 1];
    var n := s.node.(lastSeen := s.now);
    LastMoves(seen, n.id);
    forall k | 0 <= k < |nodes| ensures Last(seen, nodes[k].id) < |seen| - 1 {
      LastMoves(seen, nodes[k].id);
    }
    assert Latest(seen, n);
  }

  lemma SightingKeepsArrivals(arrivals: seq<Id>, nodes: seq<Node>, s: Sighting)
    requires FirstArrivals(arrivals, nodes) && Distinct(nodes)
    ensures FirstArrivals(if s.node.id in arrivals then arrivals else arrivals + [s.node.id],
              WithSighting(nodes, s))
  {
    var id := s.node.id;
    var i := IndexOf(nodes, id);
    var n := s.node.(lastSeen := s.now);
    if i < |nodes| {
      assert nodes[i].id in arrivals[..|nodes|] && id in arrivals;
      hide FirstArrivals, Without;
      KnownStays(nodes, i, n, arrivals);
    } else if |nodes| < K {
      UnknownIsNew(arrivals, nodes, id);
      hide FirstArrivals, Without;
      NewJoins(nodes, n, arrivals);
      assert Without(nodes, i) == nodes by { WithoutNone(nodes); }
    } else {
      assert (arrivals + [id])[..|nodes|] == arrivals[..|nodes|];
    }
  }

  lemma WithoutNone(nodes: seq<Node>)
    ensures Without(nodes, |nodes|) == nodes
  {
  }

  /** While there is room, an id that is not stored has never arrived. */
  lemma UnknownIsNew(arrivals: seq<Id>, nodes: seq<Node>, id: Id)
    requires FirstArrivals(arrivals, nodes) && |nodes| < K && IndexOf(nodes, id) == |nodes|
    ensures id !in arrivals
  {
    assert |nodes| == |arrivals|;
    forall k | 0 <= k < |arrivals| ensures arrivals[k] != id {
      assert Holds(nodes, arrivals[k]);
    }
  }

  lemma KnownStays(nodes: seq<Node>, i: nat, n: Node, arrivals: seq<Id>)
    requires FirstArrivals(arrivals, nodes) && i < |nodes| && nodes[i].id == n.id
    ensures FirstArrivals(arrivals, Without(nodes, i) + [n])
  {
    var r := Without(nodes, i) + [n];
    assert |r| == |nodes|;
    forall k | 0 <= k < |r| ensures r[k].id in arrivals[..|r|] {
      if k < |r| - 1 {
        WithoutAt(nodes, i, k);
      }
    }
    forall k | 0 <= k < |r| ensures Holds(r, arrivals[k]) {
      MovedStays(nodes, i, n, arrivals[k]);
    }
  }

  lemma MovedStays(nodes: seq<Node>, i: nat, n: Node, id: Id)
    requires i < |nodes| && nodes[i].id == n.id && Holds(nodes, id)
    ensures Holds(Without(nodes, i) + [n], id)
  {
    var r := Without(nodes, i) + [n];
    var j :| 0 <= j < |nodes| && nodes[j].id == id;
    if j == i {
      assert r[|r| - 1].id == id;
    } else {
      var t := if j < i then j else j - 1;
      WithoutAt(nodes, i, t);
      assert r[t].id == id;
    }
  }

  lemma NewJoins(nodes: seq<Node>, n: Node, arrivals: seq<Id>)
    requires FirstArrivals(arrivals, nodes) && |nodes| < K
    ensures FirstArrivals(arrivals + [n.id], nodes + [n])
  {
    var r, more := nodes + [n], arrivals + [n.id];
    assert more[..|r|] == more;
    forall k | 0 <= k < |r| ensures r[k].id in more[..|r|] {
      if k < |nodes| {
        assert arrivals[..|nodes|] == arrivals;
      } else {
        assert more[k] == r[k].id;
      }
    }
    forall k | 0 <= k < |r| ensures Holds(r, more[k]) {
      if k < |nodes| {
        assert Holds(nodes, arrivals[k]);
        var j :| 0 <= j < |nodes| && nodes[j].id == arrivals[k];
        assert r[j].id == more[k];
      } else {
        assert r[k].id == more[k];
      }
    }
  }

  /**
   * What a bucket holds after any sightings: the first eight ids that ever fell into it,
   * each as last seen, the least recently seen first.
   */
  lemma {:induction false} BucketHolds(self: Id, seen: seq<Sighting>, i: nat)
    requires i < NUM_BUCKETS
    ensures Current(seen, After(self, seen)[i])
    ensures FirstArrivals(Arrivals(self, seen, i), After(self, seen)[i])
  {
    if seen != [] {
      var before := seen[..|seen| - 1];
      var s := seen[|seen| - 1];
      var nodes := After(self, before)[i];
      BucketHolds(self, before, i);
      TableStaysOk(self, before);
      assert BucketOk(self, i, nodes);
      if s.node.id != self && BucketIndex(self, s.node.id) == i {
        SightingKeepsCurrent(seen, nodes);
        SightingKeepsArrivals(Arrivals(self, before, i), nodes, s);
      } else {
        OthersStayCurrent(seen, nodes);
      }
    }
  }

  /** The nodes of the first n buckets, in bucket order. */
  function Nodes(table: Buckets, n: nat): seq<Node>
    requires n <= |table|
  {
    if n == 0 then [] else Nodes(table, n - 1) + table[n - 1]
  }

  lemma {:induction false} NodesAreDistinct(self: Id, table: Buckets, n: nat)
    requires n <= NUM_BUCKETS && TableOk(self, table)
    ensures Distinct(Nodes(table, n))
    ensures forall k :: 0 <= k < |Nodes(table, n)| ==>
      Nodes(table, n)[k].id != self && BucketIndex(self, Nodes(table, n)[k].id) < n
  {
    if n > 0 {
      NodesAreDistinct(self, table, n - 1);
      JoinIsDistinct(self, n - 1, Nodes(table, n - 1), table[n - 1]);
    }
  }

  lemma JoinIsDistinct(self: Id, n: nat, nodes: seq<Node>, bucket: seq<Node>)
    requires BucketOk(self, n, bucket) && Distinct(nodes)
    requires forall k :: 0 <= k < |nodes| ==> nodes[k].id != self && BucketIndex(self, nodes[k].id) < n
    ensures Distinct(nodes + bucket)
    ensures forall k :: 0 <= k < |nodes + bucket| ==>
      (nodes + bucket)[k].id != self && BucketIndex(self, (nodes + bucket)[k].id) < n + 1
  {
  }

  /** No id is stored twice in the whole table, and self is not stored. */
  lemma IdsAreUnique(self: Id, seen: seq<Sighting>)
    ensures var nodes := Nodes(After(self, seen), NUM_BUCKETS);
      Distinct(nodes) && forall k :: 0 <= k < |nodes| ==> nodes[k].id != self
  {
    TableStaysOk(self, seen);
    NodesAreDistinct(self, After(self, seen), NUM_BUCKETS);
  }

  /** A permutation of nodes with distinct ids has distinct ids. */
  lemma PermutedIsDistinct(s: seq<Node>, t: seq<Node>)
    requires Distinct(s) && multiset(s) == multiset(t)
    ensures Distinct(t)
  {
    PermutedIsSame(s, t);
    forall j, k | 0 <= j < k < |t| ensures t[j].id != t[k].id {
      assert t[j] in s && t[k] in s;
    }
  }

  ghost predicate Nearer(target: Id, a: Node, b: Node) {
    Far(a.id, target) < Far(b.id, target)
  }

  /** The chosen nodes come in order of distance, all others are farther than any of them. */
  ghost predicate AreClosest(all: seq<Node>, target: Id, k: nat, r: seq<Node>) {
    && |r| == Min(k, |all|)
    && (forall i :: 0 <= i < |r| ==> r[i] in all)
    && (forall i, j :: 0 <= i < j < |r| ==> Nearer(target, r[i], r[j]))
    && (forall i, n :: 0 <= i < |r| && n in all && n !in r ==> Nearer(target, r[i], n))
  }

  lemma SortedIsStrict(nodes: seq<Node>, target: Id)
    requires Distinct(nodes) && Sorted(nodes, (n: Node) => Far(n.id, target))
    ensures forall i, j :: 0 <= i < j < |nodes| ==> Nearer(target, nodes[i], nodes[j])
  {
    forall i, j | 0 <= i < j < |nodes| ensures Nearer(target, nodes[i], nodes[j]) {
      if Far(nodes[i].id, target) == Far(nodes[j].id, target) {
        DistanceSeparates(nodes[i].id, nodes[j].id, target);
      }
    }
  }

  lemma PrefixIsClosest(all: seq<Node>, nodes: seq<Node>, target: Id, k: nat)
    requires |all| == |nodes| && forall n :: n in all <==> n in nodes
    requires forall i, j :: 0 <= i < j < |nodes| ==> Nearer(target, nodes[i], nodes[j])
    ensures AreClosest(all, target, k, nodes[..Min(k, |nodes|)])
  {
    hide Nearer;
    var m := Min(k, |nodes|);
    var r := nodes[..m];
    forall i, n | 0 <= i < |r| && n in all && n !in r ensures Nearer(target, r[i], n) {
      OmittedIsLater(nodes, m, n);
    }
  }

  lemma OmittedIsLater(nodes: seq<Node>, m: nat, n: Node)
    requires m <= |nodes| && n in nodes && n !in nodes[..m]
    ensures exists j :: m <= j < |nodes| && nodes[j] == n
  {
    assert nodes == nodes[..m] + nodes[m..];
  }

  method UpdateBucket(nodes: seq<Node>, n: Node, now: int) returns (r: seq<Node>)
    ensures r == WithSighting(nodes, Sighting(n, now))
  {
    var i := 0;
    while i < |nodes|
      invariant 0 <= i <= |nodes|
      invariant forall k :: 0 <= k < i ==> nodes[k].id != n.id
    {
      if nodes[i].id == n.id {
        var existing := nodes[i].(addr := n.addr, lastSeen := now);
        return nodes[..i] + nodes[i + 1..] + [existing];
      }
      i := i + 1;
    }
    r := if |nodes| < K then nodes + [n.(lastSeen := now)] else nodes;
  }

  class Table {
    const self: Id
    const buckets: array<seq<Node>>

    ghost predicate Valid()
      reads this, buckets
    {
      buckets.Length == NUM_BUCKETS && TableOk(self, buckets[..])
    }

    constructor (self: Id)
      ensures Valid() && fresh(buckets) && this.self == self
      ensures buckets[..] == After(self, [])
    {
      this.self := self;
      buckets := new seq<Node>[NUM_BUCKETS](_ => []);
      new;
      assert buckets[..] == NoNodes();
    }

    method Update(n: Node, now: int)
      requires Valid()
      modifies buckets
      ensures Valid()
      ensures buckets[..] == Updated(self, old(buckets[..]), Sighting(n, now))
    {
      UpdateKeepsOk(self, buckets[..], Sighting(n, now));
      if n.id == self {
        return;
      }
      var idx := BucketIndex(self, n.id);
      var nodes := UpdateBucket(buckets[idx], n, now);
      buckets[idx] := nodes;
      assert buckets[..] == old(buckets[..])[idx := WithSighting(old(buckets[idx]), Sighting(n, now))];
    }

    method Len() returns (total: nat)
      requires Valid()
      ensures total == |Nodes(buckets[..], NUM_BUCKETS)|
    {
      total := 0;
      var i := 0;
      while i < NUM_BUCKETS
        invariant 0 <= i <= NUM_BUCKETS
        invariant total == |Nodes(buckets[..], i)|
      {
        total := total + |buckets[i]|;
        i := i + 1;
      }
    }

    method Closest(target: Id, k: nat) returns (r: seq<Node>)
      requires Valid()
      ensures AreClosest(Nodes(buckets[..], NUM_BUCKETS), target, k, r)
    {
      var all := [];
      var i := 0;
      while i < NUM_BUCKETS
        invariant 0 <= i <= NUM_BUCKETS
        invariant all == Nodes(buckets[..], i)
      {
        all := all + buckets[i];
        i := i + 1;
      }
      var sorted := SortByDistance(all, target);
      NodesAreDistinct(self, buckets[..], NUM_BUCKETS);
      PermutedIsDistinct(all, sorted);
      SortedIsStrict(sorted, target);
      PermutedIsSame(all, sorted);
      PrefixIsClosest(all, sorted, target, k);
      r := if |sorted| > k then sorted[..k] else sorted;
      assert r == sorted[..Min(k, |sorted|)];
    }
  }

  method SortByDistance(nodes: seq<Node>, target: Id) returns (r: seq<Node>)
    ensures multiset(r) == multiset(nodes)
    ensures Sorted(r, (n: Node) => Far(n.id, target))
  {
    var a := new Node[|nodes|](i requires 0 <= i < |nodes| => nodes[i]);
    assert a[..] == nodes;
    var less := (x: Node, y: Node) => Less(Distance(x.id, target), Distance(y.id, target));
    ghost var rank := (n: Node) => Far(n.id, target);
    forall x, y ensures less(x, y) <==> rank(x) < rank(y) {
      LessIsOrder(Distance(x.id, target), Distance(y.id, target));
    }
    Sort(a, less, rank);
    r := a[..];
  }
}
