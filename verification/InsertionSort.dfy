/** In-place insertion sort, as both the routing table and the download queue do it. */
module InsertionSort {

  ghost predicate Sorted<T>(s: seq<T>, rank: T -> int) {
    forall i, j :: 0 <= i < j < |s| ==> rank(s[i]) <= rank(s[j])
  }

  /** The comparison agrees with a ranking. */
  ghost predicate Ranks<T(!new)>(less: (T, T) -> bool, rank: T -> int) {
    forall x, y :: less(x, y) <==> rank(x) < rank(y)
  }

  /** Element i moved down to position p, the ones between moved up by one. */
  function Rotated<T>(s: seq<T>, i: nat, p: nat): (r: seq<T>)
    requires p <= i < |s|
    ensures |r| == |s|
  {
    s[..p] + [s[i]] + s[p..i] + s[i + 1..]
  }

  lemma RotatedAt<T>(s: seq<T>, i: nat, p: nat, k: nat)
    requires p <= i < |s| && k < |s|
    ensures Rotated(s, i, p)[k] == if k < p || k > i then s[k] else if k == p then s[i] else s[k - 1]
  {
  }

  lemma RotatedPermutes<T>(s: seq<T>, i: nat, p: nat)
    requires p <= i < |s|
    ensures multiset(Rotated(s, i, p)) == multiset(s)
  {
    assert s == s[..p] + s[p..i] + [s[i]] + s[i + 1..];
  }

  /** p is where element i belongs among the sorted elements before it. */
  ghost predicate Place<T>(s: seq<T>, i: nat, p: nat, rank: T -> int)
    requires p <= i < |s|
  {
    && (forall k :: 0 <= k < p ==> rank(s[k]) <= rank(s[i]))
    && (forall k :: p <= k < i ==> rank(s[i]) < rank(s[k]))
  }

  lemma RotatedSorts<T>(s: seq<T>, i: nat, p: nat, rank: T -> int)
    requires p <= i < |s| && Sorted(s[..i], rank) && Place(s, i, p, rank)
    ensures Sorted(Rotated(s, i, p)[..i + 1], rank)
  {
    var r := Rotated(s, i, p)[..i + 1];
    forall j, k | 0 <= j < k < |r| ensures rank(r[j]) <= rank(r[k]) {
      RotatedAt(s, i, p, j);
      RotatedAt(s, i, p, k);
      assert forall x, y :: 0 <= x < y < i ==> rank(s[..i][x]) <= rank(s[..i][y]);
      assert forall x :: 0 <= x < i ==> s[..i][x] == s[x];
    }
  }

  method Insert<T(!new)>(a: array<T>, i: nat, less: (T, T) -> bool, ghost rank: T -> int) returns (p: nat)
    requires i < a.Length && Ranks(less, rank) && Sorted(a[..i], rank)
    modifies a
    ensures p <= i && Place(old(a[..]), i, p, rank)
    ensures a[..] == Rotated(old(a[..]), i, p)
  {
    var key := a[i];
    ghost var s := a[..];
    var j: int := i - 1;
    while j >= 0 && less(key, a[j])
      invariant -1 <= j < i
      invariant forall k :: 0 <= k <= j ==> a[k] == s[k]
      invariant forall k :: j + 1 < k <= i ==> a[k] == s[k - 1]
      invariant forall k :: i < k < a.Length ==> a[k] == s[k]
      invariant forall k :: j < k < i ==> rank(key) < rank(s[k])
    {
      a[j + 1] := a[j];
      j := j - 1;
    }
    a[j + 1] := key;
    p := j + 1;
    Settled(s, i, j, rank);
    forall k | 0 <= k < a.Length ensures a[..][k] == Rotated(s, i, p)[k] {
      RotatedAt(s, i, p, k);
    }
  }

  /** Everything before a sorted element that is not greater is not greater either. */
  lemma Settled<T>(s: seq<T>, i: nat, j: int, rank: T -> int)
    requires -1 <= j < i < |s| && Sorted(s[..i], rank) && (j >= 0 ==> rank(s[j]) <= rank(s[i]))
    ensures forall k :: 0 <= k <= j ==> rank(s[k]) <= rank(s[i])
  {
    forall k | 0 <= k <= j ensures rank(s[k]) <= rank(s[i]) {
      assert s[..i][k] == s[k] && s[..i][j] == s[j];
    }
  }

  method Sort<T(!new)>(a: array<T>, less: (T, T) -> bool, ghost rank: T -> int)
    requires Ranks(less, rank)
    modifies a
    ensures Sorted(a[..], rank)
    ensures multiset(a[..]) == multiset(old(a[..]))
  {
    if a.Length == 0 {
      return;
    }
    var i := 1;
    while i < a.Length
      invariant 1 <= i <= a.Length
      invariant Sorted(a[..i], rank)
      invariant multiset(a[..]) == multiset(old(a[..]))
    {
      ghost var s := a[..];
      assert s[..i] == a[..i];
      ghost var p := Insert(a, i, less, rank);
      RotatedSorts(s, i, p, rank);
      RotatedPermutes(s, i, p);
      assert a[..i + 1] == a[..][..i + 1];
      i := i + 1;
    }
    assert a[..i] == a[..];
  }

  ghost predicate NoDuplicates<T(!new)>(s: seq<T>) {
    forall i, j :: 0 <= i < j < |s| ==> s[i] != s[j]
  }

  /** Sorting neither adds, drops nor repeats elements. */
  lemma PermutedIsSame<T(!new)>(s: seq<T>, t: seq<T>)
    requires multiset(s) == multiset(t)
    ensures |s| == |t|
    ensures forall x :: x in s <==> x in t
    ensures NoDuplicates(s) ==> NoDuplicates(t)
  {
    assert |multiset(s)| == |multiset(t)|;
    forall x ensures x in s <==> x in t {
      assert x in multiset(s) <==> x in multiset(t);
    }
    if NoDuplicates(s) {
      forall i, j | 0 <= i < j < |t| ensures t[i] != t[j] {
        AtMostOnce(s, t[i]);
        Twice(t, i, j);
      }
    }
  }

  lemma Twice<T(!new)>(t: seq<T>, i: nat, j: nat)
    requires i < j < |t|
    ensures t[i] == t[j] ==> multiset(t)[t[i]] >= 2
  {
    assert t == t[..i] + [t[i]] + t[i + 1..j] + [t[j]] + t[j + 1..];
  }

  lemma {:induction false} AtMostOnce<T(!new)>(s: seq<T>, x: T)
    requires NoDuplicates(s)
    ensures multiset(s)[x] <= 1
  {
    if s != [] {
      var front, last := s[..|s| - 1], s[|s| - 1];
      assert s == front + [last];
      AtMostOnce(front, x);
      if x == last {
        assert forall k :: 0 <= k < |front| ==> front[k] != x;
        assert x !in front;
      }
    }
  }
}
