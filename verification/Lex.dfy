/** The byte-wise order of Go strings, and sorted key lists. */
module Lex {
  import opened Bytes

  predicate Less(a: bytes, b: bytes)
    decreases |a|
  {
    if b == [] then false
    else if a == [] then true
    else if a[0] != b[0] then a[0] < b[0]
    else Less(a[1..], b[1..])
  }

  predicate Leq(a: bytes, b: bytes) {
    a == b || Less(a, b)
  }

  /** `a` and `b` agree on their first n bytes; then `a` ends before `b` does, or has the smaller byte. */
  ghost predicate Precedes(a: bytes, b: bytes, n: nat) {
    && n <= |a| && n <= |b| && a[..n] == b[..n]
    && (n == |a| < |b| || (n < |a| && n < |b| && a[n] < b[n]))
  }

  ghost predicate Before(a: bytes, b: bytes) {
    exists n :: Precedes(a, b, n)
  }

  /** The order: a proper prefix comes first, otherwise the first byte that differs decides. */
  lemma {:induction false} LessIff(a: bytes, b: bytes)
    ensures Less(a, b) <==> Before(a, b)
    decreases |a|
  {
    if a == [] {
      assert b != [] ==> Precedes(a, b, 0);
    } else if b != [] {
      if a[0] == b[0] {
        LessIff(a[1..], b[1..]);
        forall n: nat | Precedes(a[1..], b[1..], n) ensures Precedes(a, b, n + 1) {
          assert a[..n + 1] == [a[0]] + a[1..][..n] && b[..n + 1] == [b[0]] + b[1..][..n];
        }
        forall n: nat | Precedes(a, b, n) ensures n > 0 && Precedes(a[1..], b[1..], n - 1) {
          assert a[1..][..n - 1] == a[..n][1..] && b[1..][..n - 1] == b[..n][1..];
        }
      } else {
        assert a[0] < b[0] ==> Precedes(a, b, 0);
        forall n: nat | 0 < n <= |a| && n <= |b| ensures a[..n] != b[..n] {
          assert a[..n][0] == a[0] && b[..n][0] == b[0];
        }
      }
    }
  }

  lemma {:induction false} LessIrreflexive(a: bytes)
    ensures !Less(a, a)
  {
    if a != [] { LessIrreflexive(a[1..]); }
  }

  lemma {:induction false} LessTransitive(a: bytes, b: bytes, c: bytes)
    requires Less(a, b) && Less(b, c)
    ensures Less(a, c)
    decreases |a|
  {
    if a != [] && a[0] == b[0] == c[0] {
      LessTransitive(a[1..], b[1..], c[1..]);
    }
  }

  lemma {:induction false} LessTotal(a: bytes, b: bytes)
    ensures a == b || Less(a, b) || Less(b, a)
    decreases |a|
  {
    if a != [] && b != [] && a[0] == b[0] {
      LessTotal(a[1..], b[1..]);
      assert a == [a[0]] + a[1..] && b == [b[0]] + b[1..];
    }
  }

  lemma LessAsymmetric(a: bytes, b: bytes)
    ensures !(Less(a, b) && Less(b, a))
  {
    if Less(a, b) && Less(b, a) {
      LessTransitive(a, b, a);
      LessIrreflexive(a);
    }
  }

  ghost predicate IsLeast(k: bytes, keys: set<bytes>) {
    k in keys && forall j :: j in keys ==> Leq(k, j)
  }

  lemma {:induction false} LeastExists(keys: set<bytes>) returns (k: bytes)
    requires keys != {}
    ensures IsLeast(k, keys)
    decreases keys
  {
    k :| k in keys;
    if keys != {k} {
      var others := keys - {k};
      assert keys == others + {k};
      var m := LeastExists(others);
      LessTotal(k, m);
      if Less(k, m) {
        forall j | j in keys ensures Leq(k, j) {
          if j != k && j != m {
            assert j in others && Leq(m, j);
            LessTransitive(k, m, j);
          }
        }
      } else {
        k := m;
      }
    }
  }

  lemma LeastIsUnique(a: bytes, b: bytes, keys: set<bytes>)
    requires IsLeast(a, keys) && IsLeast(b, keys)
    ensures a == b
  {
    LessAsymmetric(a, b);
  }

  /** Every element is less than all later ones. */
  ghost predicate Ascending(s: seq<bytes>) {
    forall i, j :: 0 <= i < j < |s| ==> Less(s[i], s[j])
  }

  /** `s` lists `keys` in ascending order. */
  ghost predicate Lists(s: seq<bytes>, keys: set<bytes>) {
    Ascending(s) && forall k :: k in s <==> k in keys
  }

  /** The keys in ascending order: what collecting a map's keys and sorting them gives. */
  ghost function SortedKeys(keys: set<bytes>): (s: seq<bytes>)
    ensures Lists(s, keys)
    decreases keys
  {
    if keys == {} then []
    else
      assert exists k :: IsLeast(k, keys) by { var k := LeastExists(keys); }
      var k :| IsLeast(k, keys);
      var rest := SortedKeys(keys - {k});
      assert forall j :: j in rest ==> Less(k, j);
      [k] + rest
  }

  /** A set has only one ascending list. */
  lemma {:induction false} ListIsUnique(s: seq<bytes>, t: seq<bytes>, keys: set<bytes>)
    requires Lists(s, keys) && Lists(t, keys)
    ensures s == t
    decreases |s|
  {
    if s == [] {
      if t != [] {
        HeadIsLeast(t, keys);
        assert false;
      }
    } else {
      HeadIsLeast(s, keys);
      assert t != [] by { assert s[0] in t; }
      HeadIsLeast(t, keys);
      LeastIsUnique(s[0], t[0], keys);
      TailLists(s, keys);
      TailLists(t, keys);
      ListIsUnique(s[1..], t[1..], keys - {s[0]});
      assert s == [s[0]] + s[1..] && t == [t[0]] + t[1..];
    }
  }

  lemma HeadIsLeast(s: seq<bytes>, keys: set<bytes>)
    requires Lists(s, keys) && s != []
    ensures IsLeast(s[0], keys)
  {
    forall j | j in keys ensures Leq(s[0], j) {
      assert j in s;
      var i :| 0 <= i < |s| && s[i] == j;
    }
  }

  lemma TailLists(s: seq<bytes>, keys: set<bytes>)
    requires Lists(s, keys) && s != []
    ensures Lists(s[1..], keys - {s[0]})
  {
    var tail := s[1..];
    forall k ensures k in tail <==> k in keys - {s[0]} {
      if k in tail {
        var i :| 0 <= i < |tail| && tail[i] == k;
        assert s[i + 1] == k;
        LessIrreflexive(k);
      }
      if k in keys - {s[0]} {
        assert k in s;
        var i :| 0 <= i < |s| && s[i] == k;
        assert tail[i - 1] == k;
      }
    }
  }

  lemma ListLength(s: seq<bytes>, keys: set<bytes>)
    requires Lists(s, keys)
    ensures |s| == |keys|
    decreases |s|
  {
    if s == [] {
      assert keys == {} by { assert forall k :: k in keys ==> k in s; }
    } else {
      TailLists(s, keys);
      ListLength(s[1..], keys - {s[0]});
      assert s[0] in keys;
    }
  }

  /** Collects the keys of a map and sorts them, least first. */
  method SortKeys(keys: set<bytes>) returns (s: seq<bytes>)
    ensures s == SortedKeys(keys)
    ensures forall i :: 0 < i < |s| ==> Before(s[i - 1], s[i])
  {
    s := [];
    var todo := keys;
    while todo != {}
      invariant todo <= keys
      invariant Lists(s, keys - todo)
      invariant forall k, j :: k in s && j in todo ==> Less(k, j)
      decreases todo
    {
      assert exists k :: IsLeast(k, todo) by { var k := LeastExists(todo); }
      var k :| k in todo && forall j :: j in todo ==> Leq(k, j);
      ghost var was := s;
      forall j | j in todo - {k} ensures Less(k, j) {
        assert j in todo && Leq(k, j);
      }
      s, todo := s + [k], todo - {k};
      assert forall j :: j in s <==> j in was || j == k;
    }
    assert keys - todo == keys;
    ListIsUnique(s, SortedKeys(keys), keys);
    forall i | 0 < i < |s| ensures Before(s[i - 1], s[i]) {
      LessIff(s[i - 1], s[i]);
    }
  }
}
