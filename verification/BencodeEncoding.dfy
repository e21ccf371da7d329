/** The text the encoder writes for a value, and how it relates to the texts the decoder reads. */
module BencodeEncoding {
  import opened Bytes
  import opened Decimal
  import opened Lex
  import opened Bencode

  /** The text of a value: plain numerals, dictionary keys in ascending order. */
  ghost function Canon(v: Value): Text
    decreases v, 1
  {
    match v
    case Str(s) => TStr(Digits(|s|), s)
    case Int(n) => TInt(IntText(n))
    case List(items) => TList(seq(|items|, i requires 0 <= i < |items| => Canon(items[i])))
    case Dict(m) => TDict(CanonEntries(v, SortedKeys(m.Keys)))
  }

  ghost function CanonEntries(v: Value, keys: seq<bytes>): (es: seq<Entry>)
    requires v.Dict? && forall i :: 0 <= i < |keys| ==> keys[i] in v.entries
    ensures |es| == |keys|
    ensures forall i :: 0 <= i < |keys| ==>
      es[i] == Entry(Digits(|keys[i]|), keys[i], Canon(v.entries[keys[i]]))
    decreases v, 0
  {
    seq(|keys|, i requires 0 <= i < |keys| =>
      Entry(Digits(|keys[i]|), keys[i], Canon(v.entries[keys[i]])))
  }

  /** What the encoder writes. */
  ghost function Encoded(v: Value): bytes {
    Print(Canon(v))
  }

  /** The values within the decoder's limits at a nesting depth. */
  ghost predicate InLimits(v: Value, depth: nat)
    decreases v
  {
    && depth <= 100
    && match v
       case Str(s) => |s| <= 0x400_0000
       case Int(_) => true
       case List(items) =>
         |items| <= 1_000_000 && forall i :: 0 <= i < |items| ==> InLimits(items[i], depth + 1)
       case Dict(m) =>
         && |m.Keys| <= 1_000_000
         && forall k :: k in m ==> |k| <= 0x400_0000 && InLimits(m[k], depth + 1)
  }

  // ------------------------------------------------- properties item by item

  lemma {:induction false} ItemsOkEach(items: seq<Text>, depth: nat)
    ensures ItemsOk(items, depth) <==> forall i :: 0 <= i < |items| ==> WellFormed(items[i], depth)
  {
    if items != [] {
      var tail := items[1..];
      ItemsOkEach(tail, depth);
      if ItemsOk(items, depth) {
        forall i | 0 <= i < |items| ensures WellFormed(items[i], depth) {
          if i > 0 { assert items[i] == tail[i - 1]; }
        }
      }
    }
  }

  /** A well-formed list of entries, extended by one. */
  lemma {:induction false} EntriesOkSnoc(es: seq<Entry>, e: Entry, depth: nat, size: nat, prev: bytes)
    ensures EntriesOk(es + [e], depth, size, prev) <==>
      && EntriesOk(es, depth, size, prev)
      && SizeAfter(es, size, prev) < MAX_COLLECTION_SIZE
      && StringOk(e.len, e.key)
      && !(SizeAfter(es, size, prev) > 0 && Less(e.key, LastKey(es, prev)))
      && WellFormed(e.val, depth)
  {
    if es == [] {
      assert es + [e] == [e];
      assert [e][1..] == [];
    } else {
      assert (es + [e])[1..] == es[1..] + [e];
      EntriesOkSnoc(es[1..], e, depth, NextSize(size, prev, es[0].key), es[0].key);
    }
  }

  /** The number of distinct keys, and the last key, after a list of entries. */
  function SizeAfter(es: seq<Entry>, size: nat, prev: bytes): nat {
    if es == [] then size else SizeAfter(es[1..], NextSize(size, prev, es[0].key), es[0].key)
  }

  function LastKey(es: seq<Entry>, prev: bytes): bytes {
    if es == [] then prev else es[|es| - 1].key
  }

  lemma {:induction false} SizeAfterSnoc(es: seq<Entry>, e: Entry, size: nat, prev: bytes)
    ensures SizeAfter(es + [e], size, prev)
         == NextSize(SizeAfter(es, size, prev), LastKey(es, prev), e.key)
  {
    if es == [] {
      assert es + [e] == [e];
      assert [e][1..] == [];
    } else {
      assert (es + [e])[1..] == es[1..] + [e];
      SizeAfterSnoc(es[1..], e, NextSize(size, prev, es[0].key), es[0].key);
    }
  }

  lemma {:induction false} CountEntriesSnoc(es: seq<Entry>, e: Entry)
    ensures CountEntries(es + [e]) == CountEntries(es) + 1 + Count(e.val)
  {
    if es == [] {
      assert es + [e] == [e];
      assert [e][1..] == [];
    } else {
      assert (es + [e])[1..] == es[1..] + [e];
      CountEntriesSnoc(es[1..], e);
    }
  }

  /** Strictly ascending entries are well formed when each of them is. */
  lemma {:induction false} AscendingEntriesOk(es: seq<Entry>, depth: nat, size: nat, prev: bytes)
    requires size + |es| <= MAX_COLLECTION_SIZE
    requires forall i :: 0 <= i < |es| ==> StringOk(es[i].len, es[i].key) && WellFormed(es[i].val, depth)
    requires forall i, j :: 0 <= i < j < |es| ==> Less(es[i].key, es[j].key)
    requires size > 0 && es != [] ==> Less(prev, es[0].key)
    ensures EntriesOk(es, depth, size, prev)
  {
    if es != [] {
      LessAsymmetric(prev, es[0].key);
      LessIrreflexive(prev);
      AscendingEntriesOk(es[1..], depth, size + 1, es[0].key);
    }
  }

  /** The last entry of a key decides its value. */
  lemma {:induction false} LastEntryWins(es: seq<Entry>, i: nat)
    requires i < |es| && forall j :: i < j < |es| ==> es[j].key != es[i].key
    ensures es[i].key in EvalEntries(es) && EvalEntries(es)[es[i].key] == Eval(es[i].val)
  {
    var n := |es| - 1;
    if i < n {
      LastEntryWins(es[..n], i);
    }
  }

  lemma {:induction false} EvalKeys(es: seq<Entry>, k: bytes)
    ensures k in EvalEntries(es) <==> exists i :: 0 <= i < |es| && es[i].key == k
  {
    if es != [] {
      var n := |es| - 1;
      EvalKeys(es[..n], k);
      assert forall i :: 0 <= i < n ==> es[..n][i] == es[i];
    }
  }
}
