/** Round trips between values and bytes, and when re-encoding gives back the original bytes. */
module BencodeTheorems {
  import opened Bytes
  import opened Decimal
  import opened Lex
  import opened Bencode
  import opened BencodeGrammar
  import opened BencodeEncoding

  // -------------------------------------------------------------- the order of keys

  /** Two neighbouring keys as the decoder takes them: equal, or in byte order. */
  ghost predicate InByteOrder(a: bytes, b: bytes) {
    a == b || Before(a, b)
  }

  lemma NotLess(a: bytes, b: bytes)
    ensures !Less(b, a) <==> InByteOrder(a, b)
  {
    LessIff(a, b);
    LessTotal(a, b);
    LessAsymmetric(a, b);
    LessIrreflexive(a);
  }

  lemma {:induction false} SizeAfterPositive(es: seq<Entry>, size: nat, prev: bytes)
    requires size > 0 || es != []
    ensures SizeAfter(es, size, prev) > 0
  {
    if es != [] {
      SizeAfterPositive(es[1..], NextSize(size, prev, es[0].key), es[0].key);
    }
  }

  lemma LastKeyOf(es: seq<Entry>)
    requires es != []
    ensures LastKey(es, []) == es[|es| - 1].key
  {
  }

  /** Each entry is well formed, neighbouring keys do not decrease byte by byte, and no entry follows
      1000000 distinct keys. */
  ghost predicate InOrder(es: seq<Entry>, depth: nat) {
    && (forall i :: 0 <= i < |es| ==> StringOk(es[i].len, es[i].key) && WellFormed(es[i].val, depth))
    && (forall i :: 0 < i < |es| ==> InByteOrder(es[i - 1].key, es[i].key))
    && (forall i :: 0 <= i < |es| ==> SizeAfter(es[..i], 0, []) < 1_000_000)
  }

  lemma InOrderSnoc(es: seq<Entry>, depth: nat)
    requires es != []
    ensures var n := |es| - 1;
      InOrder(es, depth) <==>
      && InOrder(es[..n], depth)
      && StringOk(es[n].len, es[n].key) && WellFormed(es[n].val, depth)
      && (n > 0 ==> InByteOrder(es[n - 1].key, es[n].key))
      && SizeAfter(es[..n], 0, []) < 1_000_000
  {
    hide StringOk, WellFormed, InByteOrder, SizeAfter;
    var n := |es| - 1;
    assert forall i :: 0 <= i < n ==> es[..n][i] == es[i] && es[..n][..i] == es[..i];
    assert InOrder(es, depth) ==> InOrder(es[..n], depth);
    assert InOrder(es, depth) <== InOrder(es[..n], depth)
      && StringOk(es[n].len, es[n].key) && WellFormed(es[n].val, depth)
      && (n > 0 ==> InByteOrder(es[n - 1].key, es[n].key)) && SizeAfter(es[..n], 0, []) < 1_000_000;
  }

  /** The decoder takes exactly the lists of entries that are in order. */
  lemma {:induction false} AcceptedKeyOrder(es: seq<Entry>, depth: nat)
    ensures EntriesOk(es, depth, 0, []) <==> InOrder(es, depth)
  {
    if es != [] {
      AcceptedKeyOrder(es[..|es| - 1], depth);
      AcceptedSnoc(es, depth);
      InOrderSnoc(es, depth);
    }
  }

  lemma AcceptedSnoc(es: seq<Entry>, depth: nat)
    requires es != []
    ensures var n := |es| - 1;
      EntriesOk(es, depth, 0, []) <==>
      && EntriesOk(es[..n], depth, 0, [])
      && StringOk(es[n].len, es[n].key) && WellFormed(es[n].val, depth)
      && (n > 0 ==> InByteOrder(es[n - 1].key, es[n].key))
      && SizeAfter(es[..n], 0, []) < 1_000_000
  {
    assert MAX_COLLECTION_SIZE == 1_000_000;
    hide *;
    var n := |es| - 1;
    var init, e := es[..n], es[n];
    assert es == init + [e];
    EntriesOkSnoc(init, e, depth, 0, []);
    if n > 0 {
      SizeAfterPositive(init, 0, []);
      LastKeyOf(init);
      NotLess(init[n - 1].key, e.key);
    } else {
      NoEntries(init);
    }
  }

  lemma NoEntries(es: seq<Entry>)
    requires es == []
    ensures SizeAfter(es, 0, []) == 0
  {
  }

  /** On the wire: the decoder reads `d`, these entries and `e` as that dictionary exactly when each entry
      is well formed, neighbouring keys do not decrease byte by byte, and the counts are within limits. */
  lemma DictDecodesIff(es: seq<Entry>, rest: bytes)
    ensures ParseValue([0x64] + PrintEntries(es) + [0x65] + rest, 0, 0) == Ok(TDict(es), rest, CountEntries(es)) <==>
      InOrder(es, 1) && CountEntries(es) <= 2_000_000
  {
    AcceptedKeyOrder(es, 1);
    ParserIsGrammar([0x64] + PrintEntries(es) + [0x65] + rest, 0, 0, TDict(es), rest);
    assert WellFormed(TDict(es), 0) <==> EntriesOk(es, 1, 0, []);
    assert Count(TDict(es)) == CountEntries(es);
    assert Print(TDict(es)) == [0x64] + PrintEntries(es) + [0x65];
    hide *;
  }

  /** The encoder's dictionary, between `d` and `e`: of two neighbouring keys the first is a proper
      prefix of the second or has the smaller byte where they first differ, and no key is missing. */
  lemma EncodedKeysAscend(m: map<bytes, Value>)
    ensures var es := CanonEntries(Dict(m), SortedKeys(m.Keys));
      && Encoded(Dict(m)) == [0x64] + PrintEntries(es) + [0x65]
      && (forall k :: k in m <==> exists i :: 0 <= i < |es| && es[i].key == k)
      && (forall i :: 0 < i < |es| ==> Before(es[i - 1].key, es[i].key))
  {
    hide PrintEntries, Canon;
    CanonOfDict(m);
    var keys := SortedKeys(m.Keys);
    var es := CanonEntries(Dict(m), keys);
    forall k ensures k in m <==> exists i :: 0 <= i < |es| && es[i].key == k {
      if k in m {
        assert k in keys;
        var i :| 0 <= i < |keys| && keys[i] == k;
        assert es[i].key == k;
      }
    }
    forall i | 0 < i < |es| ensures Before(es[i - 1].key, es[i].key) {
      LessIff(keys[i - 1], keys[i]);
    }
    assert Encoded(Dict(m)) == [0x64] + PrintEntries(es) + [0x65];
  }

  const COW: bytes := [0x63, 0x6F, 0x77]
  const MOO: bytes := [0x6D, 0x6F, 0x6F]
  const SPAM: bytes := [0x73, 0x70, 0x61, 0x6D]
  const EGGS: bytes := [0x65, 0x67, 0x67, 0x73]

  lemma SampleKeys(keys: set<bytes>)
    requires keys == {SPAM, COW}
    ensures SortedKeys(keys) == [COW, SPAM]
  {
    assert Precedes(COW, SPAM, 0);
    LessIff(COW, SPAM);
    ListIsUnique(SortedKeys(keys), [COW, SPAM], keys);
  }

  lemma TwoItems(a: Text, b: Text)
    ensures PrintItems([a, b]) == Print(a) + Print(b)
  {
    assert [a, b][1..] == [b] && [b][1..] == [];
    assert PrintItems([b]) == Print(b);
  }

  lemma TwoEntries(a: Entry, b: Entry)
    ensures PrintEntries([a, b]) == PrintEntry(a) + PrintEntry(b)
  {
    assert [a, b][1..] == [b] && [b][1..] == [];
    assert PrintEntries([b]) == PrintEntry(b);
  }

  lemma SampleItems()
    ensures Canon(Int(-12)) == TInt([0x2D, 0x31, 0x32]) && Canon(Str(MOO)) == TStr([0x33], MOO)
    ensures Print(TInt([0x2D, 0x31, 0x32])) == [0x69, 0x2D, 0x31, 0x32, 0x65]
    ensures Print(TStr([0x33], MOO)) == [0x33, 0x3A, 0x6D, 0x6F, 0x6F]
  {
    assert Digits(12) == Digits(1) + [0x32] && Digits(1) == [0x31] && Digits(3) == [0x33];
    assert IntText(-12) == [0x2D, 0x31, 0x32];
  }

  lemma SampleList()
    ensures Print(Canon(List([Int(-12), Str(MOO)]))) ==
      [0x6C, 0x69, 0x2D, 0x31, 0x32, 0x65, 0x33, 0x3A, 0x6D, 0x6F, 0x6F, 0x65]
  {
    SampleItems();
    hide Digits, IntText;
    var items := [Int(-12), Str(MOO)];
    var num, moo := TInt([0x2D, 0x31, 0x32]), TStr([0x33], MOO);
    var texts := Canon(List(items)).items;
    assert texts[0] == Canon(items[0]) && texts[1] == Canon(items[1]);
    assert texts == [num, moo];
    TwoItems(num, moo);
  }

  lemma SampleEntry()
    ensures Digits(3) == [0x33] && Digits(4) == [0x34] && Canon(Str(EGGS)) == TStr([0x34], EGGS)
    ensures PrintEntry(Entry([0x34], SPAM, TStr([0x34], EGGS))) ==
      [0x34, 0x3A, 0x73, 0x70, 0x61, 0x6D, 0x34, 0x3A, 0x65, 0x67, 0x67, 0x73]
    ensures PrintEntry(Entry([0x33], COW, Canon(List([Int(-12), Str(MOO)])))) ==
      [0x33, 0x3A, 0x63, 0x6F, 0x77, 0x6C, 0x69, 0x2D, 0x31, 0x32, 0x65, 0x33, 0x3A, 0x6D, 0x6F, 0x6F, 0x65]
  {
    SampleList();
  }

  lemma SampleCanon()
    ensures Canon(Dict(map[SPAM := Str(EGGS), COW := List([Int(-12), Str(MOO)])])) ==
      TDict([Entry([0x33], COW, Canon(List([Int(-12), Str(MOO)]))),
             Entry([0x34], SPAM, TStr([0x34], EGGS))])
  {
    var m := map[SPAM := Str(EGGS), COW := List([Int(-12), Str(MOO)])];
    SampleKeys(m.Keys);
    CanonOfDict(m);
    assert Digits(3) == [0x33] && Digits(4) == [0x34];
  }

  /** A dictionary, a list, a number and strings in their ASCII bytes:
      d3:cowli-12e3:mooe4:spam4:eggse. */
  lemma WireSample()
    ensures Encoded(Dict(map[SPAM := Str(EGGS), COW := List([Int(-12), Str(MOO)])])) ==
      [0x64] +
      ([0x33, 0x3A, 0x63, 0x6F, 0x77, 0x6C, 0x69, 0x2D, 0x31, 0x32, 0x65, 0x33, 0x3A, 0x6D, 0x6F, 0x6F, 0x65] +
       [0x34, 0x3A, 0x73, 0x70, 0x61, 0x6D, 0x34, 0x3A, 0x65, 0x67, 0x67, 0x73]) +
      [0x65]
  {
    hide Canon, PrintEntries, PrintEntry, Digits;
    SampleCanon();
    SampleEntry();
    var cow := Entry([0x33], COW, Canon(List([Int(-12), Str(MOO)])));
    var spam := Entry([0x34], SPAM, TStr([0x34], EGGS));
    TwoEntries(cow, spam);
  }

  // -------------------------------------------------------- value -> text -> value

  lemma {:induction false} EvalOfCanon(v: Value)
    ensures Eval(Canon(v)) == v
    decreases v
  {
    match v
    case Str(_) =>
    case Int(n) => ParseIntOfText(n);
    case List(items) =>
      forall i | 0 <= i < |items| ensures Eval(Canon(items[i])) == items[i] {
        EvalOfCanon(items[i]);
      }
      assert EvalItems(Canon(v).items) == items;
    case Dict(m) =>
      forall k | k in m ensures Eval(Canon(m[k])) == m[k] {
        EvalOfCanon(m[k]);
      }
      EvalOfCanonEntries(v);
  }

  /** Where a key of a dictionary stands in its text. */
  lemma CanonEntryOf(v: Value, k: bytes)
    requires v.Dict? && k in v.entries && Eval(Canon(v.entries[k])) == v.entries[k]
    ensures var r := EvalEntries(CanonEntries(v, SortedKeys(v.entries.Keys)));
      k in r && r[k] == v.entries[k]
  {
    var ks := SortedKeys(v.entries.Keys);
    var es := CanonEntries(v, ks);
    assert k in ks;
    var i :| 0 <= i < |ks| && ks[i] == k;
    forall j | i < j < |es| ensures es[j].key != es[i].key {
      LessIrreflexive(k);
    }
    LastEntryWins(es, i);
  }

  lemma EvalOfCanonEntries(v: Value)
    requires v.Dict? && forall k :: k in v.entries ==> Eval(Canon(v.entries[k])) == v.entries[k]
    ensures EvalEntries(CanonEntries(v, SortedKeys(v.entries.Keys))) == v.entries
  {
    hide Eval, Canon;
    var m, ks := v.entries, SortedKeys(v.entries.Keys);
    var es := CanonEntries(v, ks);
    var r := EvalEntries(es);
    forall k | k in m ensures k in r && r[k] == m[k] {
      CanonEntryOf(v, k);
    }
    forall k | k in r ensures k in m {
      EvalKeys(es, k);
      var i :| 0 <= i < |es| && es[i].key == k;
      assert ks[i] in m;
    }
    assert r == m;
  }

  lemma NumberOkOfText(n: int64)
    ensures NumberOk(IntText(n))
  {
    ParseIntOfText(n);
    var abs := if n < 0 then -(n as int) else n;
    DigitsUnpadded(abs);
  }

  lemma DigitsStringOk(s: bytes)
    requires |s| <= MAX_STRING_LENGTH
    ensures StringOk(Digits(|s|), s)
  {
    ToNatOfDigits(|s|);
  }

  lemma {:induction false} CanonWellFormed(v: Value, depth: nat)
    requires InLimits(v, depth)
    ensures WellFormed(Canon(v), depth)
    decreases v
  {
    match v
    case Str(s) => DigitsStringOk(s);
    case Int(n) => NumberOkOfText(n);
    case List(items) =>
      var texts := Canon(v).items;
      forall i | 0 <= i < |items| ensures WellFormed(texts[i], depth + 1) {
        CanonWellFormed(items[i], depth + 1);
      }
      ItemsOkEach(texts, depth + 1);
    case Dict(m) =>
      var ks := SortedKeys(m.Keys);
      var es := CanonEntries(v, ks);
      forall i | 0 <= i < |es|
        ensures StringOk(es[i].len, es[i].key) && WellFormed(es[i].val, depth + 1)
      {
        assert ks[i] in m;
        DigitsStringOk(ks[i]);
        CanonWellFormed(m[ks[i]], depth + 1);
      }
      ListLength(ks, m.Keys);
      AscendingEntriesOk(es, depth + 1, 0, []);
  }

  /** Decoding what was encoded gives the value back and leaves alone whatever follows it. */
  lemma RoundTrip(v: Value, r: bytes)
    requires InLimits(v, 0) && Count(Canon(v)) <= MAX_TOTAL_ITEMS
    ensures var p := ParseValue(Encoded(v) + r, 0, 0);
      p.Ok? && Eval(p.value) == v && p.rest == r
  {
    CanonWellFormed(v, 0);
    ValueComplete(Canon(v), r, 0, 0);
    EvalOfCanon(v);
  }

  // ------------------------------------------------------- what decoding yields

  /** Entries read in order: the dictionary has as many keys as were counted, and the last key
      read is the greatest. */
  lemma {:induction false} DictSize(es: seq<Entry>, depth: nat)
    requires EntriesOk(es, depth, 0, [])
    ensures |EvalEntries(es).Keys| == SizeAfter(es, 0, []) <= MAX_COLLECTION_SIZE
    ensures forall k :: k in EvalEntries(es) ==> Leq(k, LastKey(es, []))
    ensures es != [] ==> LastKey(es, []) in EvalEntries(es)
  {
    if es != [] {
      var n := |es| - 1;
      var init, e := es[..n], es[n];
      assert es == init + [e];
      EntriesOkSnoc(init, e, depth, 0, []);
      SizeAfterSnoc(init, e, 0, []);
      DictSize(init, depth);
      var m := EvalEntries(init);
      assert EvalEntries(es) == m[e.key := Eval(e.val)];
      assert EvalEntries(es).Keys == m.Keys + {e.key};
      var prev := LastKey(init, []);
      if init == [] {
        assert m == map[];
      } else {
        LessTotal(e.key, prev);
        forall k | k in m ensures Leq(k, e.key) {
          if k != prev && prev != e.key { LessTransitive(k, prev, e.key); }
        }
        if e.key in m && e.key != prev {
          LessAsymmetric(e.key, prev);
        }
        SizePositive(init, prev);
      }
    }
  }

  lemma SizePositive(es: seq<Entry>, k: bytes)
    requires es != [] && |EvalEntries(es).Keys| == SizeAfter(es, 0, []) && k in EvalEntries(es)
    ensures SizeAfter(es, 0, []) > 0
  {
    assert k in EvalEntries(es).Keys;
  }

  lemma {:induction false} DictInLimits(es: seq<Entry>, depth: nat)
    requires EntriesOk(es, depth, 0, [])
    ensures forall k :: k in EvalEntries(es) ==>
      |k| <= MAX_STRING_LENGTH && InLimits(EvalEntries(es)[k], depth)
    decreases es, 0
  {
    if es != [] {
      var n := |es| - 1;
      var init, e := es[..n], es[n];
      assert es == init + [e];
      EntriesOkSnoc(init, e, depth, 0, []);
      DictInLimits(init, depth);
      EvalInLimits(e.val, depth);
      assert EvalEntries(es) == EvalEntries(init)[e.key := Eval(e.val)];
    }
  }

  /** A decoded value respects the limits on depth, collections and strings. */
  lemma {:induction false} EvalInLimits(t: Text, depth: nat)
    requires WellFormed(t, depth)
    ensures InLimits(Eval(t), depth)
    decreases t, 1
  {
    match t
    case TStr(_, _) =>
    case TInt(_) =>
    case TList(items) =>
      ItemsOkEach(items, depth + 1);
      forall i | 0 <= i < |items| ensures InLimits(EvalItems(items)[i], depth + 1) {
        EvalInLimits(items[i], depth + 1);
      }
    case TDict(es) =>
      DictSize(es, depth + 1);
      DictInLimits(es, depth + 1);
  }

  // ------------------------------------------------------------------- counts

  lemma {:induction false} CountItemsMono(a: seq<Text>, b: seq<Text>)
    requires |a| == |b| && forall i :: 0 <= i < |a| ==> Count(a[i]) <= Count(b[i])
    ensures CountItems(a) <= CountItems(b)
  {
    if a != [] {
      CountItemsMono(a[1..], b[1..]);
    }
  }

  /** Keys and values of the entries before the last one do not depend on it. */
  lemma CanonEntriesPrefix(v: Value, w: Value, keys: seq<bytes>)
    requires v.Dict? && w.Dict?
    requires forall i :: 0 <= i < |keys| ==>
      keys[i] in v.entries && keys[i] in w.entries && v.entries[keys[i]] == w.entries[keys[i]]
    ensures CanonEntries(v, keys) == CanonEntries(w, keys)
  {
  }

  lemma CanonEntriesSnoc(v: Value, keys: seq<bytes>, k: bytes)
    requires v.Dict? && k in v.entries
    requires forall i :: 0 <= i < |keys| ==> keys[i] in v.entries
    ensures forall i :: 0 <= i < |keys + [k]| ==> (keys + [k])[i] in v.entries
    ensures CanonEntries(v, keys + [k])
         == CanonEntries(v, keys) + [Entry(Digits(|k|), k, Canon(v.entries[k]))]
  {
  }

  /** Adding a greatest key puts it last; replacing the value of the greatest key keeps the list. */
  lemma GreatestKeyLast(keys: set<bytes>, k: bytes)
    requires forall j :: j in keys ==> Leq(j, k)
    ensures SortedKeys(keys + {k}) == SortedKeys(keys - {k}) + [k]
  {
    var s := SortedKeys(keys - {k}) + [k];
    forall j ensures j in s <==> j in keys + {k} {
      if j in keys && j != k { assert j in SortedKeys(keys - {k}); }
      if j == k { assert s[|s| - 1] == k; }
    }
    forall i, j | 0 <= i < j < |s| ensures Less(s[i], s[j]) {
      if j == |s| - 1 { assert s[i] in keys - {k}; }
    }
    ListIsUnique(s, SortedKeys(keys + {k}), keys + {k});
  }

  /** Overridden entries are dropped, so the dictionary is never larger than the list of entries. */
  lemma {:induction false} DictCount(es: seq<Entry>, depth: nat)
    requires EntriesOk(es, depth, 0, [])
    ensures Count(Canon(Dict(EvalEntries(es)))) <= CountEntries(es)
    decreases es, 0
  {
    if es == [] {
      assert SortedKeys({}) == [];
      assert EvalEntries(es).Keys == {};
    } else {
      var n := |es| - 1;
      var init, e := es[..n], es[n];
      assert es == init + [e];
      EntriesOkSnoc(init, e, depth, 0, []);
      DictSize(init, depth);
      DictSize(es, depth);
      DictCount(init, depth);
      CountEntriesSnoc(init, e);
      EvalCount(e.val, depth);
      DictCountStep(EvalEntries(init), e.key, Eval(e.val));
    }
  }

  lemma DictCountStep(m: map<bytes, Value>, k: bytes, x: Value)
    requires forall j :: j in m ==> Leq(j, k)
    ensures Count(Canon(Dict(m[k := x]))) <= Count(Canon(Dict(m))) + 1 + Count(Canon(x))
  {
    EntriesCountStep(m, k, x);
    CountOfDict(Dict(m));
    CountOfDict(Dict(m[k := x]));
    hide *;
  }

  lemma OtherKeys(m: map<bytes, Value>, k: bytes)
    ensures var keys := SortedKeys(m.Keys - {k});
      forall i :: 0 <= i < |keys| ==> keys[i] in m && keys[i] != k
  {
    var keys := SortedKeys(m.Keys - {k});
    forall i | 0 <= i < |keys| ensures keys[i] in m && keys[i] != k {
      assert keys[i] in m.Keys - {k};
    }
  }

  lemma EntriesCountStep(m: map<bytes, Value>, k: bytes, x: Value)
    requires forall j :: j in m ==> Leq(j, k)
    ensures var v, w := Dict(m), Dict(m[k := x]);
      CountEntries(CanonEntries(w, SortedKeys(w.entries.Keys))) <=
      CountEntries(CanonEntries(v, SortedKeys(v.entries.Keys))) + 1 + Count(Canon(x))
  {
    hide Count, Canon, Less, Leq, CanonEntries, CountEntries, SortedKeys, Lists, Ascending;
    var v, w := Dict(m), Dict(m[k := x]);
    var keys := SortedKeys(m.Keys - {k});
    assert w.entries.Keys == m.Keys + {k};
    GreatestKeyLast(m.Keys, k);
    OtherKeys(m, k);
    CanonEntriesPrefix(v, w, keys);
    CountWithLast(w, keys, k);
    if k in m {
      assert m.Keys + {k} == m.Keys;
      CountWithLast(v, keys, k);
    } else {
      assert m.Keys - {k} == m.Keys;
    }
    assert CountEntries(CanonEntries(w, SortedKeys(w.entries.Keys))) <=
      CountEntries(CanonEntries(v, SortedKeys(v.entries.Keys))) + 1 + Count(Canon(x));
  }

  lemma CountOfDict(v: Value)
    requires v.Dict?
    ensures Count(Canon(v)) == CountEntries(CanonEntries(v, SortedKeys(v.entries.Keys)))
  {
  }

  lemma CountWithLast(v: Value, keys: seq<bytes>, k: bytes)
    requires v.Dict? && k in v.entries
    requires forall i :: 0 <= i < |keys| ==> keys[i] in v.entries
    ensures forall i :: 0 <= i < |keys + [k]| ==> (keys + [k])[i] in v.entries
    ensures CountEntries(CanonEntries(v, keys + [k])) ==
      CountEntries(CanonEntries(v, keys)) + 1 + Count(Canon(v.entries[k]))
  {
    CanonEntriesSnoc(v, keys, k);
    CountEntriesSnoc(CanonEntries(v, keys), Entry(Digits(|k|), k, Canon(v.entries[k])));
  }

  lemma {:induction false} EvalCount(t: Text, depth: nat)
    requires WellFormed(t, depth)
    ensures Count(Canon(Eval(t))) <= Count(t)
    decreases t, 1
  {
    match t
    case TStr(_, _) =>
    case TInt(_) =>
    case TList(items) =>
      ItemsOkEach(items, depth + 1);
      var texts := Canon(Eval(t)).items;
      forall i | 0 <= i < |items| ensures Count(texts[i]) <= Count(items[i]) {
        EvalCount(items[i], depth + 1);
      }
      CountItemsMono(texts, items);
    case TDict(es) =>
      DictCount(es, depth + 1);
  }

  /** Every accepted input has a non-empty prefix that stands for a value within all limits;
      encoding that value and decoding it again gives the same value. */
  lemma DecodedIsStable(data: bytes, r: bytes)
    requires ParseValue(data, 0, 0).Ok?
    ensures var p := ParseValue(data, 0, 0);
      var v := Eval(p.value);
      var q := ParseValue(Encoded(v) + r, 0, 0);
      && |p.rest| < |data|
      && data == Print(p.value) + p.rest
      && InLimits(v, 0) && Count(Canon(v)) <= p.total <= MAX_TOTAL_ITEMS
      && q.Ok? && Eval(q.value) == v && q.rest == r
  {
    var t := ParseValue(data, 0, 0).value;
    ValueSound(data, 0, 0);
    EvalInLimits(t, 0);
    EvalCount(t, 0);
    RoundTrip(Eval(t), r);
  }

  // -------------------------------------------------------- text -> value -> text

  /** No padded length, no plus sign, no duplicate key, at any level. */
  ghost predicate Plain(t: Text)
    decreases t
  {
    match t
    case TStr(len, _) => Unpadded(len)
    case TInt(num) => num != [] && num[0] != PLUS
    case TList(items) => forall i :: 0 <= i < |items| ==> Plain(items[i])
    case TDict(es) =>
      && (forall i :: 0 <= i < |es| ==> Unpadded(es[i].len) && Plain(es[i].val))
      && (forall i, j :: 0 <= i < j < |es| ==> es[i].key != es[j].key)
  }

  lemma {:induction false} CanonIsPlain(v: Value)
    ensures Plain(Canon(v))
    decreases v
  {
    match v
    case Str(s) => DigitsUnpadded(|s|);
    case Int(n) =>
    case List(items) =>
      forall i | 0 <= i < |items| ensures Plain(Canon(items[i])) { CanonIsPlain(items[i]); }
    case Dict(m) =>
      var ks := SortedKeys(m.Keys);
      var es := CanonEntries(v, ks);
      forall i | 0 <= i < |es| ensures Unpadded(es[i].len) && Plain(es[i].val) {
        assert ks[i] in m;
        DigitsUnpadded(|ks[i]|);
        CanonIsPlain(m[ks[i]]);
      }
      forall i, j | 0 <= i < j < |es| ensures es[i].key != es[j].key {
        LessIrreflexive(ks[i]);
      }
  }

  lemma NumberCanonical(num: bytes)
    requires NumberOk(num) && num[0] != PLUS
    ensures IntText(NumberOf(num)) == num
  {
    var digits := Unsigned(num);
    if num[0] == MINUS {
      assert num == [MINUS] + digits;
      assert digits[0] == num[1];
      ToNatPositive(digits);
      DigitsOfToNat(digits);
    } else {
      DigitsOfToNat(digits);
    }
  }

  /** An entry read after others has a key that is not less than any of theirs. */
  lemma ReadInOrder(init: seq<Entry>, e: Entry, depth: nat, i: nat)
    requires EntriesOk(init + [e], depth, 0, []) && i < |init|
    ensures Leq(init[i].key, e.key)
  {
    EntriesOkSnoc(init, e, depth, 0, []);
    DictSize(init, depth);
    var k, prev := init[i].key, LastKey(init, []);
    EvalKeys(init, k);
    SizePositive(init, prev);
    LessTotal(e.key, prev);
    if Less(k, prev) && Less(prev, e.key) {
      LessTransitive(k, prev, e.key);
    }
  }

  /** Keys that are read in order and without duplicates are strictly ascending. */
  lemma {:induction false} DistinctKeysAscend(es: seq<Entry>, depth: nat)
    requires EntriesOk(es, depth, 0, [])
    requires forall i, j :: 0 <= i < j < |es| ==> es[i].key != es[j].key
    ensures forall i, j :: 0 <= i < j < |es| ==> Less(es[i].key, es[j].key)
  {
    if es != [] {
      hide EntriesOk, Less;
      var n := |es| - 1;
      var init, e := es[..n], es[n];
      assert es == init + [e];
      EntriesOkSnoc(init, e, depth, 0, []);
      DistinctKeysAscend(init, depth);
      forall i | 0 <= i < n ensures Less(es[i].key, e.key) {
        assert es[i] == init[i];
        ReadInOrder(init, e, depth, i);
      }
    }
  }

  lemma {:induction false} CanonOfEval(t: Text, depth: nat)
    requires WellFormed(t, depth) && Plain(t)
    ensures Canon(Eval(t)) == t
    decreases t
  {
    match t
    case TStr(len, s) => DigitsOfToNat(len);
    case TInt(num) => NumberCanonical(num);
    case TList(items) =>
      ItemsOkEach(items, depth + 1);
      forall i | 0 <= i < |items| ensures Canon(Eval(items[i])) == items[i] {
        CanonOfEval(items[i], depth + 1);
      }
      assert Canon(Eval(t)).items == items;
    case TDict(es) =>
      DistinctKeysAscend(es, depth + 1);
      forall i | 0 <= i < |es|
        ensures StringOk(es[i].len, es[i].key) && Canon(Eval(es[i].val)) == es[i].val
      {
        EntryWellFormed(es, depth + 1, 0, [], i);
        CanonOfEval(es[i].val, depth + 1);
      }
      CanonOfEvalEntries(es);
  }

  function KeysOf(es: seq<Entry>): (r: seq<bytes>)
    ensures |r| == |es| && forall i :: 0 <= i < |es| ==> r[i] == es[i].key
  {
    seq(|es|, i requires 0 <= i < |es| => es[i].key)
  }

  lemma AscendingKeysOf(es: seq<Entry>)
    requires forall i, j :: 0 <= i < j < |es| ==> Less(es[i].key, es[j].key)
    ensures SortedKeys(EvalEntries(es).Keys) == KeysOf(es)
  {
    var m, keys := EvalEntries(es), KeysOf(es);
    forall k ensures k in keys <==> k in m.Keys {
      EvalKeys(es, k);
      if k in keys {
        var i :| 0 <= i < |keys| && keys[i] == k;
      }
      if k in m {
        var i :| 0 <= i < |es| && es[i].key == k;
        assert keys[i] == k;
      }
    }
    ListIsUnique(keys, SortedKeys(m.Keys), m.Keys);
  }

  lemma CanonOfEvalEntries(es: seq<Entry>)
    requires forall i, j :: 0 <= i < j < |es| ==> Less(es[i].key, es[j].key)
    requires forall i :: 0 <= i < |es| ==>
      StringOk(es[i].len, es[i].key) && Unpadded(es[i].len) && Canon(Eval(es[i].val)) == es[i].val
    ensures Canon(Dict(EvalEntries(es))) == TDict(es)
  {
    hide *;
    var m := EvalEntries(es);
    AscendingKeysOf(es);
    CanonOfDict(m);
    forall i | 0 <= i < |es|
      ensures es[i].key in m && Entry(Digits(|es[i].key|), es[i].key, Canon(m[es[i].key])) == es[i]
    {
      EntryIsCanon(es, i);
    }
    var canon := CanonEntries(Dict(m), KeysOf(es));
    forall i | 0 <= i < |es| ensures canon[i] == es[i] {
      assert KeysOf(es)[i] == es[i].key;
    }
    assert canon == es;
    assert Canon(Dict(m)) == TDict(es);
  }

  lemma CanonOfDict(m: map<bytes, Value>)
    ensures Canon(Dict(m)) == TDict(CanonEntries(Dict(m), SortedKeys(m.Keys)))
  {
    hide CanonEntries;
  }

  /** The entry of an ascending list as the encoder writes it. */
  lemma EntryIsCanon(es: seq<Entry>, i: nat)
    requires i < |es| && forall j :: i < j < |es| ==> Less(es[i].key, es[j].key)
    requires StringOk(es[i].len, es[i].key) && Unpadded(es[i].len) && Canon(Eval(es[i].val)) == es[i].val
    ensures es[i].key in EvalEntries(es)
    ensures Entry(Digits(|es[i].key|), es[i].key, Canon(EvalEntries(es)[es[i].key])) == es[i]
  {
    hide Eval, EvalEntries, Canon, Less;
    LessIrreflexive(es[i].key);
    LastEntryWins(es, i);
    DigitsOfToNat(es[i].len);
  }

  /** Re-encoding reproduces the accepted bytes exactly when their text is plain. */
  lemma ReencodesIffPlain(data: bytes)
    requires ParseValue(data, 0, 0).Ok?
    ensures var p := ParseValue(data, 0, 0);
      data == Encoded(Eval(p.value)) + p.rest <==> Plain(p.value)
  {
    var p := ParseValue(data, 0, 0);
    var t := p.value;
    ValueSound(data, 0, 0);
    if Plain(t) {
      CanonOfEval(t, 0);
    }
    if data == Encoded(Eval(t)) + p.rest {
      EvalInLimits(t, 0);
      EvalCount(t, 0);
      CanonWellFormed(Eval(t), 0);
      PrintIsUnambiguous(t, Canon(Eval(t)), p.rest, p.rest);
      CanonIsPlain(Eval(t));
    }
  }

  /** The info hash: of the entries of a torrent file with key `info` the last one counts, and its
      value re-encodes to the very bytes that stood in the file exactly when those are plain, whatever
      the hash function makes of them. */
  lemma InfoBytesAreOriginal(data: bytes, info: bytes, i: nat)
    requires ParseValue(data, 0, 0).Ok? && ParseValue(data, 0, 0).value.TDict?
    requires var es := ParseValue(data, 0, 0).value.entries;
      i < |es| && es[i].key == info && forall j :: i < j < |es| ==> es[j].key != info
    ensures var t := ParseValue(data, 0, 0).value;
      && info in Eval(t).entries
      && (Encoded(Eval(t).entries[info]) == Print(t.entries[i].val) <==> Plain(t.entries[i].val))
  {
    var t := ParseValue(data, 0, 0).value;
    ValueSound(data, 0, 0);
    LastEntryWins(t.entries, i);
    EntryWellFormed(t.entries, 1, 0, [], i);
    TextReencodes(t.entries[i].val, 1);
  }

  const INFO: bytes := [0x69, 0x6E, 0x66, 0x6F]

  /** The text d1:ai+1ee. */
  const SIGNED: Text := TDict([Entry([0x31], [0x61], TInt([PLUS, 0x31]))])

  lemma OneEntry(e: Entry, depth: nat)
    ensures EntriesOk([e], depth, 0, []) <==> StringOk(e.len, e.key) && WellFormed(e.val, depth)
    ensures CountEntries([e]) == 1 + Count(e.val)
  {
    EntriesCons(e, [], depth, 0, []);
    assert [e] + [] == [e];
  }

  lemma SignedWellFormed()
    ensures WellFormed(SIGNED, 1) && Count(SIGNED) == 1 && !Plain(SIGNED)
  {
    assert StringOk([0x31], [0x61]);
    assert NumberOk([PLUS, 0x31]);
    OneEntry(SIGNED.entries[0], 2);
    assert !Plain(SIGNED.entries[0].val);
  }

  /** The torrent text d4:infod1:ai+1eee is accepted, and the bytes that are hashed are not those of its
      info dictionary. */
  lemma SignedInfoDiffers()
    ensures var t := TDict([Entry([0x34], INFO, SIGNED)]);
      && ParseValue(Print(t), 0, 0) == Ok(t, [], 2)
      && INFO in Eval(t).entries
      && Encoded(Eval(t).entries[INFO]) != Print(SIGNED)
  {
    var t := TDict([Entry([0x34], INFO, SIGNED)]);
    SignedWellFormed();
    hide Plain, Print;
    assert StringOk([0x34], INFO);
    OneEntry(t.entries[0], 1);
    assert WellFormed(t, 0) && Count(t) == 2;
    ValueComplete(t, [], 0, 0);
    assert Print(t) + [] == Print(t);
    InfoBytesAreOriginal(Print(t), INFO, 0);
  }

  lemma {:induction false} EntryWellFormed(es: seq<Entry>, depth: nat, size: nat, prev: bytes, i: nat)
    requires EntriesOk(es, depth, size, prev) && i < |es|
    ensures StringOk(es[i].len, es[i].key)
    ensures WellFormed(es[i].val, depth) && Count(es[i].val) <= CountEntries(es)
  {
    if i > 0 {
      EntryWellFormed(es[1..], depth, NextSize(size, prev, es[0].key), es[0].key, i - 1);
    }
  }

  lemma TextReencodes(t: Text, depth: nat)
    requires WellFormed(t, depth) && Count(t) <= MAX_TOTAL_ITEMS
    ensures Encoded(Eval(t)) == Print(t) <==> Plain(t)
  {
    if Plain(t) {
      CanonOfEval(t, depth);
    }
    if Encoded(Eval(t)) == Print(t) {
      var u := Canon(Eval(t));
      EvalInLimits(t, depth);
      EvalCount(t, depth);
      CanonWellFormed(Eval(t), depth);
      ValueComplete(t, [], depth, 0);
      ValueComplete(u, [], depth, 0);
      CanonIsPlain(Eval(t));
    }
  }
}
