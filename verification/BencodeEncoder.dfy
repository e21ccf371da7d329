/** The encoder as it runs: one buffer grown by appends, keys collected and sorted. */
module BencodeEncoder {
  import opened Bytes
  import opened Decimal
  import opened Lex
  import opened Bencode
  import opened BencodeEncoding

  lemma {:induction false} PrintItemsSnoc(items: seq<Text>, t: Text)
    ensures PrintItems(items + [t]) == PrintItems(items) + Print(t)
  {
    if items == [] {
      assert items + [t] == [t];
      assert [t][1..] == [];
    } else {
      assert (items + [t])[1..] == items[1..] + [t];
      PrintItemsSnoc(items[1..], t);
    }
  }

  lemma {:induction false} PrintEntriesSnoc(es: seq<Entry>, e: Entry)
    ensures PrintEntries(es + [e]) == PrintEntries(es) + PrintEntry(e)
  {
    if es == [] {
      assert es + [e] == [e];
      assert [e][1..] == [];
    } else {
      assert (es + [e])[1..] == es[1..] + [e];
      PrintEntriesSnoc(es[1..], e);
    }
  }

  method EncodeString(buf: bytes, s: bytes) returns (r: bytes)
    ensures r == buf + (Digits(|s|) + [COLON] + s)
  {
    r := buf + Digits(|s|);
    r := r + [COLON];
    r := r + s;
  }

  method EncodeInt(buf: bytes, n: int64) returns (r: bytes)
    ensures r == buf + ([LETTER_I] + IntText(n) + [LETTER_E])
  {
    r := buf + [LETTER_I];
    r := r + IntText(n);
    r := r + [LETTER_E];
  }

  /** Appends the encoding of a value to the buffer. */
  method EncodeValue(buf: bytes, v: Value) returns (r: bytes)
    ensures r == buf + Encoded(v)
    decreases v, 3
  {
    match v
    case Str(s) => r := EncodeString(buf, s);
    case Int(n) => r := EncodeInt(buf, n);
    case List(_) => r := EncodeList(buf, v);
    case Dict(_) => r := EncodeDict(buf, v);
  }

  method EncodeList(buf: bytes, v: Value) returns (r: bytes)
    requires v.List?
    ensures r == buf + Encoded(v)
    decreases v, 0
  {
    ghost var texts := Canon(v).items;
    hide Print, PrintItems, Canon, Encoded;
    PrintListForm(v);
    r := buf + [LETTER_L];
    ghost var start := r;
    for i := 0 to |v.items|
      invariant r == start + PrintItems(texts[..i])
    {
      r := EncodeValue(r, v.items[i]);
      ItemsNext(start, texts, i);
    }
    assert texts[..|v.items|] == texts;
    r := r + [LETTER_E];
  }

  lemma ItemsNext(buf: bytes, texts: seq<Text>, i: nat)
    requires i < |texts|
    ensures buf + PrintItems(texts[..i]) + Print(texts[i]) == buf + PrintItems(texts[..i + 1])
  {
    hide Print, PrintItems;
    assert texts[..i + 1] == texts[..i] + [texts[i]];
    PrintItemsSnoc(texts[..i], texts[i]);
  }

  lemma PrintListForm(v: Value)
    requires v.List?
    ensures Canon(v).TList? && |Canon(v).items| == |v.items|
    ensures forall i :: 0 <= i < |v.items| ==> Encoded(v.items[i]) == Print(Canon(v).items[i])
    ensures Encoded(v) == [LETTER_L] + PrintItems(Canon(v).items) + [LETTER_E]
    ensures PrintItems([]) == []
  {
  }

  method EncodeDict(buf: bytes, v: Value) returns (r: bytes)
    requires v.Dict?
    ensures r == buf + Encoded(v)
    decreases v, 2
  {
    hide Before, Less, Canon, PrintEntries, SortedKeys;
    var keys := SortKeys(v.entries.Keys);
    assert forall i :: 0 <= i < |keys| ==> keys[i] in v.entries;
    r := EncodeEntries(buf + [LETTER_D], v, keys);
    r := r + [LETTER_E];
    PrintDictForm(v);
  }

  method EncodeEntries(buf: bytes, v: Value, keys: seq<bytes>) returns (r: bytes)
    requires v.Dict? && forall i :: 0 <= i < |keys| ==> keys[i] in v.entries
    ensures r == buf + PrintEntries(CanonEntries(v, keys))
    decreases v, 1
  {
    hide Print, PrintEntries, Canon, CanonEntries, PrintEntry;
    ghost var es := CanonEntries(v, keys);
    PrintDictForm(v);
    r := buf;
    for i := 0 to |keys|
      invariant r == buf + PrintEntries(es[..i])
    {
      r := EncodeEntry(r, v, keys[i]);
      EntriesNext(buf, es, i);
    }
    assert es[..|keys|] == es;
  }

  lemma EntriesNext(buf: bytes, es: seq<Entry>, i: nat)
    requires i < |es|
    ensures buf + PrintEntries(es[..i]) + PrintEntry(es[i]) == buf + PrintEntries(es[..i + 1])
  {
    hide PrintEntry, PrintEntries;
    assert es[..i + 1] == es[..i] + [es[i]];
    PrintEntriesSnoc(es[..i], es[i]);
  }

  method EncodeEntry(buf: bytes, v: Value, k: bytes) returns (r: bytes)
    requires v.Dict? && k in v.entries
    ensures r == buf + PrintEntry(Entry(Digits(|k|), k, Canon(v.entries[k])))
    decreases v, 0
  {
    r := EncodeString(buf, k);
    r := EncodeValue(r, v.entries[k]);
  }

  lemma PrintDictForm(v: Value)
    requires v.Dict?
    ensures Encoded(v) == [LETTER_D] + PrintEntries(CanonEntries(v, SortedKeys(v.entries.Keys))) + [LETTER_E]
    ensures PrintEntries([]) == []
  {
  }

  method Encode(v: Value) returns (r: bytes)
    ensures r == Encoded(v)
  {
    r := EncodeValue([], v);
  }
}
