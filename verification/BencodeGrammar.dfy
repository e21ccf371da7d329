/** The parser accepts exactly the printed forms of well-formed texts, each in one way. */
module BencodeGrammar {
  import opened Bytes
  import opened Decimal
  import opened Lex
  import opened Bencode

  lemma {:induction false} DigitRunOf(len: bytes, r: bytes)
    requires AllDigits(len) && (r == [] || !IsDigit(r[0]))
    ensures DigitRun(len + r) == |len|
  {
    if len == [] {
      assert len + r == r;
    } else {
      assert (len + r)[1..] == len[1..] + r;
      DigitRunOf(len[1..], r);
    }
  }

  lemma {:induction false} FindEOf(num: bytes, r: bytes)
    requires LETTER_E !in num && r != [] && r[0] == LETTER_E
    ensures FindE(num + r) == |num|
  {
    if num == [] {
      assert num + r == r;
    } else {
      assert (num + r)[1..] == num[1..] + r;
      FindEOf(num[1..], r);
    }
  }

  lemma NumberHasNoE(num: bytes)
    requires NumberOk(num)
    ensures LETTER_E !in num
  {
    var digits := Unsigned(num);
    assert num == digits || num == [num[0]] + digits;
    assert forall i :: 0 <= i < |digits| ==> IsDigit(digits[i]);
  }

  // ------------------------------------------------------- what is parsed is printed

  lemma AppendAssoc(a: bytes, b: bytes, c: bytes, d: bytes)
    ensures a + b + c + d == a + (b + c + d)
  {
  }

  lemma StringSound(data: bytes, total: nat)
    requires ParseString(data, total).Ok?
    ensures var r := ParseString(data, total);
      && data == Print(r.value) + r.rest && StringOk(r.value.len, r.value.s) && r.total == total
  {
    var colon := DigitRun(data);
    var end := colon + 1 + ToNat(data[..colon]);
    assert data == data[..colon] + [data[colon]] + data[colon + 1..end] + data[end..];
  }

  lemma NumberSound(data: bytes, total: nat)
    requires data != [] && data[0] == LETTER_I && ParseNumber(data, total).Ok?
    ensures var r := ParseNumber(data, total);
      && data == Print(r.value) + r.rest && NumberOk(r.value.num) && r.total == total
  {
    var end := 1 + FindE(data[1..]);
    assert data[end] == data[1..][end - 1];
    assert data == [data[0]] + data[1..end] + [data[end]] + data[end + 1..];
  }

  lemma {:induction false} ValueSound(data: bytes, depth: nat, total: nat)
    requires total <= MAX_TOTAL_ITEMS && ParseValue(data, depth, total).Ok?
    ensures var r := ParseValue(data, depth, total);
      && data == Print(r.value) + r.rest
      && WellFormed(r.value, depth)
      && r.total == total + Count(r.value) <= MAX_TOTAL_ITEMS
    decreases |data|, 1
  {
    hide ParseNumber, ParseString, ParseItems, ParseEntries, ParseEntry, PrintItems, PrintEntries,
      CountItems, CountEntries, ItemsOk, EntriesOk, StringOk, NumberOk;
    var r := ParseValue(data, depth, total);
    if data[0] == LETTER_I {
      NumberSound(data, total);
    } else if data[0] == LETTER_L {
      ItemsSound(data[1..], depth, total, 0);
      assert data == [LETTER_L] + data[1..];
    } else if data[0] == LETTER_D {
      EntriesSound(data[1..], depth, total, 0, []);
      assert data == [LETTER_D] + data[1..];
    } else {
      StringSound(data, total);
    }
    assert data == Print(r.value) + r.rest;
    assert WellFormed(r.value, depth) && r.total == total + Count(r.value) <= MAX_TOTAL_ITEMS;
  }

  lemma {:induction false} ItemsSound(data: bytes, depth: nat, total: nat, size: nat)
    requires total <= MAX_TOTAL_ITEMS && size <= MAX_COLLECTION_SIZE
    requires ParseItems(data, depth, total, size).Ok?
    ensures var r := ParseItems(data, depth, total, size);
      && data == PrintItems(r.value) + [LETTER_E] + r.rest
      && ItemsOk(r.value, depth + 1)
      && size + |r.value| <= MAX_COLLECTION_SIZE
      && r.total == total + CountItems(r.value) <= MAX_TOTAL_ITEMS
    decreases |data|, 2
  {
    hide ParseValue, Print, WellFormed, Count, ItemsOk, PrintItems, CountItems, ParseItems;
    ParseItemsTurn(data, depth, total, size);
    if data[0] == LETTER_E {
      NoItems(data[1..], depth);
      assert data == [] + [LETTER_E] + data[1..];
    } else {
      ValueSound(data, depth + 1, total + 1);
      var v := ParseValue(data, depth + 1, total + 1);
      ItemsSound(v.rest, depth, v.total, size + 1);
      var r := ParseItems(v.rest, depth, v.total, size + 1);
      ItemsCons(v.value, r.value, depth + 1);
      AppendAssoc(Print(v.value), PrintItems(r.value), [LETTER_E], r.rest);
    }
  }

  lemma ItemsCons(t: Text, tail: seq<Text>, depth: nat)
    ensures PrintItems([t] + tail) == Print(t) + PrintItems(tail)
    ensures CountItems([t] + tail) == 1 + Count(t) + CountItems(tail)
    ensures ItemsOk([t] + tail, depth) <==> WellFormed(t, depth) && ItemsOk(tail, depth)
  {
    assert ([t] + tail)[1..] == tail;
  }

  lemma NoItems(r: bytes, depth: nat)
    ensures PrintItems([]) == [] && CountItems([]) == 0 && ItemsOk([], depth + 1)
    ensures ([] + [LETTER_E] + r)[1..] == r
  {
  }

  /** One turn of the list loop. */
  lemma ParseItemsTurn(data: bytes, depth: nat, total: nat, size: nat)
    ensures var all := ParseItems(data, depth, total, size);
      if data == [] then all.Err?
      else if data[0] == LETTER_E then all == Ok([], data[1..], total)
      else
        var h := ParseValue(data, depth + 1, total + 1);
        if size < MAX_COLLECTION_SIZE && total < MAX_TOTAL_ITEMS && h.Ok? then
          var t := ParseItems(h.rest, depth, h.total, size + 1);
          if t.Ok? then all == Ok([h.value] + t.value, t.rest, t.total) else all.Err?
        else all.Err?
  {
  }

  lemma EntriesCons(e: Entry, tail: seq<Entry>, depth: nat, size: nat, prev: bytes)
    ensures PrintEntries([e] + tail) == PrintEntry(e) + PrintEntries(tail)
    ensures CountEntries([e] + tail) == 1 + Count(e.val) + CountEntries(tail)
    ensures EntriesOk([e] + tail, depth, size, prev) <==>
      && size < MAX_COLLECTION_SIZE && StringOk(e.len, e.key) && !(size > 0 && Less(e.key, prev))
      && WellFormed(e.val, depth) && EntriesOk(tail, depth, NextSize(size, prev, e.key), e.key)
  {
    assert ([e] + tail)[1..] == tail;
  }

  /** One turn of the dictionary loop. */
  lemma ParseEntriesTurn(data: bytes, depth: nat, total: nat, size: nat, prev: bytes)
    requires data != [] && data[0] != LETTER_E
    ensures var all := ParseEntries(data, depth, total, size, prev);
      var h := ParseEntry(data, depth, total, size, prev);
      if size < MAX_COLLECTION_SIZE && total < MAX_TOTAL_ITEMS && h.Ok? then
        var t := ParseEntries(h.rest, depth, h.total, NextSize(size, prev, h.value.key), h.value.key);
        if t.Ok? then all == Ok([h.value] + t.value, t.rest, t.total) else all.Err?
      else all.Err?
  {
  }

  lemma EntriesSoundEnd(data: bytes, depth: nat, total: nat, size: nat, prev: bytes)
    requires total <= MAX_TOTAL_ITEMS && data != [] && data[0] == LETTER_E
    ensures ParseEntries(data, depth, total, size, prev) == Ok([], data[1..], total)
    ensures data == PrintEntries([]) + [LETTER_E] + data[1..]
  {
  }

  lemma {:induction false} EntriesSound(data: bytes, depth: nat, total: nat, size: nat, prev: bytes)
    requires total <= MAX_TOTAL_ITEMS
    requires ParseEntries(data, depth, total, size, prev).Ok?
    ensures var r := ParseEntries(data, depth, total, size, prev);
      && data == PrintEntries(r.value) + [LETTER_E] + r.rest
      && EntriesOk(r.value, depth + 1, size, prev)
      && r.total == total + CountEntries(r.value) <= MAX_TOTAL_ITEMS
    decreases |data|, 2
  {
    if data[0] == LETTER_E {
      EntriesSoundEnd(data, depth, total, size, prev);
    } else {
      hide ParseEntry, PrintEntry, WellFormed, StringOk, Less, Count, NextSize,
        EntriesOk, PrintEntries, CountEntries, ParseEntries;
      ParseEntriesTurn(data, depth, total, size, prev);
      EntrySound(data, depth, total, size, prev);
      var h := ParseEntry(data, depth, total, size, prev);
      var size' := NextSize(size, prev, h.value.key);
      EntriesSound(h.rest, depth, h.total, size', h.value.key);
      var r := ParseEntries(h.rest, depth, h.total, size', h.value.key);
      EntriesCons(h.value, r.value, depth + 1, size, prev);
      AppendAssoc(PrintEntry(h.value), PrintEntries(r.value), [LETTER_E], r.rest);
    }
  }

  lemma {:induction false} EntrySound(data: bytes, depth: nat, total: nat, size: nat, prev: bytes)
    requires total < MAX_TOTAL_ITEMS && ParseEntry(data, depth, total, size, prev).Ok?
    ensures var r := ParseEntry(data, depth, total, size, prev);
      && data == PrintEntry(r.value) + r.rest
      && StringOk(r.value.len, r.value.key) && !(size > 0 && Less(r.value.key, prev))
      && WellFormed(r.value.val, depth + 1)
      && r.total == total + 1 + Count(r.value.val) <= MAX_TOTAL_ITEMS
    decreases |data|, 1
  {
    StringSound(data, total + 1);
    var k := ParseString(data, total + 1);
    ValueSound(k.rest, depth + 1, k.total);
  }

  // ------------------------------------------------------- what is printed is parsed

  lemma StringComplete(len: bytes, s: bytes, r: bytes, total: nat)
    requires StringOk(len, s)
    ensures ParseString(len + [COLON] + s + r, total) == Ok(TStr(len, s), r, total)
  {
    var data := len + [COLON] + s + r;
    assert data == len + ([COLON] + s + r);
    DigitRunOf(len, [COLON] + s + r);
    assert data[..|len|] == len;
    var end := |len| + 1 + |s|;
    assert data[|len| + 1..end] == s && data[end..] == r;
  }

  lemma StringStart(len: bytes, s: bytes)
    requires StringOk(len, s)
    ensures len != [] && IsDigit(len[0])
  {
  }

  lemma NumberComplete(num: bytes, r: bytes, total: nat)
    requires NumberOk(num)
    ensures ParseNumber([LETTER_I] + num + [LETTER_E] + r, total) == Ok(TInt(num), r, total)
  {
    var data := [LETTER_I] + num + [LETTER_E] + r;
    NumberHasNoE(num);
    assert data[1..] == num + ([LETTER_E] + r);
    FindEOf(num, [LETTER_E] + r);
    assert data[1..1 + |num|] == num && data[|num| + 2..] == r;
  }

  lemma {:induction false} ValueComplete(t: Text, r: bytes, depth: nat, total: nat)
    requires WellFormed(t, depth) && total + Count(t) <= MAX_TOTAL_ITEMS
    ensures ParseValue(Print(t) + r, depth, total) == Ok(t, r, total + Count(t))
    decreases t, 1
  {
    hide ParseNumber, ParseString, ParseItems, ParseEntries, ParseEntry, PrintItems, PrintEntries,
      CountItems, CountEntries, ItemsOk, EntriesOk, StringOk, NumberOk;
    var data := Print(t) + r;
    match t
    case TStr(len, s) =>
      StringComplete(len, s, r, total);
      StringStart(len, s);
      assert data[0] == len[0];
      assert ParseValue(data, depth, total) == ParseString(data, total);
    case TInt(num) =>
      NumberComplete(num, r, total);
      assert ParseValue(data, depth, total) == ParseNumber(data, total);
    case TList(items) =>
      ItemsComplete(items, r, depth, total, 0);
      assert data[1..] == PrintItems(items) + [LETTER_E] + r;
      assert ParseValue(data, depth, total) == Ok(t, r, total + Count(t));
    case TDict(entries) =>
      EntriesComplete(entries, r, depth, total, 0, []);
      assert data[1..] == PrintEntries(entries) + [LETTER_E] + r;
      assert ParseValue(data, depth, total) == Ok(t, r, total + Count(t));
  }

  lemma PrintStart(t: Text, depth: nat)
    requires WellFormed(t, depth)
    ensures Print(t)[0] != LETTER_E
  {
  }

  lemma {:induction false} ItemsComplete(items: seq<Text>, r: bytes, depth: nat, total: nat, size: nat)
    requires ItemsOk(items, depth + 1) && size + |items| <= MAX_COLLECTION_SIZE
    requires total + CountItems(items) <= MAX_TOTAL_ITEMS
    ensures ParseItems(PrintItems(items) + [LETTER_E] + r, depth, total, size)
         == Ok(items, r, total + CountItems(items))
    decreases items, 0
  {
    hide ParseValue, Print, WellFormed, Count, ItemsOk, PrintItems, CountItems, ParseItems;
    var data := PrintItems(items) + [LETTER_E] + r;
    ParseItemsTurn(data, depth, total, size);
    if items == [] {
      NoItems(r, depth);
    } else {
      var t, tail := items[0], items[1..];
      assert items == [t] + tail;
      ItemsCons(t, tail, depth + 1);
      PrintStart(t, depth + 1);
      AppendAssoc(Print(t), PrintItems(tail), [LETTER_E], r);
      ValueComplete(t, PrintItems(tail) + [LETTER_E] + r, depth + 1, total + 1);
      ItemsComplete(tail, r, depth, total + 1 + Count(t), size + 1);
    }
  }

  lemma {:induction false} EntriesComplete(entries: seq<Entry>, r: bytes, depth: nat, total: nat, size: nat,
                                           prev: bytes)
    requires EntriesOk(entries, depth + 1, size, prev)
    requires total + CountEntries(entries) <= MAX_TOTAL_ITEMS
    ensures ParseEntries(PrintEntries(entries) + [LETTER_E] + r, depth, total, size, prev)
         == Ok(entries, r, total + CountEntries(entries))
    decreases entries, 0
  {
    hide ParseEntry, PrintEntry, WellFormed, StringOk, Less, Count, NextSize, EntriesOk, PrintEntries,
      ParseEntries, CountEntries;
    var data := PrintEntries(entries) + [LETTER_E] + r;
    if entries == [] {
      NoEntries(r, depth, total, size, prev);
    } else {
      var e, tail := entries[0], entries[1..];
      assert entries == [e] + tail;
      EntriesCons(e, tail, depth + 1, size, prev);
      EntryStart(e);
      AppendAssoc(PrintEntry(e), PrintEntries(tail), [LETTER_E], r);
      EntryComplete(e, PrintEntries(tail) + [LETTER_E] + r, depth, total, size, prev);
      EntriesComplete(tail, r, depth, total + 1 + Count(e.val), NextSize(size, prev, e.key), e.key);
      ParseEntriesTurn(data, depth, total, size, prev);
    }
  }

  lemma NoEntries(r: bytes, depth: nat, total: nat, size: nat, prev: bytes)
    ensures PrintEntries([]) == [] && CountEntries([]) == 0
    ensures ParseEntries([] + [LETTER_E] + r, depth, total, size, prev) == Ok([], r, total)
  {
    assert ([] + [LETTER_E] + r)[1..] == r;
  }

  lemma EntryStart(e: Entry)
    requires StringOk(e.len, e.key)
    ensures PrintEntry(e) != [] && PrintEntry(e)[0] != LETTER_E
  {
    assert PrintEntry(e)[0] == e.len[0];
  }

  lemma {:induction false} EntryComplete(e: Entry, r: bytes, depth: nat, total: nat, size: nat, prev: bytes)
    requires StringOk(e.len, e.key) && !(size > 0 && Less(e.key, prev))
    requires WellFormed(e.val, depth + 1) && total + 1 + Count(e.val) <= MAX_TOTAL_ITEMS
    ensures ParseEntry(PrintEntry(e) + r, depth, total, size, prev) == Ok(e, r, total + 1 + Count(e.val))
    decreases e, 1
  {
    var data := PrintEntry(e) + r;
    var rest := Print(e.val) + r;
    assert data == e.len + [COLON] + e.key + rest;
    assert data[0] == e.len[0];
    StringComplete(e.len, e.key, rest, total + 1);
    ValueComplete(e.val, r, depth + 1, total + 1);
  }

  // -------------------------------------------------------------------- grammar

  /** The parser is exactly the grammar: it reads text t and leaves `rest` if and only if the input
      is t printed, followed by `rest`, and t is within the limits. */
  lemma ParserIsGrammar(data: bytes, depth: nat, total: nat, t: Text, rest: bytes)
    requires total <= MAX_TOTAL_ITEMS
    ensures ParseValue(data, depth, total) == Ok(t, rest, total + Count(t))
      <==> data == Print(t) + rest && WellFormed(t, depth) && total + Count(t) <= MAX_TOTAL_ITEMS
  {
    if ParseValue(data, depth, total) == Ok(t, rest, total + Count(t)) {
      ValueSound(data, depth, total);
    }
    if data == Print(t) + rest && WellFormed(t, depth) && total + Count(t) <= MAX_TOTAL_ITEMS {
      ValueComplete(t, rest, depth, total);
    }
  }

  /** Printing is unambiguous, even with anything appended. */
  lemma PrintIsUnambiguous(t: Text, u: Text, a: bytes, b: bytes)
    requires WellFormed(t, 0) && Count(t) <= MAX_TOTAL_ITEMS
    requires WellFormed(u, 0) && Count(u) <= MAX_TOTAL_ITEMS
    requires Print(t) + a == Print(u) + b
    ensures t == u && a == b
  {
    ValueComplete(t, a, 0, 0);
    ValueComplete(u, b, 0, 0);
  }
}
