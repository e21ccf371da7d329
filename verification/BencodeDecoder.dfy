/** The decoder as it runs: loops that shorten the input and grow a list or a dictionary. Each method
    is proved to compute the meaning of the text that Bencode.ParseValue reads. */
module BencodeDecoder {
  import opened Bytes
  import opened Decimal
  import opened Lex
  import opened Bencode
  import opened BencodeEncoding
  import BencodeGrammar
  import BencodeTheorems

  function Meaning(r: Result<Text>): Result<Value> {
    match r
    case Ok(t, rest, n) => Ok(Eval(t), rest, n)
    case Err(e) => Err(e)
  }

  function KeyMeaning(r: Result<Text>): Result<bytes>
    requires r.Ok? ==> r.value.TStr?
  {
    match r
    case Ok(t, rest, n) => Ok(t.s, rest, n)
    case Err(e) => Err(e)
  }

  function EntryMeaning(r: Result<Entry>): Result<(bytes, Value)> {
    match r
    case Ok(e, rest, n) => Ok((e.key, Eval(e.val)), rest, n)
    case Err(e) => Err(e)
  }

  function ListMeaning(r: Result<seq<Text>>): Result<Value> {
    match r
    case Ok(items, rest, n) => Ok(List(EvalItems(items)), rest, n)
    case Err(e) => Err(e)
  }

  function DictMeaning(r: Result<seq<Entry>>): Result<Value> {
    match r
    case Ok(es, rest, n) => Ok(Dict(EvalEntries(es)), rest, n)
    case Err(e) => Err(e)
  }

  function Prepend<T>(front: seq<T>, r: Result<seq<T>>): Result<seq<T>> {
    match r
    case Ok(back, rest, n) => Ok(front + back, rest, n)
    case Err(e) => Err(e)
  }

  method DecodeString(data: bytes, total: nat) returns (r: Result<bytes>, ghost t: Result<Text>)
    ensures r == KeyMeaning(ParseString(data, total))
    ensures t == ParseString(data, total)
  {
    t := ParseString(data, total);
    var colon := 0;
    while colon < |data| && data[colon] != COLON
      invariant 0 <= colon <= |data|
      invariant AllDigits(data[..colon])
    {
      if !IsDigit(data[colon]) {
        RunEnds(data, colon);
        return Err(InvalidFormat), t;
      }
      colon := colon + 1;
    }
    RunEnds(data, colon);
    if colon == |data| || colon == 0 {
      return Err(InvalidFormat), t;
    }
    var length := ToNat(data[..colon]);
    if length > MAX_STRING_LENGTH {
      return Err(InvalidFormat), t;
    }
    var start, end := colon + 1, colon + 1 + length;
    if end > |data| {
      return Err(UnexpectedEnd), t;
    }
    return Ok(data[start..end], data[end..], total), t;
  }

  lemma RunEnds(data: bytes, n: nat)
    requires n <= |data| && AllDigits(data[..n]) && (n < |data| ==> !IsDigit(data[n]))
    ensures DigitRun(data) == n
  {
    assert data == data[..n] + data[n..];
    BencodeGrammar.DigitRunOf(data[..n], data[n..]);
  }

  method DecodeInt(data: bytes, total: nat) returns (r: Result<Value>)
    requires data != [] && data[0] == LETTER_I
    ensures r == Meaning(ParseNumber(data, total))
  {
    var end := 1;
    while end < |data| && data[end] != LETTER_E
      invariant 1 <= end <= |data|
      invariant LETTER_E !in data[1..end]
    {
      end := end + 1;
    }
    FirstE(data[1..], end - 1);
    if end == |data| {
      return Err(UnexpectedEnd);
    }
    var num := data[1..end];
    if num == [] || (|num| > 1 && num[0] == ZERO) || num == [MINUS, ZERO] {
      return Err(InvalidFormat);
    }
    if |num| > 2 && num[0] == MINUS && num[1] == ZERO {
      return Err(InvalidFormat);
    }
    var n := ParseInt(num);
    if n.None? {
      return Err(InvalidFormat);
    }
    return Ok(Int(n.value), data[end + 1..], total);
  }

  lemma FirstE(data: bytes, n: nat)
    requires n <= |data| && LETTER_E !in data[..n] && (n < |data| ==> data[n] == LETTER_E)
    ensures FindE(data) == n
  {
    if n < |data| {
      assert data == data[..n] + data[n..];
      BencodeGrammar.FindEOf(data[..n], data[n..]);
    } else {
      assert data[..n] == data;
    }
  }

  method DecodeValue(data: bytes, depth: nat, total: nat) returns (r: Result<Value>)
    requires total <= MAX_TOTAL_ITEMS
    ensures r == Meaning(ParseValue(data, depth, total))
    decreases |data|, 1
  {
    if data == [] {
      return Err(UnexpectedEnd);
    }
    if depth > MAX_DECODE_DEPTH {
      return Err(InvalidFormat);
    }
    if data[0] == LETTER_I {
      r := DecodeInt(data, total);
    } else if data[0] == LETTER_L {
      r := DecodeList(data, depth, total);
    } else if data[0] == LETTER_D {
      r := DecodeDict(data, depth, total);
    } else if IsDigit(data[0]) {
      var s, t := DecodeString(data, total);
      match s
      case Ok(x, rest, n) => r := Ok(Str(x), rest, n);
      case Err(e) => r := Err(e);
    } else {
      r := Err(InvalidFormat);
    }
  }

  method DecodeList(data: bytes, depth: nat, total: nat) returns (r: Result<Value>)
    requires total <= MAX_TOTAL_ITEMS && depth <= MAX_DECODE_DEPTH
    requires data != [] && data[0] == LETTER_L
    ensures r == Meaning(ParseValue(data, depth, total))
    decreases |data|, 0
  {
    hide ParseItems, Eval, EvalItems;
    ghost var goal := ParseItems(data[1..], depth, total, 0);
    ghost var texts: seq<Text> := [];
    var rest, list := data[1..], [];
    var n: nat := total;
    ListGoal(data, depth, total);
    PrependNone(goal);
    while true
      invariant |rest| < |data| && n <= MAX_TOTAL_ITEMS
      invariant |texts| == |list| && list == EvalItems(texts)
      invariant goal == Prepend(texts, ParseItems(rest, depth, n, |texts|))
      decreases |rest|
    {
      BencodeGrammar.ParseItemsTurn(rest, depth, n, |texts|);
      ItemsError(rest, depth, n, |texts|);
      if rest == [] {
        return Err(UnexpectedEnd);
      }
      if rest[0] == LETTER_E {
        assert texts + [] == texts;
        return Ok(List(list), rest[1..], n);
      }
      if |list| >= MAX_COLLECTION_SIZE {
        return Err(InvalidFormat);
      }
      if n + 1 > MAX_TOTAL_ITEMS {
        return Err(InvalidFormat);
      }
      var v := DecodeValue(rest, depth + 1, n + 1);
      if v.Err? {
        return v;
      }
      ghost var p := ParseValue(rest, depth + 1, n + 1);
      BencodeGrammar.ValueSound(rest, depth + 1, n + 1);
      ItemsShift(texts, p.value, ParseItems(p.rest, depth, p.total, |texts| + 1));
      EvalItemsSnoc(texts, p.value);
      list, rest, n, texts := list + [v.value], v.rest, v.total, texts + [p.value];
    }
  }

  lemma ListGoal(data: bytes, depth: nat, total: nat)
    requires data != [] && data[0] == LETTER_L && depth <= MAX_DECODE_DEPTH
    ensures Meaning(ParseValue(data, depth, total)) == ListMeaning(ParseItems(data[1..], depth, total, 0))
  {
  }

  lemma EvalItemsSnoc(texts: seq<Text>, t: Text)
    ensures EvalItems(texts + [t]) == EvalItems(texts) + [Eval(t)]
  {
  }

  lemma PrependNone<T>(r: Result<seq<T>>)
    ensures Prepend([], r) == r
  {
    if r.Ok? {
      assert [] + r.value == r.value;
    }
  }

  lemma ItemsShift<T>(texts: seq<T>, t: T, back: Result<seq<T>>)
    ensures Prepend(texts, Prepend([t], back)) == Prepend(texts + [t], back)
  {
    if back.Ok? {
      assert texts + ([t] + back.value) == texts + [t] + back.value;
    }
  }

  /** The errors of one turn of the list loop. */
  lemma ItemsError(data: bytes, depth: nat, total: nat, size: nat)
    ensures var all := ParseItems(data, depth, total, size);
      if data == [] then all == Err(UnexpectedEnd)
      else if data[0] == LETTER_E then true
      else if size >= MAX_COLLECTION_SIZE || total >= MAX_TOTAL_ITEMS then all == Err(InvalidFormat)
      else
        var h := ParseValue(data, depth + 1, total + 1);
        if h.Err? then all == Err(h.error)
        else all == Prepend([h.value], ParseItems(h.rest, depth, h.total, size + 1))
  {
  }

  method DecodeDict(data: bytes, depth: nat, total: nat) returns (r: Result<Value>)
    requires total <= MAX_TOTAL_ITEMS && depth <= MAX_DECODE_DEPTH
    requires data != [] && data[0] == LETTER_D
    ensures r == Meaning(ParseValue(data, depth, total))
    decreases |data|, 0
  {
    hide ParseEntries, ParseEntry, Eval, EvalEntries, SizeAfter, EntriesOk, Less;
    ghost var goal := ParseEntries(data[1..], depth, total, 0, []);
    ghost var es: seq<Entry> := [];
    var rest, dict, prevKey := data[1..], map[], [];
    var n: nat := total;
    DictGoal(data, depth, total);
    PrependNone(goal);
    while true
      invariant |rest| < |data| && n <= MAX_TOTAL_ITEMS
      invariant EntriesOk(es, depth + 1, 0, [])
      invariant dict == EvalEntries(es) && prevKey == LastKey(es, [])
      invariant goal == Prepend(es, ParseEntries(rest, depth, n, SizeAfter(es, 0, []), prevKey))
      decreases |rest|
    {
      BencodeTheorems.DictSize(es, depth + 1);
      ghost var size := SizeAfter(es, 0, []);
      assert |dict| == |dict.Keys| == size;
      EntriesTurn(rest, depth, n, size, prevKey);
      if rest == [] {
        return Err(UnexpectedEnd);
      }
      if rest[0] == LETTER_E {
        assert es + [] == es;
        return Ok(Dict(dict), rest[1..], n);
      }
      if |dict| >= MAX_COLLECTION_SIZE {
        return Err(InvalidFormat);
      }
      if n + 1 > MAX_TOTAL_ITEMS {
        return Err(InvalidFormat);
      }
      var e := DecodeEntry(rest, depth, n, |dict| > 0, prevKey, size);
      if e.Err? {
        return Err(e.error);
      }
      ghost var p := ParseEntry(rest, depth, n, size, prevKey);
      BencodeGrammar.EntrySound(rest, depth, n, size, prevKey);
      EntriesOkSnoc(es, p.value, depth + 1, 0, []);
      SizeAfterSnoc(es, p.value, 0, []);
      EvalEntriesSnoc(es, p.value);
      ItemsShift(es, p.value, ParseEntries(p.rest, depth, p.total, SizeAfter(es + [p.value], 0, []), p.value.key));
      prevKey := e.value.0;
      dict := dict[e.value.0 := e.value.1];
      rest, n, es := e.rest, e.total, es + [p.value];
    }
  }

  /** One key and its value; `started` says whether there is a previous key to compare with. */
  method DecodeEntry(data: bytes, depth: nat, total: nat, started: bool, prevKey: bytes, ghost size: nat)
    returns (r: Result<(bytes, Value)>)
    requires total < MAX_TOTAL_ITEMS && data != [] && started == (size > 0)
    ensures r == EntryMeaning(ParseEntry(data, depth, total, size, prevKey))
    decreases |data|, 2
  {
    hide ParseValue, ParseString, Eval, Less;
    if !IsDigit(data[0]) {
      return Err(InvalidFormat);
    }
    var k, t := DecodeString(data, total + 1);
    if k.Err? {
      return Err(k.error);
    }
    KeepsTotal(data, total + 1);
    if started && Less(k.value, prevKey) {
      return Err(InvalidFormat);
    }
    var v := DecodeValue(k.rest, depth + 1, k.total);
    if v.Err? {
      return Err(v.error);
    }
    return Ok((k.value, v.value), v.rest, v.total);
  }

  lemma KeepsTotal(data: bytes, total: nat)
    ensures var r := ParseString(data, total); r.Ok? ==> r.total == total && |r.rest| < |data|
  {
  }

  lemma DictGoal(data: bytes, depth: nat, total: nat)
    requires data != [] && data[0] == LETTER_D && depth <= MAX_DECODE_DEPTH
    ensures Meaning(ParseValue(data, depth, total)) == DictMeaning(ParseEntries(data[1..], depth, total, 0, []))
    ensures EntriesOk([], depth + 1, 0, []) && EvalEntries([]) == map[] && SizeAfter([], 0, []) == 0
  {
  }

  lemma EvalEntriesSnoc(es: seq<Entry>, e: Entry)
    ensures EvalEntries(es + [e]) == EvalEntries(es)[e.key := Eval(e.val)]
  {
    assert (es + [e])[..|es|] == es;
  }

  /** One turn of the dictionary loop, with its errors. */
  lemma EntriesTurn(data: bytes, depth: nat, total: nat, size: nat, prev: bytes)
    ensures var all := ParseEntries(data, depth, total, size, prev);
      if data == [] then all == Err(UnexpectedEnd)
      else if data[0] == LETTER_E then all == Ok([], data[1..], total)
      else if size >= MAX_COLLECTION_SIZE || total >= MAX_TOTAL_ITEMS then all == Err(InvalidFormat)
      else
        var h := ParseEntry(data, depth, total, size, prev);
        if h.Err? then all == Err(h.error)
        else all == Prepend([h.value],
          ParseEntries(h.rest, depth, h.total, NextSize(size, prev, h.value.key), h.value.key))
  {
  }

  /** Decode: the first value of the input; what follows it is ignored. */
  method Decode(data: bytes) returns (r: Result<Value>)
    ensures r == Meaning(ParseValue(data, 0, 0))
  {
    r := DecodeValue(data, 0, 0);
  }
}
