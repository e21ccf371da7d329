/** Bencode (BEP 3): values, the texts that stand for them, and a parser from bytes to texts.
    A text records what the decoder throws away: how a length or an integer was spelled, and
    dictionary entries that a later duplicate key overrides. */
module Bencode {
  import opened Bytes
  import opened Decimal
  import opened Lex

  const MAX_STRING_LENGTH: nat := 64 * 1024 * 1024
  const MAX_COLLECTION_SIZE: nat := 1_000_000
  const MAX_DECODE_DEPTH: nat := 100
  const MAX_TOTAL_ITEMS: nat := 2_000_000

  const COLON: byte := 0x3A
  const LETTER_D: byte := 0x64
  const LETTER_E: byte := 0x65
  const LETTER_I: byte := 0x69
  const LETTER_L: byte := 0x6C

  datatype Value =
    | Str(s: bytes)
    | Int(n: int64)
    | List(items: seq<Value>)
    | Dict(entries: map<bytes, Value>)

  datatype Text =
    | TStr(len: bytes, s: bytes)
    | TInt(num: bytes)
    | TList(items: seq<Text>)
    | TDict(entries: seq<Entry>)

  datatype Entry = Entry(len: bytes, key: bytes, val: Text)

  datatype Error = UnexpectedEnd | InvalidFormat

  datatype Result<+T> = Ok(value: T, rest: bytes, total: nat) | Err(error: Error)

  // ------------------------------------------------------------------ printing

  function Print(t: Text): (r: bytes)
    ensures r != []
    decreases t, 1
  {
    match t
    case TStr(len, s) => len + [COLON] + s
    case TInt(num) => [LETTER_I] + num + [LETTER_E]
    case TList(items) => [LETTER_L] + PrintItems(items) + [LETTER_E]
    case TDict(entries) => [LETTER_D] + PrintEntries(entries) + [LETTER_E]
  }

  function PrintItems(items: seq<Text>): bytes
    decreases items, 0
  {
    if items == [] then [] else Print(items[0]) + PrintItems(items[1..])
  }

  function PrintEntry(e: Entry): bytes
    decreases e, 2
  {
    e.len + [COLON] + e.key + Print(e.val)
  }

  function PrintEntries(entries: seq<Entry>): bytes
    decreases entries, 0
  {
    if entries == [] then [] else PrintEntry(entries[0]) + PrintEntries(entries[1..])
  }

  // ------------------------------------------------------------------- parsing

  /** The number of digits at the front. */
  function DigitRun(data: bytes): (n: nat)
    ensures n <= |data|
    ensures AllDigits(data[..n]) && (n < |data| ==> !IsDigit(data[n]))
  {
    if data == [] || !IsDigit(data[0]) then 0 else 1 + DigitRun(data[1..])
  }

  /** The position of the first 'e', or the length if there is none. */
  function FindE(data: bytes): (n: nat)
    ensures n <= |data|
    ensures LETTER_E !in data[..n] && (n < |data| ==> data[n] == LETTER_E)
  {
    if data == [] || data[0] == LETTER_E then 0 else 1 + FindE(data[1..])
  }

  predicate StringOk(len: bytes, s: bytes) {
    len != [] && AllDigits(len) && ToNat(len) == |s| <= MAX_STRING_LENGTH
  }

  function ParseString(data: bytes, total: nat): (r: Result<Text>)
    ensures r.Ok? ==> r.value.TStr? && |r.rest| < |data|
  {
    var colon := DigitRun(data);
    var len := data[..colon];
    if colon == |data| || data[colon] != COLON || colon == 0 then Err(InvalidFormat)
    else if ToNat(len) > MAX_STRING_LENGTH then Err(InvalidFormat)
    else
      var start, end := colon + 1, colon + 1 + ToNat(len);
      if end > |data| then Err(UnexpectedEnd)
      else Ok(TStr(len, data[start..end]), data[end..], total)
  }

  /** The spellings of integers that are accepted: no leading zeros, no negative zero, and
      whatever strconv.ParseInt takes, which includes a plus sign. */
  predicate NumberOk(num: bytes) {
    && num != []
    && !(|num| > 1 && num[0] == ZERO)
    && num != [MINUS, ZERO]
    && !(|num| > 2 && num[0] == MINUS && num[1] == ZERO)
    && ParseInt(num).Some?
  }

  function ParseNumber(data: bytes, total: nat): (r: Result<Text>)
    requires data != []
    ensures r.Ok? ==> r.value.TInt? && |r.rest| < |data|
  {
    var end := 1 + FindE(data[1..]);
    if end == |data| then Err(UnexpectedEnd)
    else if !NumberOk(data[1..end]) then Err(InvalidFormat)
    else Ok(TInt(data[1..end]), data[end + 1..], total)
  }

  function ParseValue(data: bytes, depth: nat, total: nat): (r: Result<Text>)
    ensures r.Ok? ==> |r.rest| < |data|
    decreases |data|, 1
  {
    if data == [] then Err(UnexpectedEnd)
    else if depth > MAX_DECODE_DEPTH then Err(InvalidFormat)
    else if data[0] == LETTER_I then ParseNumber(data, total)
    else if data[0] == LETTER_L then
      match ParseItems(data[1..], depth, total, 0)
      case Ok(items, rest, n) => Ok(TList(items), rest, n)
      case Err(e) => Err(e)
    else if data[0] == LETTER_D then
      match ParseEntries(data[1..], depth, total, 0, [])
      case Ok(entries, rest, n) => Ok(TDict(entries), rest, n)
      case Err(e) => Err(e)
    else if IsDigit(data[0]) then ParseString(data, total)
    else Err(InvalidFormat)
  }

  /** The rest of a list that already has `size` items. */
  function ParseItems(data: bytes, depth: nat, total: nat, size: nat): (r: Result<seq<Text>>)
    ensures r.Ok? ==> |r.rest| < |data|
    decreases |data|, 2
  {
    if data == [] then Err(UnexpectedEnd)
    else if data[0] == LETTER_E then Ok([], data[1..], total)
    else if size >= MAX_COLLECTION_SIZE || total >= MAX_TOTAL_ITEMS then Err(InvalidFormat)
    else
      match ParseValue(data, depth + 1, total + 1)
      case Err(e) => Err(e)
      case Ok(t, rest, n) =>
        match ParseItems(rest, depth, n, size + 1)
        case Err(e) => Err(e)
        case Ok(items, rest', n') => Ok([t] + items, rest', n')
  }

  /** The rest of a dictionary that already has `size` distinct keys, `prev` the last of them. */
  function ParseEntries(data: bytes, depth: nat, total: nat, size: nat, prev: bytes): (r: Result<seq<Entry>>)
    ensures r.Ok? ==> |r.rest| < |data|
    decreases |data|, 2
  {
    if data == [] then Err(UnexpectedEnd)
    else if data[0] == LETTER_E then Ok([], data[1..], total)
    else if size >= MAX_COLLECTION_SIZE || total >= MAX_TOTAL_ITEMS then Err(InvalidFormat)
    else
      match ParseEntry(data, depth, total, size, prev)
      case Err(e) => Err(e)
      case Ok(e, rest, n) =>
        match ParseEntries(rest, depth, n, NextSize(size, prev, e.key), e.key)
        case Err(err) => Err(err)
        case Ok(entries, rest', n') => Ok([e] + entries, rest', n')
  }

  /** One key and its value. */
  function ParseEntry(data: bytes, depth: nat, total: nat, size: nat, prev: bytes): (r: Result<Entry>)
    ensures r.Ok? ==> |r.rest| < |data|
    decreases |data|, 1
  {
    if data == [] || !IsDigit(data[0]) then Err(InvalidFormat)
    else
      match ParseString(data, total + 1)
      case Err(e) => Err(e)
      case Ok(k, rest, n) =>
        if size > 0 && Less(k.s, prev) then Err(InvalidFormat)
        else
          match ParseValue(rest, depth + 1, n)
          case Err(e) => Err(e)
          case Ok(t, rest', n') => Ok(Entry(k.len, k.s, t), rest', n')
  }

  /** The number of distinct keys after `key`; equal keys are neighbours. */
  function NextSize(size: nat, prev: bytes, key: bytes): nat {
    if size > 0 && key == prev then size else size + 1
  }

  // ------------------------------------------------------------------- meaning

  function NumberOf(num: bytes): int64 {
    match ParseInt(num)
    case Some(n) => n
    case None => 0
  }

  /** The value a text stands for. */
  function Eval(t: Text): Value
    decreases t, 1
  {
    match t
    case TStr(_, s) => Str(s)
    case TInt(num) => Int(NumberOf(num))
    case TList(items) => List(EvalItems(items))
    case TDict(entries) => Dict(EvalEntries(entries))
  }

  function EvalItems(items: seq<Text>): (r: seq<Value>)
    ensures |r| == |items| && forall i :: 0 <= i < |items| ==> r[i] == Eval(items[i])
    decreases items, 0
  {
    seq(|items|, i requires 0 <= i < |items| => Eval(items[i]))
  }

  /** Of several entries with the same key the last one wins. */
  function EvalEntries(entries: seq<Entry>): map<bytes, Value>
    decreases entries, 0
  {
    if entries == [] then map[]
    else
      var last := entries[|entries| - 1];
      EvalEntries(entries[..|entries| - 1])[last.key := Eval(last.val)]
  }

  // -------------------------------------------------------------------- limits

  /** The texts the decoder accepts at a nesting depth, apart from the limit on the total. */
  predicate WellFormed(t: Text, depth: nat)
    decreases t, 1
  {
    && depth <= MAX_DECODE_DEPTH
    && match t
       case TStr(len, s) => StringOk(len, s)
       case TInt(num) => NumberOk(num)
       case TList(items) => |items| <= MAX_COLLECTION_SIZE && ItemsOk(items, depth + 1)
       case TDict(entries) => EntriesOk(entries, depth + 1, 0, [])
  }

  predicate ItemsOk(items: seq<Text>, depth: nat)
    decreases items, 0
  {
    items != [] ==> WellFormed(items[0], depth) && ItemsOk(items[1..], depth)
  }

  /** Keys never decrease, and no entry follows MAX_COLLECTION_SIZE distinct keys. */
  predicate EntriesOk(entries: seq<Entry>, depth: nat, size: nat, prev: bytes)
    decreases entries, 0
  {
    entries != [] ==>
      var e := entries[0];
      && size < MAX_COLLECTION_SIZE
      && StringOk(e.len, e.key)
      && !(size > 0 && Less(e.key, prev))
      && WellFormed(e.val, depth)
      && EntriesOk(entries[1..], depth, NextSize(size, prev, e.key), e.key)
  }

  /** The number of list items and dictionary entries at all levels. */
  function Count(t: Text): nat
    decreases t, 1
  {
    match t
    case TStr(_, _) => 0
    case TInt(_) => 0
    case TList(items) => CountItems(items)
    case TDict(entries) => CountEntries(entries)
  }

  function CountItems(items: seq<Text>): nat
    decreases items, 0
  {
    if items == [] then 0 else 1 + Count(items[0]) + CountItems(items[1..])
  }

  function CountEntries(entries: seq<Entry>): nat
    decreases entries, 0
  {
    if entries == [] then 0 else 1 + Count(entries[0].val) + CountEntries(entries[1..])
  }
}
