/** Decimal numerals as bytes, the way strconv writes and reads them. */
module Decimal {
  import opened Bytes

  const ZERO: byte := 0x30
  const PLUS: byte := 0x2B
  const MINUS: byte := 0x2D
  const MIN_INT64: int := -0x8000_0000_0000_0000
  const MAX_INT64: int := 0x7FFF_FFFF_FFFF_FFFF

  type int64 = x: int | -0x8000_0000_0000_0000 <= x < 0x8000_0000_0000_0000

  predicate IsDigit(b: byte) {
    ZERO <= b <= 0x39
  }

  predicate AllDigits(s: bytes) {
    forall i :: 0 <= i < |s| ==> IsDigit(s[i])
  }

  /** The numeral of n without leading zeros. */
  function Digits(n: nat): (s: bytes)
    ensures s != [] && AllDigits(s)
  {
    if n < 10 then [ZERO + n] else Digits(n / 10) + [ZERO + n % 10]
  }

  /** The number a digit string stands for; leading zeros are allowed. */
  function ToNat(s: bytes): nat
    requires AllDigits(s)
  {
    if s == [] then 0 else 10 * ToNat(s[..|s| - 1]) + (s[|s| - 1] - ZERO)
  }

  function Pow10(k: nat): nat {
    if k == 0 then 1 else 10 * Pow10(k - 1)
  }

  /** The most significant digit comes first: it counts for the power of ten of the digits after it. */
  lemma {:induction false} LeadingDigit(s: bytes)
    requires AllDigits(s) && s != []
    ensures ToNat(s) == (s[0] - 0x30) * Pow10(|s| - 1) + ToNat(s[1..])
  {
    var n := |s| - 1;
    if n == 0 {
      assert s[..0] == [] && s[1..] == [];
    } else {
      var init := s[..n];
      LeadingDigit(init);
      assert s[1..][..n - 1] == init[1..] && s[1..][n - 1] == s[n];
      TimesTen(s[0] - 0x30, Pow10(n - 1));
    }
  }

  lemma TimesTen(d: int, p: int)
    ensures 10 * (d * p) == d * (10 * p)
  {
  }

  /** No leading zero unless the numeral is "0" itself. */
  predicate Unpadded(s: bytes) {
    |s| > 1 ==> s[0] != ZERO
  }

  lemma {:induction false} DigitsUnpadded(n: nat)
    ensures Unpadded(Digits(n))
    ensures Digits(n)[0] == ZERO ==> n == 0
  {
    if n >= 10 {
      DigitsUnpadded(n / 10);
    }
  }

  lemma {:induction false} ToNatOfDigits(n: nat)
    ensures ToNat(Digits(n)) == n
  {
    if n >= 10 {
      ToNatOfDigits(n / 10);
      var s := Digits(n);
      assert s[..|s| - 1] == Digits(n / 10);
    }
  }

  lemma {:induction false} ToNatPositive(s: bytes)
    requires AllDigits(s) && s != [] && s[0] != ZERO
    ensures ToNat(s) > 0
  {
    if |s| > 1 {
      ToNatPositive(s[..|s| - 1]);
    }
  }

  /** A numeral is the one strconv writes exactly when it is not padded. */
  lemma {:induction false} DigitsOfToNat(s: bytes)
    requires AllDigits(s) && s != []
    ensures Digits(ToNat(s)) == s <==> Unpadded(s)
  {
    DigitsUnpadded(ToNat(s));
    if Unpadded(s) {
      UnpaddedIsDigits(s);
    }
  }

  lemma {:induction false} UnpaddedIsDigits(s: bytes)
    requires AllDigits(s) && s != [] && Unpadded(s)
    ensures Digits(ToNat(s)) == s
  {
    if |s| > 1 {
      var init, last := s[..|s| - 1], s[|s| - 1] - ZERO;
      UnpaddedIsDigits(init);
      ToNatPositive(init);
      var n := ToNat(s);
      assert n / 10 == ToNat(init) && n % 10 == last;
      assert s == init + [ZERO + last];
    }
  }

  /** What strconv.AppendInt writes. */
  function IntText(n: int): (s: bytes)
    ensures s != []
  {
    if n < 0 then [MINUS] + Digits(-n) else Digits(n)
  }

  /** What strconv.ParseInt(num, 10, 64) accepts: an optional sign, then at least one digit. */
  function Unsigned(num: bytes): bytes {
    if num != [] && (num[0] == PLUS || num[0] == MINUS) then num[1..] else num
  }

  function ParseInt(num: bytes): Option<int64> {
    var digits := Unsigned(num);
    if digits == [] || !AllDigits(digits) then None
    else
      var n := if num[0] == MINUS then -(ToNat(digits) as int) else ToNat(digits);
      if MIN_INT64 <= n <= MAX_INT64 then Some(n) else None
  }

  lemma ParseIntOfText(n: int64)
    ensures ParseInt(IntText(n)) == Some(n)
  {
    var abs := if n < 0 then -(n as int) else n;
    var digits := Digits(abs);
    ToNatOfDigits(abs);
    assert Unsigned(IntText(n)) == digits by {
      assert IsDigit(digits[0]);
    }
  }
}
