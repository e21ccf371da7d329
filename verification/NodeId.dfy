/** 160-bit Kademlia identifiers, their order and their XOR distance. */
module NodeId {
  import opened Arithmetic
  import opened Bytes
  import opened Bitfield

  /** Exclusive or of the lowest bits. */
  function Low(a: nat, b: nat): nat {
    if a % 2 == b % 2 then 0 else 1
  }

  /** Exclusive or of the binary expansions of two numbers. */
  function Xor(a: nat, b: nat): nat
    decreases a + b
  {
    if a == 0 && b == 0 then 0 else 2 * Xor(a / 2, b / 2) + Low(a, b)
  }

  lemma {:induction false} XorCommutes(a: nat, b: nat)
    ensures Xor(a, b) == Xor(b, a)
    decreases a + b
  {
    if a > 0 || b > 0 {
      XorCommutes(a / 2, b / 2);
    }
  }

  lemma {:induction false} XorZero(a: nat, b: nat)
    ensures Xor(a, b) == 0 <==> a == b
    decreases a + b
  {
    if a > 0 || b > 0 {
      XorZero(a / 2, b / 2);
    }
  }

  lemma {:induction false} XorTriangle(a: nat, b: nat, c: nat)
    ensures Xor(a, c) <= Xor(a, b) + Xor(b, c)
    decreases a + b + c
  {
    if a > 0 || b > 0 || c > 0 {
      hide Xor;
      XorTriangle(a / 2, b / 2, c / 2);
      XorHalves(a, b);
      XorHalves(b, c);
      XorHalves(a, c);
    }
  }

  /** A common operand cancels. */
  lemma {:induction false} XorCancels(a: nat, b: nat, c: nat)
    ensures Xor(Xor(a, b), Xor(a, c)) == Xor(b, c)
    decreases a + b + c
  {
    if a > 0 || b > 0 || c > 0 {
      hide Xor;
      XorCancels(a / 2, b / 2, c / 2);
      XorHalves(a, b);
      XorHalves(a, c);
      XorHalves(Xor(a, b), Xor(a, c));
      XorHalves(b, c);
    }
  }

  lemma XorHalves(a: nat, b: nat)
    ensures Xor(a, b) / 2 == Xor(a / 2, b / 2)
    ensures Xor(a, b) % 2 == Low(a, b)
    ensures Xor(a, b) == 2 * Xor(a / 2, b / 2) + Low(a, b)
  {
  }

  lemma {:induction false} XorBound(a: nat, b: nat, k: nat)
    requires a < Pow2(k) && b < Pow2(k)
    ensures Xor(a, b) < Pow2(k)
  {
    if k > 0 {
      XorBound(a / 2, b / 2, k - 1);
    }
  }

  /** Numbers with the same highest bit differ by less than that bit. */
  lemma {:induction false} XorSameTop(a: nat, b: nat, k: nat)
    requires Pow2(k) <= a < Pow2(k + 1) && Pow2(k) <= b < Pow2(k + 1)
    ensures Xor(a, b) < Pow2(k)
  {
    if k > 0 {
      XorSameTop(a / 2, b / 2, k - 1);
    }
  }

  /** High part a followed by the k low bits of x. */
  ghost function Join(a: nat, x: nat, k: nat): nat {
    if k == 0 then a else 2 * Join(a, x / 2, k - 1) + x % 2
  }

  lemma {:induction false} JoinAdds(a: nat, x: nat, k: nat)
    requires x < Pow2(k)
    ensures Join(a, x, k) == a * Pow2(k) + x
  {
    if k > 0 {
      assert Join(a, x, k) == 2 * Join(a, x / 2, k - 1) + x % 2 && Pow2(k) == 2 * Pow2(k - 1);
      hide Join, Pow2;
      JoinAdds(a, x / 2, k - 1);
      Doubled(a, Pow2(k - 1));
    }
  }

  lemma Doubled(a: nat, p: nat)
    ensures a * (2 * p) == 2 * (a * p) == (2 * a) * p
  {
  }

  /** Low bits and high bits are combined separately. */
  lemma {:induction false} XorSplits(a: nat, b: nat, x: nat, y: nat, k: nat)
    ensures Xor(Join(a, x, k), Join(b, y, k)) == Join(Xor(a, b), Xor(x, y), k)
  {
    if k > 0 {
      hide Xor, Join;
      XorSplits(a, b, x / 2, y / 2, k - 1);
      XorHalves(x, y);
      JoinHalves(a, x, k);
      JoinHalves(b, y, k);
      JoinHalves(Xor(a, b), Xor(x, y), k);
      XorFromHalves(Join(a, x, k), Join(b, y, k), Join(Xor(a, b), Xor(x, y), k));
    }
  }

  lemma JoinHalves(a: nat, x: nat, k: nat)
    requires k > 0
    ensures Join(a, x, k) / 2 == Join(a, x / 2, k - 1)
    ensures Join(a, x, k) % 2 == x % 2
  {
  }

  lemma XorFromHalves(u: nat, v: nat, w: nat)
    requires w / 2 == Xor(u / 2, v / 2) && w % 2 == Low(u, v)
    ensures Xor(u, v) == w
  {
  }

  lemma XorOfBytes(a: nat, b: nat, x: byte, y: byte)
    ensures Xor(256 * a + x, 256 * b + y) == 256 * Xor(a, b) + Xor(x, y)
  {
    hide Xor, Join;
    assert Pow2(8) == 256;
    XorSplits(a, b, x, y, 8);
    XorBound(x, y, 8);
    JoinAdds(a, x, 8);
    JoinAdds(b, y, 8);
    JoinAdds(Xor(a, b), Xor(x, y), 8);
  }

  lemma {:induction false} Pow2Grows(j: nat, k: nat)
    requires j <= k
    ensures 0 < Pow2(j) <= Pow2(k)
  {
    if j < k {
      Pow2Grows(j, k - 1);
    } else if k > 0 {
      Pow2Grows(j - 1, k - 1);
    }
  }

  lemma {:induction false} Pow2Adds(j: nat, k: nat)
    ensures Pow2(j + k) == Pow2(j) * Pow2(k)
  {
    if j > 0 {
      assert Pow2(j + k) == 2 * Pow2(j - 1 + k) && Pow2(j) == 2 * Pow2(j - 1);
      hide Pow2;
      Pow2Adds(j - 1, k);
      Doubled(Pow2(j - 1), Pow2(k));
    }
  }

  const BYTES := 20

  type Id = s: bytes | |s| == BYTES witness seq(20, i => 0)

  /** The first n bytes read as a big-endian number. */
  function ValueTo(s: bytes, n: nat): nat
    requires n <= |s|
  {
    if n == 0 then 0 else 256 * ValueTo(s, n - 1) + s[n - 1]
  }

  function Value(id: Id): nat {
    ValueTo(id, BYTES)
  }

  /** Later bytes never outweigh an earlier one. */
  lemma {:induction false} ValueGrows(s: bytes, i: nat, n: nat)
    requires i <= n <= |s|
    ensures ValueTo(s, i) * Pow2(8 * (n - i)) <= ValueTo(s, n)
    ensures ValueTo(s, n) < (ValueTo(s, i) + 1) * Pow2(8 * (n - i))
  {
    if i < n {
      ValueGrows(s, i, n - 1);
      var p := Pow2(8 * (n - 1 - i));
      Pow2Adds(8, 8 * (n - 1 - i));
      assert Pow2(8) == 256;
      assert Pow2(8 * (n - i)) == 256 * p;
      Scale(ValueTo(s, i), p);
      Scale(ValueTo(s, i) + 1, p);
    }
  }

  lemma Scale(v: nat, p: nat)
    ensures v * (256 * p) == 256 * (v * p)
  {
  }

  /** Two ids with the same value are the same id. */
  lemma {:induction false} ValueDetermines(a: bytes, b: bytes, n: nat)
    requires n <= |a| && n <= |b| && ValueTo(a, n) == ValueTo(b, n)
    ensures a[..n] == b[..n]
  {
    if n > 0 {
      ValueDetermines(a, b, n - 1);
      assert a[..n] == a[..n - 1] + [a[n - 1]];
      assert b[..n] == b[..n - 1] + [b[n - 1]];
    }
  }

  /** The first differing byte decides. */
  predicate LessFrom(a: Id, b: Id, i: nat)
    requires i <= BYTES
    decreases BYTES - i
  {
    i < BYTES && if a[i] != b[i] then a[i] < b[i] else LessFrom(a, b, i + 1)
  }

  predicate Less(a: Id, b: Id) {
    LessFrom(a, b, 0)
  }

  lemma {:induction false} LessFromIsOrder(a: Id, b: Id, i: nat)
    requires i <= BYTES && ValueTo(a, i) == ValueTo(b, i)
    ensures LessFrom(a, b, i) <==> Value(a) < Value(b)
    decreases BYTES - i
  {
    if i < BYTES {
      if a[i] == b[i] {
        LessFromIsOrder(a, b, i + 1);
      } else if a[i] < b[i] {
        Apart(a, b, i + 1);
      } else {
        Apart(b, a, i + 1);
      }
    }
  }

  lemma Apart(a: Id, b: Id, i: nat)
    requires i <= BYTES && ValueTo(a, i) < ValueTo(b, i)
    ensures Value(a) < Value(b)
  {
    ValueGrows(a, i, BYTES);
    ValueGrows(b, i, BYTES);
    var p := Pow2(8 * (BYTES - i));
    assert (ValueTo(a, i) + 1) * p <= ValueTo(b, i) * p by {
      MulMono(ValueTo(a, i) + 1, ValueTo(b, i), p);
    }
  }

  /** Less orders ids by their 160-bit big-endian values. */
  lemma LessIsOrder(a: Id, b: Id)
    ensures Less(a, b) <==> Value(a) < Value(b)
  {
    LessFromIsOrder(a, b, 0);
  }

  function XorByte(x: byte, y: byte): byte {
    assert Pow2(8) == 256;
    XorBound(x, y, 8);
    Xor(x, y)
  }

  function Distance(a: Id, b: Id): Id {
    seq(BYTES, i requires 0 <= i < BYTES => XorByte(a[i], b[i]))
  }

  method ComputeDistance(a: Id, b: Id) returns (r: Id)
    ensures Value(r) == Xor(Value(a), Value(b))
    ensures r == Distance(a, b)
  {
    var d := new byte[20](_ => 0);
    var i := 0;
    while i < 20
      invariant 0 <= i <= 20
      invariant forall k :: 0 <= k < i ==> d[k] == XorByte(a[k], b[k])
    {
      d[i] := XorByte(a[i], b[i]);
      i := i + 1;
    }
    r := d[..];
    assert r == Distance(a, b);
    DistanceIsXor(a, b);
  }

  lemma {:induction false} DistanceTo(a: Id, b: Id, n: nat)
    requires n <= BYTES
    ensures ValueTo(Distance(a, b), n) == Xor(ValueTo(a, n), ValueTo(b, n))
  {
    if n > 0 {
      DistanceTo(a, b, n - 1);
      XorOfBytes(ValueTo(a, n - 1), ValueTo(b, n - 1), a[n - 1], b[n - 1]);
    }
  }

  /** The bytewise distance is the exclusive or of the 160-bit values. */
  lemma DistanceIsXor(a: Id, b: Id)
    ensures Value(Distance(a, b)) == Xor(Value(a), Value(b))
  {
    DistanceTo(a, b, BYTES);
  }

  /** XOR distance is a metric. */
  lemma DistanceIsMetric(a: Id, b: Id, c: Id)
    ensures Value(Distance(a, b)) == 0 <==> a == b
    ensures Distance(a, b) == Distance(b, a)
    ensures Value(Distance(a, c)) <= Value(Distance(a, b)) + Value(Distance(b, c))
  {
    DistanceIsXor(a, b);
    DistanceIsXor(b, a);
    DistanceIsXor(b, c);
    DistanceIsXor(a, c);
    XorZero(Value(a), Value(b));
    XorCommutes(Value(a), Value(b));
    XorTriangle(Value(a), Value(b), Value(c));
    SameValue(Distance(a, b), Distance(b, a));
    SameValue(a, b);
  }

  lemma SameValue(a: Id, b: Id)
    ensures Value(a) == Value(b) <==> a == b
  {
    if Value(a) == Value(b) {
      ValueDetermines(a, b, BYTES);
      assert a[..BYTES] == a && b[..BYTES] == b;
    }
  }

  /** No two ids are equally far from a third. */
  lemma DistanceSeparates(a: Id, b: Id, target: Id)
    requires Value(Distance(a, target)) == Value(Distance(b, target))
    ensures a == b
  {
    DistanceIsXor(a, target);
    DistanceIsXor(b, target);
    XorCommutes(Value(a), Value(target));
    XorCommutes(Value(b), Value(target));
    XorCancels(Value(target), Value(a), Value(b));
    var d := Xor(Value(target), Value(a));
    XorZero(d, d);
    XorZero(Value(a), Value(b));
    SameValue(a, b);
  }

  /** Number of bits up to the highest one set. */
  function BitLength(b: nat): nat {
    if b == 0 then 0 else 1 + BitLength(b / 2)
  }

  lemma {:induction false} BitLengthBrackets(b: nat)
    ensures b < Pow2(BitLength(b))
    ensures b > 0 ==> BitLength(b) > 0 && Pow2(BitLength(b) - 1) <= b
  {
    if b > 0 {
      BitLengthBrackets(b / 2);
    }
  }

  lemma {:induction false} BitLengthBound(b: nat, k: nat)
    requires b < Pow2(k)
    ensures BitLength(b) <= k
  {
    if b > 0 {
      BitLengthBound(b / 2, k - 1);
    }
  }

  function LeadingZeros8(b: byte): (r: nat)
    ensures r <= 8
  {
    assert Pow2(8) == 256;
    BitLengthBound(b, 8);
    8 - BitLength(b)
  }

  function ZeroPrefixFrom(id: Id, i: nat): nat
    requires i <= BYTES
    decreases BYTES - i
  {
    if i == BYTES then 160
    else if id[i] != 0 then i * 8 + LeadingZeros8(id[i])
    else ZeroPrefixFrom(id, i + 1)
  }

  function ZeroPrefixLen(id: Id): nat {
    ZeroPrefixFrom(id, 0)
  }

  lemma {:induction false} PrefixFromBrackets(id: Id, i: nat)
    requires i <= BYTES && ValueTo(id, i) == 0
    ensures Bracketed(Value(id), ZeroPrefixFrom(id, i))
    decreases BYTES - i
  {
    if i < BYTES {
      if id[i] == 0 {
        PrefixFromBrackets(id, i + 1);
      } else {
        ByteBrackets(id, i);
      }
    }
  }

  /** z leading zero bits out of 160 place a value between two powers of two. */
  ghost predicate Bracketed(v: nat, z: nat) {
    && z <= 160
    && v < Pow2(160 - z)
    && (z < 160 ==> Pow2(159 - z) <= v)
  }

  lemma ByteBrackets(id: Id, i: nat)
    requires i < BYTES && ValueTo(id, i) == 0 && id[i] != 0
    ensures Bracketed(Value(id), i * 8 + LeadingZeros8(id[i]))
  {
    var n := BitLength(id[i]);
    BitLengthBrackets(id[i]);
    assert ValueTo(id, i + 1) == id[i];
    ValueGrows(id, i + 1, BYTES);
    ShiftedBrackets(id[i], n, 8 * (BYTES - i - 1), Value(id));
  }

  /** Appending low bits moves the highest bit up by as many places. */
  lemma ShiftedBrackets(b: nat, n: nat, low: nat, v: nat)
    requires n > 0 && Pow2(n - 1) <= b < Pow2(n)
    requires b * Pow2(low) <= v < (b + 1) * Pow2(low)
    ensures Pow2(n - 1 + low) <= v < Pow2(n + low)
  {
    hide Pow2;
    Pow2Adds(n, low);
    Pow2Adds(n - 1, low);
    MulMono(b + 1, Pow2(n), Pow2(low));
    MulMono(Pow2(n - 1), b, Pow2(low));
  }

  /** Only one prefix length fits a value. */
  lemma BracketedOnce(v: nat, y: nat, z: nat)
    requires Bracketed(v, y) && Bracketed(v, z)
    ensures y == z
  {
    if y < z {
      Pow2Grows(160 - z, 159 - y);
    } else if z < y {
      Pow2Grows(160 - y, 159 - z);
    }
  }

  /** The prefix length is the position of the highest bit of the value. */
  lemma ZeroPrefixIff(id: Id, z: nat)
    ensures ZeroPrefixLen(id) == z <==> Bracketed(Value(id), z)
  {
    PrefixFromBrackets(id, 0);
    if Bracketed(Value(id), z) {
      BracketedOnce(Value(id), ZeroPrefixLen(id), z);
    }
  }
}
