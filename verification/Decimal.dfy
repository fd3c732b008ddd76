/** Decimal numerals: what strconv.FormatInt prints and strconv.ParseInt reads (base 10, 64 bits). */
module Decimal {
  import opened Bytes

  const MIN_INT64: int := -0x8000_0000_0000_0000
  const MAX_INT64: int := 0x7FFF_FFFF_FFFF_FFFF

  /** One more than the greatest unsigned 64-bit integer. */
  const UINT64: int := 0x1_0000_0000_0000_0000

  /** Up to here multiplying by ten and adding a digit stays within 64 bits. */
  const SAFE_TO_MULTIPLY: nat := 0xFFFF_FFFF_FFFF_FFFF / 10 - 1

  type int64 = i: int | MIN_INT64 <= i <= MAX_INT64

  /** The canonical numeral of n: no leading zero, "0" for zero. */
  function Numeral(n: nat): (s: bytes)
    ensures |s| >= 1
  {
    if n < 10 then [ZERO + n] else Numeral(n / 10) + [ZERO + n % 10]
  }

  predicate AllDigits(s: bytes) {
    forall i :: 0 <= i < |s| ==> IsDigit(s[i])
  }

  /** The number a digit string denotes, leading zeros allowed. */
  function Value(s: bytes): nat
    requires AllDigits(s)
  {
    if s == [] then 0 else 10 * Value(s[..|s| - 1]) + (s[|s| - 1] - ZERO)
  }

  function Pow10(k: nat): (p: nat)
    ensures p >= 1
  {
    if k == 0 then 1 else 10 * Pow10(k - 1)
  }

  lemma {:induction false} NumeralValue(n: nat)
    ensures AllDigits(Numeral(n))
    ensures Value(Numeral(n)) == n
    ensures n > 0 ==> Numeral(n)[0] != ZERO
  {
    if n >= 10 {
      NumeralValue(n / 10);
      assert Numeral(n)[..|Numeral(n)| - 1] == Numeral(n / 10);
    }
  }

  lemma ZeroNumeral()
    ensures Numeral(0) == [ZERO]
  {
  }

  /** A numeral of k digits denotes a number in [10^(k-1), 10^k), so its length measures its size. */
  lemma {:induction false} NumeralLength(n: nat)
    ensures n < Pow10(|Numeral(n)|)
    ensures n > 0 ==> Pow10(|Numeral(n)| - 1) <= n
  {
    if n >= 10 {
      NumeralLength(n / 10);
    }
  }

  lemma {:induction false} ValueBound(s: bytes)
    requires AllDigits(s)
    ensures Value(s) < Pow10(|s|)
  {
    if s != [] {
      ValueBound(s[..|s| - 1]);
    }
  }

  lemma {:induction false} ValueAppend(s: bytes, t: bytes)
    requires AllDigits(s) && AllDigits(t)
    ensures AllDigits(s + t)
    ensures Value(s + t) == Value(s) * Pow10(|t|) + Value(t)
  {
    if t == [] {
      assert s + t == s;
    } else {
      var t' := t[..|t| - 1];
      ValueAppend(s, t');
      assert (s + t)[..|s + t| - 1] == s + t';
      assert Value(s + t) == 10 * Value(s + t') + (t[|t| - 1] - ZERO);
      assert Pow10(|t|) == 10 * Pow10(|t'|);
      MulAssoc(Value(s), Pow10(|t'|));
    }
  }

  lemma MulAssoc(x: int, y: int)
    ensures 10 * (x * y) == x * (10 * y)
  {
  }

  lemma {:induction false} PowSum(a: nat, b: nat)
    ensures Pow10(a + b) == Pow10(a) * Pow10(b)
    decreases b
  {
    if b > 0 {
      PowSum(a, b - 1);
      MulAssoc(Pow10(a), Pow10(b - 1));
    }
  }

  /** strconv.FormatInt(i, 10) and strconv.AppendInt. */
  function FormatInt(i: int): (s: bytes)
    ensures |s| >= 1
  {
    if i < 0 then [MINUS] + Numeral(-i) else Numeral(i)
  }

  datatype Parsed = Number(n: int) | SyntaxError | RangeError

  /** strconv.ParseInt(s, 10, 64): an optional sign, then digits only, then the range test. */
  function ParseInt(s: bytes): (r: Parsed)
    ensures r.Number? ==> MIN_INT64 <= r.n <= MAX_INT64
  {
    var negative := s != [] && s[0] == MINUS;
    var digits := if s != [] && (s[0] == MINUS || s[0] == PLUS) then s[1..] else s;
    if digits == [] || !AllDigits(digits) then SyntaxError
    else
      var n: int := if negative then -(Value(digits) as int) else Value(digits);
      if MIN_INT64 <= n <= MAX_INT64 then Number(n) else RangeError
  }

  /** ParseInt undoes FormatInt on every 64-bit integer, the minimum included. */
  lemma FormatParse(i: int64)
    ensures ParseInt(FormatInt(i)) == Number(i)
    ensures AllDigits(if i < 0 then FormatInt(i)[1..] else FormatInt(i))
  {
    hide Numeral, Value, ParseInt;
    if i < 0 {
      NumeralValue(-(i as int));
      ParseSigned(Numeral(-(i as int)));
    } else {
      NumeralValue(i);
      ParseDigits(Numeral(i));
    }
  }

  lemma ParseDigits(d: bytes)
    requires d != [] && AllDigits(d) && Value(d) <= MAX_INT64
    ensures ParseInt(d) == Number(Value(d))
  {
    hide Value;
  }

  lemma ParseSigned(d: bytes)
    requires d != [] && AllDigits(d) && -(Value(d) as int) >= MIN_INT64
    ensures ParseInt([MINUS] + d) == Number(-(Value(d) as int)) && ([MINUS] + d)[1..] == d
  {
    hide Value;
    assert ([MINUS] + d)[1..] == d;
  }
}
