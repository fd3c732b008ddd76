/** Timestamps: a count in some precision becomes nanoseconds, with the overflow test of the source. */
module Times {
  import opened Decimal

  const MIN_NANO_TIME: int := MIN_INT64 + 2
  const MAX_NANO_TIME: int := MAX_INT64 - 1

  datatype Time = Zero | Nanos(ns: int)

  datatype Timed = Valid(time: Time) | OutOfRange

  /** Two's complement wrap-around of a 64-bit product. */
  function Wrap64(n: int): (r: int64)
    ensures MIN_INT64 <= n <= MAX_INT64 ==> r == n
    ensures (n - r) % UINT64 == 0
  {
    var m := n % UINT64;
    if m > MAX_INT64 then m - UINT64 else m
  }

  /** Go's division truncates toward zero. */
  function Quotient(a: int, b: int): int
    requires b > 0
  {
    if a >= 0 then a / b else -((-a) / b)
  }

  function PrecisionMultiplier(precision: string): (m: int64)
    ensures 1 <= m < MAX_NANO_TIME
  {
    if precision == "u" then 1_000
    else if precision == "ms" then 1_000_000
    else if precision == "s" then 1_000_000_000
    else if precision == "m" then 60_000_000_000
    else if precision == "h" then 3_600_000_000_000
    else 1
  }

  function SafeSignedMult(a: int64, b: int64): (r: (int64, bool))
    requires b > 0
  {
    if a == 0 || b == 0 || a == 1 || b == 1 then (Wrap64(a * b), true)
    else if a == MIN_NANO_TIME || b == MAX_NANO_TIME then (0, false)
    else
      var c := Wrap64(a * b);
      (c, Quotient(c, b) == a)
  }

  predicate InRange(ns: int) {
    MIN_NANO_TIME <= ns <= MAX_NANO_TIME
  }

  function SafeCalcTime(timestamp: int64, precision: string): (r: Timed)
  {
    var (t, ok) := SafeSignedMult(timestamp, PrecisionMultiplier(precision));
    if ok && InRange(t) then Valid(Nanos(t)) else OutOfRange
  }

  lemma QuotientRemainder(c: int, b: int)
    requires b > 0
    ensures -b < c - Quotient(c, b) * b < b
  {
    if c >= 0 {
      assert c == c / b * b + c % b;
    } else {
      assert -c == (-c) / b * b + (-c) % b;
      Negate((-c) / b, b);
    }
  }

  lemma Negate(q: int, b: int)
    ensures (-q) * b == -(q * b)
  {
  }

  lemma MultiplesApart(d: int)
    requires d % UINT64 == 0 && -UINT64 < d < UINT64
    ensures d == 0
  {
  }

  lemma ExactQuotient(a: int, b: int)
    requires b > 0
    ensures Quotient(a * b, b) == a
  {
    QuotientRemainder(a * b, b);
    var q := Quotient(a * b, b);
    assert a * b - q * b == (a - q) * b && q * b - a * b == (q - a) * b;
    if q < a {
      Grows(a - q, b);
    } else if q > a {
      Grows(q - a, b);
    }
  }

  lemma Grows(n: int, b: int)
    requires n >= 1 && b > 0
    ensures n * b >= b
  {
  }

  /** Dividing the wrapped product gives the factor back exactly when nothing was lost. */
  lemma DivisionDetectsOverflow(a: int64, b: int64)
    requires b > 0
    ensures Quotient(Wrap64(a * b), b) == a <==> MIN_INT64 <= a * b <= MAX_INT64
  {
    var p := a * b;
    var c := Wrap64(p);
    if Quotient(c, b) == a {
      QuotientRemainder(c, b);
      MultiplesApart(p - c);
    }
    if MIN_INT64 <= p <= MAX_INT64 {
      ExactQuotient(a, b);
    }
  }

  lemma TooSmall(a: int, b: int)
    requires a == MIN_NANO_TIME && b >= 2
    ensures a * b < MIN_INT64
  {
    assert a * b <= a * 2;
  }

  /**
   For every 64-bit count and every precision: success if and only if the true product lies in the
   supported range, and then the result is that product.
   */
  lemma SafeCalcTimeExact(timestamp: int64, precision: string)
    ensures var product := timestamp * PrecisionMultiplier(precision);
      SafeCalcTime(timestamp, precision) == if InRange(product) then Valid(Nanos(product)) else OutOfRange
  {
    var b := PrecisionMultiplier(precision);
    DivisionDetectsOverflow(timestamp, b);
    if timestamp == MIN_NANO_TIME && b > 1 {
      TooSmall(timestamp, b);
    }
    assert timestamp == 1 || timestamp == 0 || b == 1 ==> MIN_INT64 <= timestamp * b <= MAX_INT64;
  }
}
