/** Integers: written three digits at a time from a table, read back with an unrolled loop. */
module JsonInt {
  import opened Bytes
  import opened Decimal
  import opened JsonIterator
  import opened JsonStream

  const UINT32: nat := 0x1_0000_0000

  // ---- writing ----

  /** Three digits, with zeros in front. */
  function ThreeDigits(n: nat): bytes
    requires n < 1000
  {
    [ZERO + n / 100, ZERO + n / 10 % 10, ZERO + n % 10]
  }

  lemma Thousands(n: nat)
    ensures n / 10 / 10 == n / 100 && n / 100 / 10 == n / 1000
    ensures n % 1000 / 100 == n / 100 % 10 && n % 1000 / 10 % 10 == n / 10 % 10 && n % 1000 % 10 == n % 10
  {
  }

  lemma NumeralStep(n: nat)
    requires n >= 10
    ensures Numeral(n) == Numeral(n / 10) + [ZERO + n % 10]
  {
  }

  lemma NumeralThousand(n: nat)
    requires n >= 1000
    ensures Numeral(n) == Numeral(n / 1000) + ThreeDigits(n % 1000)
  {
    hide Numeral;
    Thousands(n);
    NumeralStep(n);
    NumeralStep(n / 10);
    NumeralStep(n / 100);
    var q := Numeral(n / 1000);
    assert q + [ZERO + n / 100 % 10] + [ZERO + n / 10 % 10] + [ZERO + n % 10]
        == q + [ZERO + n / 100 % 10, ZERO + n / 10 % 10, ZERO + n % 10];
  }

  /** An entry of the digits table: the three digits in three bytes and the number of leading zeros above them. */
  function Entry(i: nat): nat
    requires i < 1000
  {
    (if i < 10 then 2 else if i < 100 then 1 else 0) * 0x100_0000
    + (i / 100 + 48) * 0x1_0000 + (i / 10 % 10 + 48) * 0x100 + i % 10 + 48
  }

  method InitDigits() returns (digits: array<nat>)
    ensures digits.Length == 1000 && forall i :: 0 <= i < 1000 ==> digits[i] == Entry(i)
  {
    digits := new nat[1000];
    var i := 0;
    while i < 1000
      invariant 0 <= i <= 1000 && forall j :: 0 <= j < i ==> digits[j] == Entry(j)
    {
      digits[i] := (i / 100 + 48) * 0x1_0000 + (i / 10 % 10 + 48) * 0x100 + i % 10 + 48;
      if i < 10 {
        digits[i] := digits[i] + 2 * 0x100_0000;
      } else if i < 100 {
        digits[i] := digits[i] + 0x100_0000;
      }
      i := i + 1;
    }
  }

  function LowByte(v: nat): byte {
    v % 256
  }

  lemma EntryBytes(i: nat)
    requires i < 1000
    ensures var v := Entry(i);
      && v / 0x100_0000 == (if i < 10 then 2 else if i < 100 then 1 else 0)
      && LowByte(v / 0x1_0000) == i / 100 + 48 && LowByte(v / 0x100) == i / 10 % 10 + 48 && LowByte(v) == i % 10 + 48
  {
    var z, a, b, c := if i < 10 then 2 else if i < 100 then 1 else 0, i / 100 + 48, i / 10 % 10 + 48, i % 10 + 48;
    Base256(z, a, b, c);
  }

  lemma Base256(z: nat, a: byte, b: byte, c: byte)
    ensures var v := z * 0x100_0000 + a * 0x1_0000 + b * 0x100 + c;
      v / 0x100_0000 == z && v / 0x1_0000 % 256 == a && v / 0x100 % 256 == b && v % 256 == c
  {
    var v := z * 0x100_0000 + a * 0x1_0000 + b * 0x100 + c;
    assert v / 0x1_0000 == z * 256 + a;
    assert v / 0x100 == (z * 256 + a) * 256 + b;
  }

  /** The first group of digits, without its leading zeros. */
  method WriteFirstBuf(space: bytes, v: nat) returns (out: bytes)
    ensures forall i: nat :: i < 1000 && v == Entry(i) ==> out == space + Numeral(i)
  {
    var start := v / 0x100_0000;
    out := space;
    if start == 0 {
      out := out + [LowByte(v / 0x1_0000), LowByte(v / 0x100)];
    } else if start == 1 {
      out := out + [LowByte(v / 0x100)];
    }
    out := out + [LowByte(v)];
    forall i: nat | i < 1000 && v == Entry(i) ensures out == space + Numeral(i) {
      EntryBytes(i);
      SmallNumeral(i);
    }
  }

  lemma SmallNumeral(i: nat)
    requires i < 1000
    ensures Numeral(i) == if i < 10 then [ZERO + i] else if i < 100 then [ZERO + i / 10, ZERO + i % 10] else ThreeDigits(i)
  {
    if i >= 100 {
      assert Numeral(i / 10) == Numeral(i / 100) + [ZERO + i / 10 % 10];
    }
  }

  method WriteBuf(buf: bytes, v: nat) returns (out: bytes)
    ensures forall i: nat :: i < 1000 && v == Entry(i) ==> out == buf + ThreeDigits(i)
  {
    out := buf + [LowByte(v / 0x1_0000), LowByte(v / 0x100), LowByte(v)];
    forall i: nat | i < 1000 && v == Entry(i) ensures out == buf + ThreeDigits(i) {
      EntryBytes(i);
    }
  }

  /** The digits table: filled once, then only read. */
  ghost predicate IsTable(digits: array<nat>)
    reads digits
  {
    digits.Length == 1000 && forall i :: 0 <= i < 1000 ==> digits[i] == Entry(i)
  }

  method First(stream: Stream, digits: array<nat>, i: nat)
    requires IsTable(digits) && i < 1000
    modifies stream
    ensures stream.buf == old(stream.buf) + Numeral(i)
  {
    stream.buf := WriteFirstBuf(stream.buf, digits[i]);
  }

  /** One more group of three: q has been written, q * 1000 + r follows. */
  method Next(stream: Stream, digits: array<nat>, ghost before: bytes, ghost n: nat, r: nat)
    requires IsTable(digits) && n >= 1000 && r == n % 1000 && stream.buf == before + Numeral(n / 1000)
    modifies stream
    ensures stream.buf == before + Numeral(n)
  {
    hide Numeral;
    NumeralThousand(n);
    Associate(before, Numeral(n / 1000), ThreeDigits(n % 1000));
    stream.buf := WriteBuf(stream.buf, digits[r]);
  }

  /** WriteUint64 writes the canonical numeral of every 64-bit value. */
  method WriteUint64(stream: Stream, digits: array<nat>, val: nat)
    requires IsTable(digits) && val < UINT64
    modifies stream
    ensures stream.buf == old(stream.buf) + Numeral(val)
  {
    hide Numeral;
    ghost var before := stream.buf;
    var q1 := val / 1000;
    if q1 == 0 {
      First(stream, digits, val);
      return;
    }
    var r1 := val - q1 * 1000;
    var q2 := q1 / 1000;
    if q2 == 0 {
      First(stream, digits, q1);
      Next(stream, digits, before, val, r1);
      return;
    }
    var r2 := q1 - q2 * 1000;
    var q3 := q2 / 1000;
    if q3 == 0 {
      First(stream, digits, q2);
      Next(stream, digits, before, q1, r2);
      Next(stream, digits, before, val, r1);
      return;
    }
    var r3 := q2 - q3 * 1000;
    var q4 := q3 / 1000;
    if q4 == 0 {
      First(stream, digits, q3);
      Next(stream, digits, before, q2, r3);
      Next(stream, digits, before, q1, r2);
      Next(stream, digits, before, val, r1);
      return;
    }
    var r4 := q3 - q4 * 1000;
    var q5 := q4 / 1000;
    if q5 == 0 {
      First(stream, digits, q4);
      Next(stream, digits, before, q3, r4);
      Next(stream, digits, before, q2, r3);
      Next(stream, digits, before, q1, r2);
      Next(stream, digits, before, val, r1);
      return;
    }
    var r5 := q4 - q5 * 1000;
    var q6 := q5 / 1000;
    if q6 == 0 {
      First(stream, digits, q5);
    } else {
      First(stream, digits, q6);
      var r6 := q5 - q6 * 1000;
      Next(stream, digits, before, q5, r6);
    }
    Next(stream, digits, before, q4, r5);
    Next(stream, digits, before, q3, r4);
    Next(stream, digits, before, q2, r3);
    Next(stream, digits, before, q1, r2);
    Next(stream, digits, before, val, r1);
  }

  /** WriteUint32: a first group of one digit is written without the table. */
  method WriteUint32(stream: Stream, digits: array<nat>, val: nat)
    requires IsTable(digits) && val < UINT32
    modifies stream
    ensures stream.buf == old(stream.buf) + Numeral(val)
  {
    hide Numeral;
    ghost var before := stream.buf;
    var q1 := val / 1000;
    if q1 == 0 {
      First(stream, digits, val);
      return;
    }
    var r1 := val - q1 * 1000;
    var q2 := q1 / 1000;
    if q2 == 0 {
      First(stream, digits, q1);
      Next(stream, digits, before, val, r1);
      return;
    }
    var r2 := q1 - q2 * 1000;
    var q3 := q2 / 1000;
    if q3 == 0 {
      First(stream, digits, q2);
    } else {
      var r3 := q2 - q3 * 1000;
      SmallNumeral(q3);
      stream.buf := stream.buf + [ZERO + q3];
      Next(stream, digits, before, q2, r3);
    }
    Next(stream, digits, before, q1, r2);
    Next(stream, digits, before, val, r1);
  }

  /** Two's complement negation in 64 bits, read as an unsigned number. */
  function NegatedUint64(n: int64): nat {
    var m := if n == MIN_INT64 then n else -(n as int);
    if m < 0 then m + UINT64 else m
  }

  /** WriteInt64 writes the numeral of every 64-bit integer, the smallest included. */
  method WriteInt64(stream: Stream, digits: array<nat>, nval: int64)
    requires IsTable(digits)
    modifies stream
    ensures stream.buf == old(stream.buf) + FormatInt(nval)
  {
    hide Numeral;
    if nval < 0 {
      stream.buf := stream.buf + [MINUS];
      assert NegatedUint64(nval) == -(nval as int);
      Associate(old(stream.buf), [MINUS], Numeral(-(nval as int)));
      WriteUint64(stream, digits, NegatedUint64(nval));
    } else {
      WriteUint64(stream, digits, nval);
    }
  }

  // ---- reading ----

  datatype Outcome = Ends(value: nat, rest: bytes) | Overflow

  /** One more digit in 64 bits: beyond the safe range a sum that got smaller is taken for an overflow. */
  function Accumulate(value: nat, t: bytes): Outcome
    decreases |t|
  {
    if t == [] || !IsDigit(t[0]) then Ends(value, t)
    else
      var next := (value * 10 + (t[0] - ZERO)) % UINT64;
      if value > SAFE_TO_MULTIPLY && next < value then Overflow else Accumulate(next, t[1..])
  }

  /** A digit string followed by something else. */
  predicate Digits(d: bytes, t: bytes) {
    AllDigits(d) && (t == [] || !IsDigit(t[0]))
  }

  lemma {:induction false} ValueGrows(p: bytes, d: bytes)
    requires AllDigits(p) && AllDigits(d)
    ensures AllDigits(p + d) && Value(p) <= Value(p + d)
    decreases |d|
  {
    if d == [] {
      assert p + d == p;
    } else {
      ValueGrows(p, d[..|d| - 1]);
      assert (p + d)[..|p + d| - 1] == p + d[..|d| - 1];
    }
  }

  lemma ValueSnoc(p: bytes, c: byte)
    requires AllDigits(p) && IsDigit(c)
    ensures AllDigits(p + [c]) && Value(p + [c]) == 10 * Value(p) + (c - ZERO)
  {
    assert (p + [c])[..|p|] == p;
  }

  /** Digits of a number that fits are taken in exactly, and never taken for an overflow. */
  lemma {:induction false} AccumulateExact(p: bytes, d: bytes, t: bytes)
    requires AllDigits(p) && AllDigits(d) && AllDigits(p + d) && Value(p + d) < UINT64
    ensures Value(p) < UINT64 && Accumulate(Value(p), d + t) == Accumulate(Value(p + d), t)
    decreases |d|
  {
    hide Value, Accumulate;
    ValueGrows(p, d);
    if d == [] {
      assert p + d == p && d + t == t;
    } else {
      var p' := p + [d[0]];
      ValueSnoc(p, d[0]);
      assert p + d == p' + d[1..];
      ValueGrows(p', d[1..]);
      assert (d + t)[1..] == d[1..] + t;
      AccumulateStep(Value(p), d + t);
      AccumulateExact(p', d[1..], t);
    }
  }

  lemma AccumulateEnd(v: nat, t: bytes)
    requires t == [] || !IsDigit(t[0])
    ensures Accumulate(v, t) == Ends(v, t)
  {
  }

  lemma AccumulateStep(v: nat, t: bytes)
    requires t != [] && IsDigit(t[0]) && v * 10 + (t[0] - ZERO) < UINT64
    ensures Accumulate(v, t) == Accumulate(v * 10 + (t[0] - ZERO), t[1..])
  {
  }

  lemma WrapDigit(x: nat, a: nat)
    ensures (x % UINT64 * 10 + a) % UINT64 == (x * 10 + a) % UINT64
  {
    var q := x / UINT64;
    assert x * 10 + a == (x % UINT64 * 10 + a) + (10 * q) * UINT64;
    Wraps(x % UINT64 * 10 + a, 10 * q);
  }

  lemma {:induction false} Wraps(y: nat, k: nat)
    ensures (y + k * UINT64) % UINT64 == y % UINT64
    decreases k
  {
    if k > 0 {
      Wraps(y, k - 1);
      assert y + k * UINT64 == (y + (k - 1) * UINT64) + UINT64;
    }
  }

  /** Whatever is read without an overflow is the number modulo 2^64. */
  lemma {:induction false} AccumulateWraps(p: bytes, d: bytes, t: bytes)
    requires AllDigits(p) && Digits(d, t) && AllDigits(p + d)
    ensures var r := Accumulate(Value(p) % UINT64, d + t); r.Overflow? || r == Ends(Value(p + d) % UINT64, t)
    decreases |d|
  {
    hide Value;
    if d == [] {
      assert p + d == p && d + t == t;
    } else {
      var p' := p + [d[0]];
      ValueSnoc(p, d[0]);
      WrapDigit(Value(p), d[0] - ZERO);
      assert p + d == p' + d[1..];
      assert (d + t)[1..] == d[1..] + t;
      AccumulateWraps(p', d[1..], t);
    }
  }

  /** A digit string is read exactly if and only if its number fits in 64 bits. */
  lemma ReadExactly(c: byte, d: bytes, t: bytes)
    requires IsDigit(c) && Digits(d, t)
    ensures AllDigits([c] + d)
    ensures Accumulate(c - ZERO, d + t) == Ends(Value([c] + d), t) <==> Value([c] + d) < UINT64
  {
    hide Value, Accumulate;
    assert [] + [c] == [c];
    NoValue();
    ValueSnoc([], c);
    ValueGrows([c], d);
    AccumulateWraps([c], d, t);
    if Value([c] + d) < UINT64 {
      AccumulateExact([c], d, t);
      AccumulateEnd(Value([c] + d), t);
    }
  }

  lemma NoValue()
    ensures Value([]) == 0
  {
  }

  /** assertInteger: a dot at the head is an error; the test looks at the whole buffer, also beyond its filled part. */
  method AssertInteger(it: Iterator)
    requires it.Valid()
    modifies it`error
    ensures it.error == if it.head < |it.buf| && it.buf[it.head] == DOT then Failure else old(it.error)
  {
    if it.head < |it.buf| && it.buf[it.head] == DOT {
      it.ReportError();
    }
  }

  const INVALID: int := -1

  /** intDigits. */
  function IntDigit(c: byte): (d: int)
    ensures -1 <= d <= 9
  {
    if IsDigit(c) then c - ZERO else INVALID
  }

  lemma DigitAt(it: Iterator, i: nat, v: nat)
    requires it.Valid() && it.head <= i < it.tail
    ensures IntDigit(it.buf[i]) < 0 ==> Accumulate(v, From(it, i)) == Ends(v, From(it, i))
    ensures IntDigit(it.buf[i]) >= 0 && v * 10 + IntDigit(it.buf[i]) < UINT64 ==>
      Accumulate(v, From(it, i)) == Accumulate(v * 10 + IntDigit(it.buf[i]), From(it, i + 1))
  {
    hide Accumulate, From;
    FromNext(it, i);
    if IsDigit(it.buf[i]) {
      if v * 10 + IntDigit(it.buf[i]) < UINT64 {
        AccumulateStep(v, From(it, i));
      }
    } else {
      AccumulateEnd(v, From(it, i));
    }
  }

  /** Up to seven digits without a loop: the same number as one digit at a time. */
  method Unrolled(it: Iterator, value: nat) returns (done: bool, r: nat, i: nat)
    requires it.Valid() && it.tail - it.head > 10 && 1 <= value <= 9
    ensures it.head <= i < it.tail && r < 100_000_000
    ensures !done ==> Accumulate(value, it.Rest()) == Accumulate(r, From(it, i))
    ensures done ==> Accumulate(value, it.Rest()) == Ends(r, From(it, i))
  {
    hide Accumulate, From, IntDigit;
    i := it.head;
    FromNext(it, i);
    DigitAt(it, i, value);
    var ind2 := IntDigit(it.buf[i]);
    if ind2 == INVALID {
      return true, value, i;
    }
    i := i + 1;
    ghost var v := value * 10 + ind2;
    DigitAt(it, i, v);
    var ind3 := IntDigit(it.buf[i]);
    if ind3 == INVALID {
      return true, value * 10 + ind2, i;
    }
    i := i + 1;
    v := v * 10 + ind3;
    DigitAt(it, i, v);
    var ind4 := IntDigit(it.buf[i]);
    if ind4 == INVALID {
      return true, value * 100 + ind2 * 10 + ind3, i;
    }
    i := i + 1;
    v := v * 10 + ind4;
    DigitAt(it, i, v);
    var ind5 := IntDigit(it.buf[i]);
    if ind5 == INVALID {
      return true, value * 1000 + ind2 * 100 + ind3 * 10 + ind4, i;
    }
    i := i + 1;
    v := v * 10 + ind5;
    DigitAt(it, i, v);
    var ind6 := IntDigit(it.buf[i]);
    if ind6 == INVALID {
      return true, value * 10000 + ind2 * 1000 + ind3 * 100 + ind4 * 10 + ind5, i;
    }
    i := i + 1;
    v := v * 10 + ind6;
    DigitAt(it, i, v);
    var ind7 := IntDigit(it.buf[i]);
    if ind7 == INVALID {
      return true, value * 100000 + ind2 * 10000 + ind3 * 1000 + ind4 * 100 + ind5 * 10 + ind6, i;
    }
    i := i + 1;
    v := v * 10 + ind7;
    DigitAt(it, i, v);
    var ind8 := IntDigit(it.buf[i]);
    if ind8 == INVALID {
      return true, value * 1000000 + ind2 * 100000 + ind3 * 10000 + ind4 * 1000 + ind5 * 100 + ind6 * 10 + ind7, i;
    }
    i := i + 1;
    v := v * 10 + ind8;
    DigitAt(it, i, v);
    r := value * 10000000 + ind2 * 1000000 + ind3 * 100000 + ind4 * 10000 + ind5 * 1000 + ind6 * 100 + ind7 * 10 + ind8;
    done := IntDigit(it.buf[i]) == INVALID;
  }

  /** Where the reader stands and what it returns; the end of the input leaves an error. */
  ghost predicate ReadsTo(it: Iterator, o: Outcome, r: nat)
    requires it.Valid()
    reads it
  {
    match o
    case Overflow => it.error.Failure?
    case Ends(v, rest) =>
      && r == v && (rest == [] ==> !it.error.NoError?)
      && (rest != [] ==> it.Rest() == rest && it.error == if rest[0] == DOT then Failure else NoError)
  }

  /** The loop: one digit at a time, with the overflow test, across refills. */
  method DigitLoop(it: Iterator, start: nat) returns (r: nat)
    requires it.Valid() && start < UINT64
    modifies it
    ensures it.Valid() && r < UINT64
    ensures old(it.error).NoError? ==> ReadsTo(it, Accumulate(start, old(it.Rest())), r)
  {
    hide Accumulate, Flat, DropEmpty;
    var value: nat := start;
    while true
      invariant it.Valid() && value < UINT64 && it.error == old(it.error)
      invariant Accumulate(start, old(it.Rest())) == Accumulate(value, it.Rest())
      decreases |it.chunks|
    {
      var kind, i, v := LoopInBuffer(it, value);
      if kind.Full? {
        it.ReportError();
        return 0;
      }
      value := v;
      if kind.Digitless? {
        FromNext(it, i);
        MoveTo(it, i);
        AssertInteger(it);
        return value;
      }
      AtTail(it);
      NothingMore(value);
      var more := it.LoadMore();
      if !more {
        AssertInteger(it);
        return value;
      }
    }
  }

  lemma NothingMore(v: nat)
    ensures Accumulate(v, []) == Ends(v, [])
  {
  }

  datatype Kind = Full | Digitless | Exhausted

  method LoopInBuffer(it: Iterator, start: nat) returns (kind: Kind, i: nat, value: nat)
    requires it.Valid() && start < UINT64
    ensures it.head <= i <= it.tail && value < UINT64 && (kind.Exhausted? ==> i == it.tail)
    ensures kind.Full? ==> Accumulate(start, it.Rest()) == Overflow
    ensures kind.Digitless? ==> i < it.tail && Accumulate(start, it.Rest()) == Ends(value, From(it, i))
    ensures kind.Exhausted? ==> Accumulate(start, it.Rest()) == Accumulate(value, From(it, i))
  {
    hide Accumulate, From, IntDigit;
    value := start;
    i := it.head;
    AtHead(it);
    while i < it.tail
      invariant it.head <= i <= it.tail && value < UINT64
      invariant Accumulate(start, it.Rest()) == Accumulate(value, From(it, i))
    {
      var ind := IntDigit(it.buf[i]);
      LoopStep(it, i, value);
      if ind == INVALID {
        return Digitless, i, value;
      }
      if value > SAFE_TO_MULTIPLY {
        var value2 := (value * 10 + ind) % UINT64;
        if value2 < value {
          return Full, i, value;
        }
        value := value2;
        i := i + 1;
        continue;
      }
      value := value * 10 + ind;
      i := i + 1;
    }
    return Exhausted, i, value;
  }

  lemma LoopStep(it: Iterator, i: nat, v: nat)
    requires it.Valid() && it.head <= i < it.tail && v < UINT64
    ensures var ind, u := IntDigit(it.buf[i]), From(it, i);
      if ind < 0 then Accumulate(v, u) == Ends(v, u)
      else
        var next := (v * 10 + ind) % UINT64;
        && (v <= SAFE_TO_MULTIPLY ==> next == v * 10 + ind)
        && Accumulate(v, u) == if v > SAFE_TO_MULTIPLY && next < v then Overflow else Accumulate(next, From(it, i + 1))
  {
    hide From;
    FromNext(it, i);
  }

  /**
   readUint64 when the first digit c has been read. After a zero only the byte at the head is looked at,
   which is the next byte of the input if the buffer holds one.
   */
  method ReadUint64From(it: Iterator, c: byte) returns (r: nat)
    requires it.Valid()
    modifies it
    ensures it.Valid() && r < UINT64
    ensures old(it.error).NoError? && !IsDigit(c) ==> it.error.Failure?
    ensures old(it.error).NoError? && c == ZERO ==>
      r == 0 && it.Rest() == old(it.Rest())
      && it.error == if old(it.head < |it.buf| && it.buf[it.head] == DOT) then Failure else NoError
    ensures old(it.error).NoError? && IsDigit(c) && c != ZERO ==>
      ReadsTo(it, Accumulate(c - ZERO, old(it.Rest())), r)
  {
    hide Accumulate, From, Flat;
    var ind := IntDigit(c);
    if ind == 0 {
      AssertInteger(it);
      return 0;
    }
    if ind == INVALID {
      it.ReportError();
      return 0;
    }
    var value: nat := ind;
    if it.tail - it.head > 10 {
      var done, v, i := Unrolled(it, value);
      value := v;
      FromNext(it, i);
      MoveTo(it, i);
      if done {
        AssertInteger(it);
        return value;
      }
    }
    r := DigitLoop(it, value);
  }

  /** The numeral of a 64-bit number, digit by digit. */
  lemma NumeralRead(m: nat, rest: bytes)
    requires m < UINT64 && rest != [] && !IsDigit(rest[0])
    ensures var s := Numeral(m);
      && IsDigit(s[0]) && (s + rest)[0] == s[0] && (s + rest)[1..] == s[1..] + rest
      && (s[0] == ZERO ==> m == 0 && s[1..] + rest == rest)
      && (s[0] != ZERO ==> Accumulate(s[0] - ZERO, s[1..] + rest) == Ends(m, rest))
  {
    hide Accumulate, Value, Numeral;
    var s := Numeral(m);
    NumeralValue(m);
    if m == 0 {
      ZeroNumeral();
      assert s[1..] == [] && [] + rest == rest;
    } else {
      assert [s[0]] + s[1..] == s;
      TailDigits(s);
      ReadExactly(s[0], s[1..], rest);
    }
  }

  lemma TailDigits(s: bytes)
    requires s != [] && AllDigits(s)
    ensures AllDigits(s[1..])
  {
  }

  lemma SignedText(n: int64, rest: bytes)
    requires rest != []
    ensures var t := FormatInt(n) + rest;
      && t != [] && Trim(t) == t
      && (if n < 0 then t[0] == MINUS && t[1..] == Numeral(-(n as int)) + rest else t == Numeral(n) + rest && t[0] != MINUS)
  {
    hide Numeral;
    if n < 0 {
      assert ([MINUS] + Numeral(-(n as int)) + rest)[1..] == Numeral(-(n as int)) + rest;
    } else {
      NumeralValue(n);
    }
  }

  /**
   ReadInt64 reads back the numeral n, and stops at the byte after it, for every cutting into reads but one:
   the byte after a zero must be in the buffer.
   */
  method ReadInt64(it: Iterator, ghost n: int64, ghost rest: bytes) returns (r: int)
    requires it.Valid()
    modifies it
    ensures it.Valid() && MIN_INT64 <= r <= MAX_INT64
    ensures old(it.error.NoError? && it.Rest() == FormatInt(n) + rest)
            && rest != [] && !IsDigit(rest[0]) && rest[0] != DOT
            && (n != 0 || AfterToken(old(it.Window()), old(it.chunks)) != []) ==>
      r == n && it.error.NoError? && it.Rest() == rest
  {
    hide FormatInt, Trim, Numeral, AfterToken, Flat;
    if rest != [] && !IsDigit(rest[0]) {
      SignedText(n, rest);
    }
    ghost var m: nat := if n < 0 then -(n as int) else n;
    ghost var t := Trim(it.Rest());
    var c := it.NextToken();
    if t != [] {
      assert t == [c] + t[1..];
    }
    if c == MINUS {
      ghost var u := it.Rest();
      c := it.ReadByte();
      if u != [] {
        assert u == [c] + u[1..];
      }
      var val := ReadNumeral(it, c, m, rest);
      if val > 0x8000_0000_0000_0000 {
        it.ReportError();
        return 0;
      }
      r := -(val as int);
    } else {
      var val := ReadNumeral(it, c, m, rest);
      if val > 0x7FFF_FFFF_FFFF_FFFF {
        it.ReportError();
        return 0;
      }
      r := val;
    }
  }

  /** The numeral of m, whose first digit c has been read. */
  method ReadNumeral(it: Iterator, c: byte, ghost m: nat, ghost rest: bytes) returns (r: nat)
    requires it.Valid()
    modifies it
    ensures it.Valid() && r < UINT64
    ensures old(it.error.NoError? && [c] + it.Rest() == Numeral(m) + rest && (m != 0 || it.head < it.tail))
            && m < UINT64 && rest != [] && !IsDigit(rest[0]) && rest[0] != DOT ==>
      r == m && it.error.NoError? && it.Rest() == rest
  {
    hide Accumulate, Numeral, Flat;
    if m < UINT64 && rest != [] && !IsDigit(rest[0]) {
      NumeralRead(m, rest);
    }
    assert ([c] + it.Rest())[1..] == it.Rest();
    if it.head < it.tail {
      FromNext(it, it.head);
    }
    r := ReadUint64From(it, c);
  }

  // ---- where it goes wrong ----

  function Zeros(k: nat): (z: bytes)
    ensures |z| == k && AllDigits(z) && Value(z) == 0
  {
    if k == 0 then []
    else
      var z := Zeros(k - 1) + [ZERO];
      assert z[..|z| - 1] == Zeros(k - 1);
      z
  }

  /** The overflow test misses some overflows: a three with nineteen zeros is read as another number, without an error. */
  method MissedOverflow() returns (it: Iterator, r: nat)
    ensures it.Valid() && it.error.NoError? && it.Rest() == [COMMA]
    ensures Value([51] + Zeros(19)) == 30_000_000_000_000_000_000 && r == 11_553_255_926_290_448_384
  {
    hide Accumulate, Value, Zeros, Trim, AfterToken;
    var text := [51] + (Zeros(19) + [COMMA]);
    ThirtyQuintillion();
    StartsThere(text);
    it := new Iterator.ParseBytes(text);
    var c := it.NextToken();
    assert text[1..] == Zeros(19) + [COMMA];
    r := ReadUint64From(it, c);
  }

  lemma StartsThere(t: bytes)
    requires t != [] && t[0] == 51
    ensures Trim(t) == t
  {
  }

  lemma ThirtyQuintillion()
    ensures AllDigits([51] + Zeros(19)) && Value([51] + Zeros(19)) == 30_000_000_000_000_000_000
    ensures Accumulate(3, Zeros(19) + [COMMA]) == Ends(11_553_255_926_290_448_384, [COMMA])
  {
    hide Accumulate, Value, Zeros, Pow10;
    Powers();
    assert Value([51]) == 3 by { OneDigit(); }
    ValueAppend([51], Zeros(18));
    ValueAppend([51], Zeros(19));
    AccumulateExact([51], Zeros(18), [ZERO, COMMA]);
    OneMoreZero();
    assert Zeros(19) + [COMMA] == Zeros(18) + [ZERO, COMMA] by { SplitZeros(); }
  }

  lemma SplitZeros()
    ensures Zeros(19) == Zeros(18) + [ZERO]
  {
  }

  lemma OneDigit()
    ensures AllDigits([51]) && Value([51]) == 3
  {
    assert [51][..0] == [];
    assert Value([51]) == 10 * Value([]) + 3;
  }

  lemma Powers()
    ensures Pow10(18) == 1_000_000_000_000_000_000 && Pow10(19) == 10 * Pow10(18)
  {
    assert Pow10(3) == 1000 by { assert Pow10(1) == 10; assert Pow10(2) == 100; }
    PowSum(3, 3);
    PowSum(6, 3);
    PowSum(9, 9);
  }

  lemma OneMoreZero()
    ensures Accumulate(3_000_000_000_000_000_000, [ZERO, COMMA]) == Ends(11_553_255_926_290_448_384, [COMMA])
  {
    assert [ZERO, COMMA][1..] == [COMMA];
  }

  /** A fraction is refused, unless its dot is not in the buffer yet: then its zero is read without an error. */
  method FractionAfterZero() returns (whole: Iterator, cut: Iterator, r: nat)
    ensures whole.Valid() && whole.error.Failure?
    ensures cut.Valid() && cut.error.NoError? && r == 0 && cut.Rest() == [DOT, 53]
  {
    hide Accumulate;
    whole := new Iterator.ParseBytes([DOT, 53]);
    var _ := ReadUint64From(whole, ZERO);
    assert Flat([[DOT, 53]]) == [DOT, 53] by { assert [[DOT, 53]][1..] == []; }
    cut := new Iterator.Parse([[DOT, 53]], 2, EndOfInput);
    r := ReadUint64From(cut, ZERO);
  }
}
