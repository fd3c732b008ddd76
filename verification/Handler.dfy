/** The handler's own code: the name and the time of a metric, as sendMetrics in main.go makes them. */
module Handler {
  import opened Bytes
  import opened Decimal

  // ---- names ----

  /** strings.Split by a dot. */
  function Split(s: bytes): (parts: seq<bytes>)
    ensures parts != []
  {
    if s == [] then [[]]
    else
      var rest := Split(s[1..]);
      if s[0] == DOT then [[]] + rest else [[s[0]] + rest[0]] + rest[1..]
  }

  lemma JoinLonger(c: byte, parts: seq<bytes>)
    requires parts != []
    ensures JoinBy([[c] + parts[0]] + parts[1..], DOT) == [c] + JoinBy(parts, DOT)
  {
    if |parts| == 1 {
      assert [[c] + parts[0]] + parts[1..] == [[c] + parts[0]];
    } else {
      JoinByCons([c] + parts[0], parts[1..], DOT);
      Associate([c], parts[0], [DOT] + JoinBy(parts[1..], DOT));
    }
  }

  /** Joining undoes splitting; no part has a dot, and there is one part more than there are dots. */
  lemma {:induction false} SplitJoin(s: bytes)
    ensures JoinBy(Split(s), DOT) == s
    ensures forall i :: 0 <= i < |Split(s)| ==> DOT !in Split(s)[i]
    ensures |Split(s)| > 1 <==> DOT in s
  {
    if s != [] {
      var rest := Split(s[1..]);
      SplitJoin(s[1..]);
      assert s == [s[0]] + s[1..];
      if s[0] == DOT {
        JoinByCons([], rest, DOT);
      } else {
        JoinLonger(s[0], rest);
      }
    }
  }

  const VALUE: bytes := [118, 97, 108, 117, 101]

  /** The measurement and the field key: for a dotted name they make the name again. */
  method SplitName(name: bytes) returns (measurement: bytes, key: bytes)
    ensures DOT !in measurement
    ensures DOT in name ==> measurement + ([DOT] + key) == name
    ensures DOT !in name ==> measurement == name && key == VALUE
  {
    SplitJoin(name);
    var nameField := Split(name);
    measurement := nameField[0];
    if |nameField| > 1 {
      key := JoinBy(nameField[1..], DOT);
    } else {
      key := VALUE;
    }
  }

  // ---- timestamps ----

  /** Dropping the last n digits divides by ten n times. */
  lemma PrefixValue(s: bytes, k: nat)
    requires AllDigits(s) && k <= |s|
    ensures AllDigits(s[..k]) && Value(s[..k]) == Value(s) / Pow10(|s| - k)
  {
    hide Value, Pow10;
    var p, q := s[..k], s[k..];
    assert s == p + q;
    ValueAppend(p, q);
    ValueBound(q);
    Quotient(Value(p), Value(q), Pow10(|q|));
  }

  lemma Quotient(p: nat, q: nat, d: nat)
    requires q < d
    ensures (p * d + q) / d == p
  {
    var x := p * d + q;
    assert x == d * (x / d) + x % d;
    if x / d < p {
      Product(x / d + 1, p, d);
    } else if x / d > p {
      Product(p + 1, x / d, d);
    }
  }

  lemma Product(a: nat, b: nat, d: nat)
    requires a <= b
    ensures a * d <= b * d
  {
  }

  const WIDTH: nat := 10

  function Div(n: nat, d: nat): nat
    requires d > 0
  {
    n / d
  }

  /** The number that is left of n when its numeral is cut to the given width. */
  function Cut(n: nat, width: nat): nat {
    var digits := |Numeral(n)|;
    if digits > width then Div(n, Pow10(digits - width)) else n
  }

  lemma {:induction false} Pow10Monotone(a: nat, b: nat)
    requires a <= b
    ensures Pow10(a) <= Pow10(b)
    decreases b - a
  {
    if a < b {
      Pow10Monotone(a, b - 1);
    }
  }

  /** Below ten to the width nothing is cut; above, exactly so many digits are left. */
  lemma CutDigits(n: nat, width: nat)
    requires width > 0
    ensures n < Pow10(width) <==> Cut(n, width) == n && |Numeral(n)| <= width
    ensures n >= Pow10(width) ==> |Numeral(n)| > width && Pow10(width - 1) <= Cut(n, width) < Pow10(width)
  {
    hide Numeral, Pow10;
    NumeralLength(n);
    var digits := |Numeral(n)|;
    if digits <= width {
      Pow10Monotone(digits, width);
    } else {
      ZeroNumeral();
      Pow10Monotone(width, digits - 1);
      CutRange(n, digits - width, width);
    }
  }

  lemma CutRange(n: nat, k: nat, width: nat)
    requires width > 0 && k > 0 && Pow10(k + width - 1) <= n < Pow10(k + width)
    ensures Pow10(width - 1) <= n / Pow10(k) < Pow10(width)
  {
    hide Pow10;
    var d := Pow10(k);
    PowSum(width - 1, k);
    PowSum(width, k);
    var q := n / d;
    assert n == d * q + n % d;
    if q < Pow10(width - 1) {
      Product(q + 1, Pow10(width - 1), d);
    }
    if q >= Pow10(width) {
      Product(Pow10(width), q, d);
    }
  }

  /**
   Formatting, cutting to ten characters and parsing never fails. A time of at most ten characters is
   kept; of a longer one the first ten digits are left, or for a negative time the sign and nine digits.
   */
  method Normalise(timestamp: int64) returns (t: Parsed)
    ensures t == Number(if timestamp < 0 then -(Cut(-(timestamp as int), WIDTH - 1) as int) else Cut(timestamp, WIDTH))
  {
    hide Numeral, Value, Pow10;
    var text := FormatInt(timestamp);
    ghost var n: nat := if timestamp < 0 then -(timestamp as int) else timestamp;
    ghost var d := Numeral(n);
    NumeralValue(n);
    if |text| > WIDTH {
      text := text[..WIDTH];
      if timestamp < 0 {
        PrefixValue(d, WIDTH - 1);
        assert text == [MINUS] + d[..WIDTH - 1];
        assert text[1..] == d[..WIDTH - 1];
      } else {
        PrefixValue(d, WIDTH);
        DigitFirst(text);
      }
    } else if timestamp < 0 {
      assert text[1..] == d;
    } else {
      DigitFirst(text);
    }
    CutSmaller(n);
    t := ParseInt(text);
  }

  lemma DigitFirst(s: bytes)
    requires s != [] && AllDigits(s)
    ensures s[0] != MINUS && s[0] != PLUS
  {
  }

  lemma CutSmaller(n: nat)
    ensures Cut(n, WIDTH) <= n && Cut(n, WIDTH - 1) <= n
  {
    Smaller(n, WIDTH);
    Smaller(n, WIDTH - 1);
  }

  lemma Smaller(n: nat, width: nat)
    ensures Cut(n, width) <= n
  {
    hide Numeral, Pow10;
    var digits := |Numeral(n)|;
    if digits > width {
      var d := Pow10(digits - width);
      assert n == d * (n / d) + n % d;
      Product(1, d, n / d);
    }
  }
}
