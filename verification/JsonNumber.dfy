/** How far the readers of numbers move the cursor: iter_float.go, and the skippers of numbers. */
module JsonNumber {
  import opened Bytes
  import opened Decimal
  import opened JsonIterator
  import opened JsonGrammar


  lemma {:induction false} AfterNumberDigits(t: bytes)
    ensures AfterNumber(SkipDigits(t)) == AfterNumber(t)
  {
    if t != [] && IsDigit(t[0]) {
      AfterNumberDigits(t[1..]);
    }
  }

  lemma {:induction false} AfterNumberTwice(t: bytes)
    ensures AfterNumber(AfterNumber(t)) == AfterNumber(t)
  {
    if t != [] && NumberByte(t[0]) {
      AfterNumberTwice(t[1..]);
    }
  }

  /** The end of a number from inside it on: dotted says whether its dot has been passed. */
  function NumberTail(t: bytes, dotted: bool): Match {
    if dotted then Match(SkipDigits(t)) else FractionRest(SkipDigits(t))
  }

  lemma TailOfUnsigned(t: bytes)
    requires UnsignedRest(t).Match?
    ensures IntegerRest(t).rest == SkipDigits(t)
    ensures NumberTail(t, false) == UnsignedRest(t) == NumberTail(t[1..], false)
    ensures AfterNumber(t) == UnsignedRest(t).rest
  {
    hide AfterNumber;
    DigitFirst(t);
    if t[0] == ZERO {
      NoDigit(t[1..]);
    }
    var i := SkipDigits(t);
    AfterNumberDigits(t);
    if i[0] == DOT {
      DigitFirst(i);
      AfterNumberDigits(i[1..]);
    }
    NotNumber(UnsignedRest(t).rest);
  }

  lemma DigitFirst(t: bytes)
    requires t != []
    ensures IsDigit(t[0]) ==> SkipDigits(t) == SkipDigits(t[1..])
    ensures NumberByte(t[0]) ==> AfterNumber(t) == AfterNumber(t[1..])
  {
  }

  lemma NoDigit(t: bytes)
    requires t == [] || !IsDigit(t[0])
    ensures SkipDigits(t) == t
  {
  }

  lemma NotNumber(t: bytes)
    requires t == [] || !NumberByte(t[0])
    ensures AfterNumber(t) == t
  {
  }

  /** One step of a scan inside a number that ends before m. */
  lemma TailStep(t: bytes, dotted: bool, m: bytes)
    requires t != [] && NumberTail(t, dotted) == Match(m) && m != [] && EndsNumber(m[0])
    ensures IsDigit(t[0]) ==> NumberTail(t[1..], dotted) == Match(m)
    ensures t[0] == DOT ==> !dotted && |t| >= 2 && IsDigit(t[1]) && NumberTail(t[1..], true) == Match(m)
    ensures !IsDigit(t[0]) && t[0] != DOT ==> t == m
  {
    DigitFirst(t);
    if !IsDigit(t[0]) {
      NoDigit(t);
    }
  }

  // ---- the slow path ----

  method ReadNumberAsString(it: Iterator) returns (str: bytes)
    requires it.Valid()
    modifies it
    ensures it.Valid() && |it.Rest()| <= |old(it.Rest())|
    ensures !old(it.error).NoError? ==> !it.error.NoError?
    ensures old(it.error).NoError? && AfterNumber(old(it.Rest())) != [] ==>
      && it.Rest() == AfterNumber(old(it.Rest())) && old(it.Rest()) == str + it.Rest()
      && it.error == if str != [] then NoError else Failure
    ensures AfterNumber(it.Rest()) == AfterNumber(old(it.Rest()))
    ensures AfterNumber(old(it.Rest())) == [] ==> !it.error.NoError?
    ensures old(it.error).Failure? ==> it.error.Failure?
  {
    hide AfterNumber, Flat;
    ghost var t := it.Rest();
    str := [];
    assert [] + t == t;
    while true
      invariant it.Valid() && it.error == old(it.error) && |it.Rest()| <= |t|
      invariant t == str + it.Rest() && AfterNumber(t) == AfterNumber(it.Rest())
      decreases |it.chunks|
    {
      var i := NumberInBuffer(it);
      Moved(it, str, i);
      str := str + it.buf[it.head..i];
      if i < it.tail {
        NotNumber(it.buf[i..it.tail] + Flat(it.chunks));
        it.head := i;
        break;
      }
      assert it.buf[i..it.tail] + Flat(it.chunks) == Flat(it.chunks);
      ghost var head := it.head;
      var more := it.LoadMore();
      if !more {
        NotNumber([]);
        OnlyNumber(it, head);
        break;
      }
    }
    if it.error.Failure? {
      return;
    }
    if |str| == 0 {
      it.ReportError();
    }
  }

  /** At the end of the input only number bytes can be left. */
  lemma OnlyNumber(it: Iterator, head: nat)
    requires it.Valid() && head <= it.head && Flat(it.chunks) == []
    requires forall j :: head <= j < it.tail ==> NumberByte(it.buf[j])
    ensures AfterNumber(it.Rest()) == []
  {
    hide AfterNumber;
    AllNumber(it.Rest());
  }

  lemma {:induction false} AllNumber(t: bytes)
    requires forall j :: 0 <= j < |t| ==> NumberByte(t[j])
    ensures AfterNumber(t) == []
  {
    if t != [] {
      AllNumber(t[1..]);
    }
  }

  /** The end of the number bytes in the buffer. */
  method NumberInBuffer(it: Iterator) returns (i: nat)
    requires it.Valid()
    ensures it.head <= i <= it.tail && (i < it.tail ==> !NumberByte(it.buf[i]))
    ensures AfterNumber(it.Rest()) == AfterNumber(it.buf[i..it.tail] + Flat(it.chunks))
    ensures forall j :: it.head <= j < i ==> NumberByte(it.buf[j])
  {
    hide AfterNumber;
    i := it.head;
    while i < it.tail && NumberByte(it.buf[i])
      invariant it.head <= i <= it.tail && forall j :: it.head <= j < i ==> NumberByte(it.buf[j])
      invariant AfterNumber(it.Rest()) == AfterNumber(it.buf[i..it.tail] + Flat(it.chunks))
    {
      Next(it, i);
      i := i + 1;
    }
  }

  lemma Next(it: Iterator, i: nat)
    requires it.Valid() && it.head <= i < it.tail
    ensures var u := it.buf[i..it.tail] + Flat(it.chunks);
      u == [it.buf[i]] + (it.buf[i + 1..it.tail] + Flat(it.chunks)) && u != [] && u[0] == it.buf[i]
      && u[1..] == it.buf[i + 1..it.tail] + Flat(it.chunks)
    ensures NumberByte(it.buf[i]) ==> AfterNumber(it.buf[i..it.tail] + Flat(it.chunks)) ==
                                      AfterNumber(it.buf[i + 1..it.tail] + Flat(it.chunks))
  {
    assert it.buf[i..it.tail] == [it.buf[i]] + it.buf[i + 1..it.tail];
  }

  /** Digits and at most one dot between digits: the texts for which ParseFloat can only fail by their size. */
  predicate Plain(str: bytes) {
    IntegerRest(str).Match? && FractionRest(IntegerRest(str).rest) == Match([])
  }

  /** strconv.ParseFloat fails; what it makes of other texts is left to odd. */
  predicate ParseFails(str: bytes, limit: int, odd: bytes -> bool) {
    if Plain(str) then TooBig(str, limit) else odd(str)
  }

  function FirstDot(str: bytes): (i: nat)
    ensures i <= |str| && (i < |str| ==> str[i] == DOT)
    ensures forall j :: 0 <= j < i ==> str[j] != DOT
  {
    if str == [] || str[0] == DOT then 0 else 1 + FirstDot(str[1..])
  }

  /** validateFloat. */
  predicate ValidFloat(str: bytes) {
    && str != [] && str[0] != MINUS
    && var dot := FirstDot(str);
       dot < |str| ==> dot + 1 < |str| && IsDigit(str[dot + 1])
  }

  method ReadFloatSlowPath(it: Iterator, limit: int, odd: bytes -> bool)
    requires it.Valid()
    modifies it
    ensures it.Valid() && |it.Rest()| <= |old(it.Rest())|
    ensures !old(it.error).NoError? ==> !it.error.NoError?
    ensures old(it.error).NoError? && UnsignedRest(old(it.Rest())).Match? ==>
      && it.Rest() == UnsignedRest(old(it.Rest())).rest
      && it.error == if TooBig(old(it.Rest()), limit) then Failure else NoError
    ensures AfterNumber(it.Rest()) == AfterNumber(old(it.Rest()))
    ensures it.error.NoError? ==> it.Rest() == AfterNumber(old(it.Rest())) != []
    ensures old(it.error).NoError? && it.error.EndOfInput? ==> AfterNumber(old(it.Rest())) == []
    ensures old(it.error).Failure? ==> it.error.Failure?
  {
    hide UnsignedRest, AfterNumber, TooBig, Plain;
    ghost var t := it.Rest();
    if UnsignedRest(t).Match? {
      TailOfUnsigned(t);
      UnsignedNotEmpty(t);
    }
    var str := ReadNumberAsString(it);
    if it.error.Failure? {
      return;
    }
    if it.error.NoError? && UnsignedRest(t).Match? {
      NumberText(str, it.Rest(), limit);
    }
    if !ValidFloat(str) {
      it.ReportError();
      return;
    }
    if ParseFails(str, limit, odd) {
      it.error := Failure;
    }
  }

  lemma UnsignedNotEmpty(t: bytes)
    requires UnsignedRest(t).Match?
    ensures UnsignedRest(t).rest != [] && |UnsignedRest(t).rest| < |t|
  {
  }

  lemma {:induction false} SkipDigitsAppend(a: bytes, b: bytes)
    requires b != [] && !IsDigit(b[0])
    ensures SkipDigits(a + b) == SkipDigits(a) + b
  {
    if a == [] {
      assert a + b == b;
    } else if IsDigit(a[0]) {
      assert (a + b)[1..] == a[1..] + b;
      SkipDigitsAppend(a[1..], b);
    }
  }

  /** The text of a number, cut off from what follows it, is a plain number of the same size. */
  lemma NumberText(str: bytes, m: bytes, limit: int)
    requires str != [] && UnsignedRest(str + m) == Match(m)
    ensures Plain(str) && ValidFloat(str) && (TooBig(str, limit) <==> TooBig(str + m, limit))
  {
    hide SkipDigits, TooBig, ValidFloat;
    var t := str + m;
    assert t[0] == str[0] && t[1..] == str[1..] + m;
    SkipDigitsAppend(str[1..], m);
    var i := IntegerRest(str).rest;
    assert IntegerRest(t).rest == i + m;
    if i == [] {
      assert i + m == m;
    } else {
      assert (i + m)[0] == i[0];
      if i[0] == DOT {
        DotThenDigits(i, m);
      }
    }
    SameInteger(str, m, limit);
    DotOfPlain(str);
  }

  lemma SameInteger(str: bytes, m: bytes, limit: int)
    requires IntegerRest(str).Match? && IntegerRest(str + m) == Match(IntegerRest(str).rest + m)
    ensures TooBig(str, limit) <==> TooBig(str + m, limit)
  {
    hide IntegerRest;
    assert IntegerPart(str + m) == IntegerPart(str);
  }

  lemma DotThenDigits(i: bytes, m: bytes)
    requires i != [] && i[0] == DOT && m != [] && EndsNumber(m[0]) && FractionRest(i + m) == Match(m)
    ensures FractionRest(i) == Match([])
  {
    hide SkipDigits;
    if |i| >= 2 {
      assert (i + m)[1..] == i[1..] + m;
      SkipDigitsAppend(i[1..], m);
      assert |SkipDigits(i[1..])| == 0;
    }
  }

  lemma DotOfPlain(str: bytes)
    requires Plain(str)
    ensures ValidFloat(str)
  {
    hide SkipDigits;
    var i := IntegerRest(str).rest;
    var n := |str| - |i|;
    IntegerPartDigits(str);
    assert forall j :: 0 <= j < n ==> str[j] == IntegerPart(str)[j];
    IntegerSuffix(str);
    if i != [] {
      assert str[n] == i[0] == DOT && str[n + 1] == i[1];
    }
  }

  lemma IntegerSuffix(str: bytes)
    requires IntegerRest(str).Match?
    ensures str[|str| - |IntegerRest(str).rest|..] == IntegerRest(str).rest
  {
    if str[0] != ZERO {
      SkippedDigits(str[1..]);
      var n := |str| - |SkipDigits(str[1..])|;
      assert str[n..] == str[1..][n - 1..];
    }
  }

  // ---- the fast path ----

  const POW10_TABLE: nat := 7

  /** Bytes that the float readers take for the end of a number; a carriage return is not among them. */
  predicate EndsFloat(c: byte) {
    c == COMMA || c == RBRACKET || c == RBRACE || c == SPACE || c == TAB || c == NEWLINE
  }

  datatype FastFloat = Stop(end: nat) | Slow | Malformed

  /** The digits after the first one, up to a dot or the end of the number. */
  method WholePart(it: Iterator, start: nat, first: nat) returns (r: FastFloat, value: nat)
    requires it.Valid() && it.head < start <= it.tail
    ensures !r.Malformed? && (r.Stop? ==> start <= r.end < it.tail && (it.buf[r.end] == DOT || EndsFloat(it.buf[r.end])))
    ensures r.Stop? ==> SkipDigits(From(it, start)) == From(it, r.end)
  {
    hide SkipDigits, From;
    value := first;
    var i := start;
    while i < it.tail
      invariant start <= i <= it.tail && SkipDigits(From(it, start)) == SkipDigits(From(it, i))
    {
      var c := it.buf[i];
      FromNext(it, i);
      if EndsFloat(c) || c == DOT {
        NoDigit(From(it, i));
        return Stop(i), value;
      }
      if !IsDigit(c) || value > SAFE_TO_MULTIPLY {
        return Slow, value;
      }
      DigitFirst(From(it, i));
      value := value * 10 + (c - ZERO);
      i := i + 1;
    }
    return Slow, value;
  }

  /** The digits after the dot, up to the end of the number. */
  method Decimals(it: Iterator, start: nat, whole: nat) returns (r: FastFloat)
    requires it.Valid() && it.head < start <= it.tail
    ensures !r.Malformed? && (r.Stop? ==> start <= r.end < it.tail && EndsFloat(it.buf[r.end]))
    ensures r.Stop? ==> SkipDigits(From(it, start)) == From(it, r.end)
  {
    hide SkipDigits, From;
    var value := whole;
    var places := 0;
    var i := start;
    while i < it.tail
      invariant start <= i <= it.tail && SkipDigits(From(it, start)) == SkipDigits(From(it, i))
    {
      var c := it.buf[i];
      FromNext(it, i);
      if EndsFloat(c) {
        NoDigit(From(it, i));
        return if 0 < places < POW10_TABLE then Stop(i) else Slow;
      }
      if !IsDigit(c) {
        return Slow;
      }
      places := places + 1;
      if value > SAFE_TO_MULTIPLY {
        return Slow;
      }
      DigitFirst(From(it, i));
      value := value * 10 + (c - ZERO);
      i := i + 1;
    }
    return Slow;
  }

  method FastFloatScan(it: Iterator) returns (r: FastFloat)
    requires it.Valid()
    ensures r.Stop? ==> it.head <= r.end <= it.tail
    ensures UnsignedRest(it.Rest()).Match? ==>
      !r.Malformed? && (r.Stop? ==> r.end < it.tail && UnsignedRest(it.Rest()).rest == From(it, r.end))
    ensures r.Stop? ==> AfterNumber(it.Rest()) == From(it, r.end) != []
  {
    hide UnsignedRest, From, SkipDigits, FractionRest, AfterNumber;
    var i := it.head;
    if i == it.tail {
      return Slow;
    }
    var c := it.buf[i];
    FromNext(it, i);
    UnsignedStart(it.Rest());
    if UnsignedRest(it.Rest()).Match? {
      TailOfUnsigned(it.Rest());
    }
    if EndsFloat(c) || c == DOT {
      return Malformed;
    }
    if !IsDigit(c) {
      return Slow;
    }
    if c == ZERO {
      if i + 1 == it.tail {
        return Slow;
      }
      if IsDigit(it.buf[i + 1]) {
        return Malformed;
      }
    }
    var whole, value := WholePart(it, i + 1, c - ZERO);
    DigitFirst(it.Rest());
    AfterNumberDigits(From(it, i + 1));
    if whole.Slow? || EndsFloat(it.buf[whole.end]) {
      if whole.Stop? {
        FromNext(it, whole.end);
        Undotted(From(it, whole.end));
        NotNumber(From(it, whole.end));
      }
      return whole;
    }
    if whole.end + 1 == it.tail {
      return Slow;
    }
    FromNext(it, whole.end);
    Dotted(From(it, whole.end));
    DigitFirst(From(it, whole.end));
    AfterNumberDigits(From(it, whole.end + 1));
    r := Decimals(it, whole.end + 1, value);
    if r.Stop? {
      FromNext(it, r.end);
      NotNumber(From(it, r.end));
    }
  }

  lemma UnsignedStart(t: bytes)
    requires t != []
    ensures UnsignedRest(t).Match? ==> IsDigit(t[0])
    ensures UnsignedRest(t).Match? && t[0] == ZERO && |t| >= 2 ==> !IsDigit(t[1])
  {
  }

  lemma Undotted(t: bytes)
    requires t != [] && t[0] != DOT
    ensures FractionRest(t) == Match(t)
  {
  }

  lemma Dotted(t: bytes)
    requires t != [] && t[0] == DOT
    ensures FractionRest(t).Match? ==> FractionRest(t) == Match(SkipDigits(t[1..]))
  {
  }

  /** The byte after a number, the first of rest, is in the buffer already. */
  ghost predicate EndsInBuffer(it: Iterator, rest: bytes)
    reads it
  {
    |rest| > |Flat(it.chunks)|
  }

  /** readPositiveFloat32 and readPositiveFloat64: the cursor stops after the number, however it is cut. */
  method ReadPositiveFloat(it: Iterator, limit: int, odd: bytes -> bool)
    requires it.Valid()
    modifies it
    ensures it.Valid() && |it.Rest()| <= |old(it.Rest())|
    ensures !old(it.error).NoError? ==> !it.error.NoError?
    ensures old(it.error).NoError? && UnsignedRest(old(it.Rest())).Match? ==>
      && it.Rest() == UnsignedRest(old(it.Rest())).rest
      && (!TooBig(old(it.Rest()), limit) ==> it.error.NoError?)
      && (TooBig(old(it.Rest()), limit) && old(!EndsInBuffer(it, UnsignedRest(it.Rest()).rest)) ==> it.error.Failure?)
    ensures AfterNumber(it.Rest()) == AfterNumber(old(it.Rest()))
    ensures it.error.NoError? ==> it.Rest() == AfterNumber(old(it.Rest())) != []
    ensures old(it.error).NoError? && it.error.EndOfInput? ==> AfterNumber(old(it.Rest())) == []
    ensures old(it.error).Failure? ==> it.error.Failure?
  {
    hide UnsignedRest, TooBig, Flat;
    var fast := FastFloatScan(it);
    match fast {
      case Stop(end) =>
        Moved(it, [], end);
        AfterNumberTwice(it.Rest());
        it.head := end;
      case Slow => ReadFloatSlowPath(it, limit, odd);
      case Malformed => it.ReportError();
    }
  }

  /** The number t starts in the buffer, does not end in it, and is out of range. */
  ghost predicate CutOff(it: Iterator, t: bytes, limit: int)
    reads it
  {
    && it.head < it.tail <= |it.buf| && !IsSpace(it.buf[it.head])
    && UnsignedRest(Unsigned(t)).Match? && TooBig(Unsigned(t), limit)
    && !EndsInBuffer(it, UnsignedRest(Unsigned(t)).rest)
  }

  /** ReadFloat32 and ReadFloat64: a sign, then a positive number. */
  method ReadFloat(it: Iterator, limit: int, odd: bytes -> bool)
    requires it.Valid()
    modifies it
    ensures it.Valid() && |it.Rest()| <= |old(it.Rest())|
    ensures !old(it.error).NoError? ==> !it.error.NoError?
    ensures old(it.error).NoError? && UnsignedRest(Unsigned(Trim(old(it.Rest())))).Match? ==>
      && it.Rest() == UnsignedRest(Unsigned(Trim(old(it.Rest())))).rest
      && (!TooBig(Unsigned(Trim(old(it.Rest()))), limit) ==> it.error.NoError?)
    ensures old(it.error).NoError? && old(CutOff(it, Trim(it.Rest()), limit)) ==> it.error.Failure?
    ensures old(it.error).NoError? && Trim(old(it.Rest())) != [] ==> AfterNumber(it.Rest()) == AfterNumber(Trim(old(it.Rest())))
    ensures it.error.NoError? ==> it.Rest() == AfterNumber(Trim(old(it.Rest()))) != []
    ensures old(it.error).NoError? && Trim(old(it.Rest())) != [] && it.error.EndOfInput? ==>
      AfterNumber(Trim(old(it.Rest()))) == []
    ensures old(it.error).Failure? ==> it.error.Failure?
  {
    hide UnsignedRest, TooBig, Trim, AfterNumber, Flat, AfterToken;
    ghost var t := Trim(it.Rest());
    var c := it.NextToken();
    if t != [] {
      assert t == [c] + t[1..];
      DigitFirst(t);
    } else {
      NothingUnsigned();
    }
    if c == MINUS {
      ReadPositiveFloat(it, limit, odd);
      return;
    }
    it.UnreadByte();
    ReadPositiveFloat(it, limit, odd);
  }

  lemma NothingUnsigned()
    ensures UnsignedRest([]) == NoMatch
  {
  }
}
