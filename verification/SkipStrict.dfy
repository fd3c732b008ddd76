/** The validating skipper: iter_skip_strict.go with ReadArrayCB and ReadObjectCB, whose callback is Skip. */
module SkipStrict {
  import opened Bytes
  import opened Utf8
  import opened JsonString
  import opened JsonIterator
  import opened JsonRead
  import opened JsonGrammar
  import opened JsonNumber
  import opened SkipSloppy

  // ---- strings ----

  /** A string of the grammar is read by the slow path to the same end, and the fast path has no objection. */
  lemma {:induction false} StringIsRead(t: bytes)
    requires StringRest(t).Match?
    ensures BodyOf(t).Decoded? && BodyOf(t).rest == StringRest(t).rest && Clean(t)
    decreases |t|
  {
    hide RuneBytes, U4, PairBytes;
    if t[0] == BACKSLASH {
      if t[1] == LOWER_U {
        UnitIsRead(t);
      } else {
        assert t[1..][1..] == t[2..];
        StringIsRead(t[2..]);
      }
    } else if t[0] != QUOTE {
      StringIsRead(t[1..]);
    }
  }

  /** The case of an escaped unit: after a surrogate the reader takes the next escape along. */
  lemma {:induction false} UnitIsRead(t: bytes)
    requires StringRest(t).Match? && t[0] == BACKSLASH && t[1] == LOWER_U
    ensures BodyOf(t).Decoded? && BodyOf(t).rest == StringRest(t).rest
    decreases |t|, 0
  {
    hide RuneBytes, U4, PairBytes, BodyOf;
    BodyStep(t);
    var u := t[2..];
    assert t[1..] == [LOWER_U] + u;
    UnitEscape(u);
    var w := t[6..];
    assert u[4..] == w;
    var r := U4(u);
    if IsSurrogate(r) && w[0] == BACKSLASH {
      if w[1] == LOWER_U {
        assert w[2..][4..] == w[6..];
        StringIsRead(w[6..]);
      } else {
        assert w[1..][1..] == w[2..];
        StringIsRead(w[2..]);
      }
    } else {
      StringIsRead(w);
    }
  }

  /** After an error the end of the input, only number bytes or nothing can be left. */
  ghost predicate Exhausted(it: Iterator)
    requires it.Valid()
    reads it
  {
    AfterNumber(Trim(it.Rest())) == []
  }

  /**
   The outcome of a skip: after everything the grammar accepts the cursor stands right after it without an
   error, and without an error the cursor stands right after something the lenient grammar accepts.
   */
  ghost predicate Outcome(it: Iterator, rfc: Match, lenient: Match)
    requires it.Valid()
    reads it
  {
    && StandsAfter(it, rfc)
    && (it.error.NoError? ==> lenient == Match(it.Rest()))
    && (it.error.EndOfInput? ==> Exhausted(it))
  }

  lemma OutcomeOf(it: Iterator, rfc: Match, lenient: Match)
    requires it.Valid() && Outcome(it, rfc, lenient)
    ensures StandsAfter(it, rfc) && (it.error.NoError? ==> lenient == Match(it.Rest()))
  {
  }

  /**
   A string after its opening quote: an error if and only if it cannot be decoded or a raw control character
   stands in the buffer before a quote or a backslash.
   */
  method SkipString(it: Iterator)
    requires it.Valid() && (it.error.NoError? ==> it.head > 0)
    modifies it
    ensures it.Valid() && |it.Rest()| <= |old(it.Rest())| + (if old(it.error).NoError? then 1 else 0)
    ensures old(it.error).Failure? ==> it.error.Failure?
    ensures old(it.error).NoError? && old(it.buf[it.head - 1]) == QUOTE ==>
      && it.error == (if BodyOf(old(it.Rest())).Decoded? && Clean(old(it.Window())) then NoError else Failure)
      && Outcome(it, TextRest(old(it.Rest()), Rfc(!it.hasReader)), TextRest(old(it.Rest()), Lenient))
  {
    hide StringRest, BodyOf, Clean, Trim, Flat, AfterToken, Exhausted;
    if StringRest(it.Rest()).Match? {
      StringIsRead(it.Rest());
    }
    CleanWindow(it);
    var fast := FastScan(it);
    match fast {
      case Closed(end) =>
        MoveTo(it, end + 1);
      case Control =>
        it.ReportError();
      case Undecided =>
        ReadAgain(it);
    }
  }

  /** The slow way of skipping a string: back to its quote, and read. */
  method ReadAgain(it: Iterator)
    requires it.Valid() && (it.error.NoError? ==> it.head > 0)
    modifies it
    ensures it.Valid() && |it.Rest()| <= |old(it.Rest())| + (if old(it.error).NoError? then 1 else 0)
    ensures old(it.error).Failure? ==> it.error.Failure?
    ensures old(it.error).NoError? && old(it.buf[it.head - 1]) == QUOTE ==>
      && it.error == (if BodyOf(old(it.Rest())).Decoded? && Clean(old(it.Window())) then NoError else Failure)
      && (BodyOf(old(it.Rest())).Decoded? && Clean(old(it.Window())) ==> it.Rest() == BodyOf(old(it.Rest())).rest)
  {
    hide BodyOf, Clean, Trim, Flat, AfterToken;
    it.UnreadByte();
    if it.error.NoError? {
      QuoteFirst(it.buf[it.head], old(it.Rest()));
      QuoteInBuffer(it);
    }
    var _ := ReadString(it);
  }

  lemma QuoteInBuffer(it: Iterator)
    requires it.Valid() && it.head < it.tail
    ensures it.buf[it.head] == QUOTE ==> AfterToken(it.Window(), it.chunks) == it.buf[it.head + 1..it.tail]
  {
  }

  lemma QuoteFirst(c: byte, t: bytes)
    ensures c == QUOTE ==> Trim([c] + t) == [c] + t && StartsWith([c] + t, [QUOTE])
    ensures ([c] + t)[1..] == t
  {
  }

  // ---- numbers ----

  datatype Try = Done(end: nat) | Broken | GiveUp

  /** The text from u on is a number; its first byte has been read. */
  ghost predicate InNumber(it: Iterator, u: bytes)
    requires it.Valid()
    reads it
  {
    u != [] && u[1..] == it.Rest() && (u[0] == MINUS || IsDigit(u[0])) && UnsignedRest(Unsigned(u)).Match?
  }

  /** The scan of trySkipNumber; it gives up at the end of the buffer. */
  method ScanNumber(it: Iterator, ghost u: bytes) returns (r: Try)
    requires it.Valid()
    ensures r.Done? ==> it.head <= r.end <= it.tail && AfterNumber(it.Rest()) == From(it, r.end) != []
    ensures InNumber(it, u) ==>
      && !r.Broken? && (r.Done? ==> UnsignedRest(Unsigned(u)).rest == From(it, r.end))
      && (r.Done? ==> EndsInBuffer(it, UnsignedRest(Unsigned(u)).rest) && UnsignedRest(Unsigned(u)).rest != it.Rest())
      && (r.GiveUp? && EndsInBuffer(it, UnsignedRest(Unsigned(u)).rest) ==> UnsignedRest(Unsigned(u)).rest == it.Rest())
  {
    hide UnsignedRest, From, NumberTail, AfterNumber;
    ghost var m := UnsignedRest(Unsigned(u));
    var i := it.head;
    var dotted := false;
    AtHead(it);
    if InNumber(it, u) {
      InsideNumber(it, u);
    }
    while i < it.tail
      invariant it.head <= i <= it.tail
      invariant InNumber(it, u) ==> NumberTail(From(it, i), dotted) == m
      invariant AfterNumber(it.Rest()) == AfterNumber(From(it, i))
    {
      var c := it.buf[i];
      FromNext(it, i);
      DigitFirst(From(it, i));
      if InNumber(it, u) {
        TailStep(From(it, i), dotted, m.rest);
      }
      if IsDigit(c) {
      } else if c == DOT {
        if dotted {
          return Broken;
        }
        if i + 1 == it.tail {
          DotAtTail(it, i);
          return GiveUp;
        }
        if !IsDigit(it.buf[i + 1]) {
          return Broken;
        }
        dotted := true;
      } else if EndsNumber(c) {
        InBuffer(it, i);
        NotNumber(From(it, i));
        return if it.head == i then GiveUp else Done(i);
      } else {
        return GiveUp;
      }
      i := i + 1;
    }
    NothingAtTail(it, dotted);
    return GiveUp;
  }

  lemma InsideNumber(it: Iterator, u: bytes)
    requires it.Valid() && InNumber(it, u)
    ensures NumberTail(it.Rest(), false) == UnsignedRest(Unsigned(u))
    ensures UnsignedRest(Unsigned(u)).rest != [] && EndsNumber(UnsignedRest(Unsigned(u)).rest[0])
  {
    hide NumberTail;
    TailOfUnsigned(Unsigned(u));
  }

  lemma InBuffer(it: Iterator, i: nat)
    requires it.Valid() && it.head <= i < it.tail
    ensures EndsInBuffer(it, From(it, i))
    ensures it.head < i ==> |From(it, i)| < |it.Rest()|
  {
  }

  lemma DotAtTail(it: Iterator, i: nat)
    requires it.Valid() && it.head <= i && i + 1 == it.tail
    ensures From(it, i + 1) == Flat(it.chunks)
    ensures var m := NumberTail(From(it, i + 1), true); m.Match? ==> !EndsInBuffer(it, m.rest)
  {
    hide SkipDigits;
    AtTail(it);
  }

  lemma NothingAtTail(it: Iterator, dotted: bool)
    requires it.Valid()
    ensures var m := NumberTail(From(it, it.tail), dotted); m.Match? ==> !EndsInBuffer(it, m.rest)
  {
    hide SkipDigits;
    AtTail(it);
  }

  method TrySkipNumber(it: Iterator, ghost u: bytes) returns (done: bool)
    requires it.Valid()
    modifies it
    ensures it.Valid() && |it.Rest()| <= |old(it.Rest())|
    ensures !done ==> it.error == old(it.error) && it.head == old(it.head) && it.tail == old(it.tail)
    ensures !done ==> it.buf == old(it.buf) && it.chunks == old(it.chunks)
    ensures old(it.error).Failure? ==> it.error.Failure?
    ensures done && it.error.NoError? ==> AfterNumber(old(it.Rest())) == it.Rest() != []
    ensures done && old(it.error).NoError? ==> !it.error.EndOfInput?
    ensures old(it.error).NoError? && old(InNumber(it, u)) ==>
      && (done <==> old(EndsInBuffer(it, UnsignedRest(Unsigned(u)).rest)) && UnsignedRest(Unsigned(u)).rest != old(it.Rest()))
      && (done ==> StandsAfter(it, UnsignedRest(Unsigned(u))))
  {
    hide UnsignedRest, Flat, AfterNumber;
    var r := ScanNumber(it, u);
    match r {
      case Done(end) =>
        MoveTo(it, end);
        return true;
      case Broken =>
        it.ReportError();
        return true;
      case GiveUp =>
        return false;
    }
  }

  /** ReadBigFloat; which texts big.ParseFloat refuses is left to odd. */
  method ReadBigFloat(it: Iterator, odd: bytes -> bool)
    requires it.Valid()
    modifies it
    ensures it.Valid() && |it.Rest()| <= |old(it.Rest())|
    ensures old(it.error).NoError? && old(it.Rest()) != [] && !NumberByte(old(it.Rest())[0]) ==> it.error.Failure?
    ensures it.error.NoError? ==> it.Rest() == AfterNumber(old(it.Rest())) != []
    ensures it.error.EndOfInput? && old(it.error).NoError? ==> AfterNumber(it.Rest()) == []
  {
    if it.Rest() != [] && !NumberByte(it.Rest()[0]) {
      NotNumber(it.Rest());
    }
    var str := ReadNumberAsString(it);
    if it.error.Failure? {
      return;
    }
    if odd(str) {
      it.error := Failure;
    }
  }

  /** A number that was put back: read as a float64, and if that fails once more as a big float. */
  method ReadFloatOrBig(it: Iterator, odd: bytes -> bool)
    requires it.Valid()
    modifies it
    ensures it.Valid() && |it.Rest()| <= |old(it.Rest())|
    ensures old(it.error).NoError? && !TooBig(Unsigned(Trim(old(it.Rest()))), FLOAT64_LIMIT) ==>
      StandsAfter(it, UnsignedRest(Unsigned(Trim(old(it.Rest())))))
    ensures old(it.error).NoError? && old(CutOff(it, Trim(it.Rest()), FLOAT64_LIMIT)) ==> it.error.Failure?
    ensures old(it.error).NoError? && Trim(old(it.Rest())) != [] ==>
      && (it.error.NoError? ==> it.Rest() == AfterNumber(Trim(old(it.Rest()))) != [])
      && (it.error.EndOfInput? ==> AfterNumber(it.Rest()) == [])
  {
    hide TooBig, Flat, Trim, UnsignedRest, AfterNumber, AfterToken;
    ghost var u := Unsigned(Trim(it.Rest()));
    if UnsignedRest(u).Match? {
      EndIsNoNumber(u);
    }
    ReadFloat(it, FLOAT64_LIMIT, odd);
    if it.error.Failure? {
      it.error := NoError;
      ReadBigFloat(it, odd);
    }
  }

  lemma EndIsNoNumber(u: bytes)
    requires UnsignedRest(u).Match?
    ensures UnsignedRest(u).rest != [] && !NumberByte(UnsignedRest(u).rest[0])
  {
  }

  /**
   A number whose first byte has been read. The cursor stops right after it, and there is an error if and
   only if the number is too big for a float64 and the byte after it is not in the buffer yet.
   */
  method SkipNumber(it: Iterator, ghost u: bytes, odd: bytes -> bool)
    requires it.Valid() && (it.error.NoError? ==> it.head > 0)
    modifies it
    ensures it.Valid() && |it.Rest()| <= |old(it.Rest())| + (if old(it.error).NoError? then 1 else 0)
    ensures old(it.error).NoError? && old(InNumber(it, u)) && old(it.buf[it.head - 1]) == u[0] ==>
      && StandsAfter(it, NumberRest(u, Rfc(!it.hasReader)))
      && (it.error.NoError? <==>
          old(EndsInBuffer(it, UnsignedRest(Unsigned(u)).rest)) || !TooBig(Unsigned(u), FLOAT64_LIMIT))
    ensures old(it.error).Failure? ==> it.error.Failure?
    ensures old(it.error).NoError? && u != [] && (u[0] == MINUS || IsDigit(u[0]))
            && u[1..] == old(it.Rest()) && old(it.buf[it.head - 1]) == u[0] ==>
      && (it.error.NoError? ==> NumberRest(u, Lenient) == Match(it.Rest()))
      && (it.error.EndOfInput? ==> AfterNumber(it.Rest()) == [])
  {
    hide UnsignedRest, TooBig, Flat, Trim, InNumber, NumberRest, Unsigned, CutOff, AfterNumber, AfterToken;
    if u != [] && (u[0] == MINUS || IsDigit(u[0])) {
      LenientNumber(u);
      NoSpaceFirst(u);
    }
    if InNumber(it, u) {
      NumberFacts(it, u);
    }
    var done := TrySkipNumber(it, u);
    if done {
      return;
    }
    it.UnreadByte();
    if it.error.Failure? {
      return;
    }
    if it.error.NoError? && old(InNumber(it, u)) {
      StartsInBuffer(it, u);
    }
    ReadFloatOrBig(it, odd);
  }

  /** What is known of a number whose first byte has been read. */
  lemma NumberFacts(it: Iterator, u: bytes)
    requires it.Valid() && InNumber(it, u)
    ensures Trim(u) == u && u != [] && !IsSpace(u[0]) && u == [u[0]] + it.Rest()
    ensures UnsignedRest(Unsigned(u)).Match?
    ensures !it.hasReader ==> EndsInBuffer(it, UnsignedRest(Unsigned(u)).rest)
    ensures UnsignedRest(Unsigned(u)).rest == it.Rest() ==> !TooBig(Unsigned(u), FLOAT64_LIMIT)
    ensures NumberByte(u[0]) && NumberRest(u, Rfc(true)) == UnsignedRest(Unsigned(u))
    ensures NumberRest(u, Rfc(false)) == if TooBig(Unsigned(u), FLOAT64_LIMIT) then NoMatch else UnsignedRest(Unsigned(u))
  {
    hide UnsignedRest, TooBig, Trim, NumberTail, Unsigned;
    InsideNumber(it, u);
    NoReader(it, UnsignedRest(Unsigned(u)).rest);
    NotTooBig(u);
    NoSpaceFirst(u);
  }

  lemma LenientNumber(u: bytes)
    requires u != [] && (u[0] == MINUS || IsDigit(u[0]))
    ensures AfterNumber(u) == AfterNumber(u[1..]) && u == [u[0]] + u[1..]
    ensures NumberRest(u, Lenient) == if AfterNumber(u) == [] then NoMatch else Match(AfterNumber(u))
  {
  }

  /** A number that was put back starts in the buffer. */
  lemma StartsInBuffer(it: Iterator, u: bytes)
    requires it.Valid() && it.head < it.tail && UnsignedRest(Unsigned(u)).Match?
    ensures !IsSpace(it.buf[it.head]) && TooBig(Unsigned(u), FLOAT64_LIMIT) ==>
      EndsInBuffer(it, UnsignedRest(Unsigned(u)).rest) || CutOff(it, u, FLOAT64_LIMIT)
  {
    hide UnsignedRest, TooBig, Unsigned, Flat;
  }

  lemma NoReader(it: Iterator, rest: bytes)
    requires it.Valid() && rest != []
    ensures !it.hasReader ==> EndsInBuffer(it, rest)
  {
  }

  lemma NoSpaceFirst(u: bytes)
    requires u != [] && (u[0] == MINUS || IsDigit(u[0]))
    ensures Trim(u) == u
  {
  }

  /** A number of one digit is below the limit. */
  lemma NotTooBig(u: bytes)
    requires u != [] && UnsignedRest(Unsigned(u)).Match?
    ensures UnsignedRest(Unsigned(u)).rest == u[1..] ==> !TooBig(Unsigned(u), FLOAT64_LIMIT)
  {
    hide SkipDigits, Pow2, TooBig;
    if UnsignedRest(Unsigned(u)).rest == u[1..] {
      UnsignedNotEmpty(Unsigned(u));
      TailOfUnsigned(Unsigned(u));
      OneDigit(u);
    }
  }

  lemma OneDigit(u: bytes)
    requires u != [] && IntegerRest(u).Match? && |IntegerRest(u).rest| >= |u| - 1
    ensures !TooBig(u, FLOAT64_LIMIT)
  {
    hide SkipDigits, Pow2;
    LimitsPositive();
    assert |IntegerRest(u).rest| == |u| - 1;
    assert IntegerPart(u) == [u[0]];
    DigitValue(u[0]);
  }

  lemma DigitValue(c: byte)
    requires IsDigit(c)
    ensures Decimal.Value([c]) < 10
  {
    assert [c][..0] == [];
    assert Decimal.Value([c]) == 10 * Decimal.Value([]) + (c - ZERO);
  }

  // ---- values ----

  lemma {:induction false} TrimTwice(t: bytes)
    ensures Trim(Trim(t)) == Trim(t)
  {
    if t != [] && IsSpace(t[0]) {
      TrimTwice(t[1..]);
    }
  }

  /** What comes after a value in an array or an object. */
  function AfterValue(v: bytes, braces: bool, m: Mode): Match {
    var w := Trim(v);
    if w == [] then NoMatch
    else if w[0] == Closing(braces) then Match(w[1..])
    else if w[0] == COMMA then ItemsRest(w[1..], braces, m)
    else NoMatch
  }

  /** An item: the value of an array, the name and the value of an object. */
  function ItemRest(t: bytes, braces: bool, m: Mode): Match {
    if !braces then ValueRest(t, m) else if KeyRest(t, m).NoMatch? then NoMatch else ValueRest(KeyRest(t, m).rest, m)
  }

  lemma ItemsAre(t: bytes, braces: bool, m: Mode)
    ensures ItemsRest(t, braces, m) ==
      if ItemRest(t, braces, m).NoMatch? then NoMatch else AfterValue(ItemRest(t, braces, m).rest, braces, m)
  {
    hide KeyRest, ValueRest, Trim;
  }

  lemma ItemTrim(t: bytes, braces: bool, m: Mode)
    ensures ItemsRest(Trim(t), braces, m) == ItemsRest(t, braces, m)
  {
    hide ScalarRest, GroupRest, TextRest, ItemsRest;
    TrimTwice(t);
    ItemsAre(t, braces, m);
    ItemsAre(Trim(t), braces, m);
  }

  /** A member name and its colon. */
  method ReadKey(it: Iterator)
    requires it.Valid()
    modifies it
    ensures it.Valid() && |it.Rest()| <= |old(it.Rest())|
    ensures old(it.error).Failure? || (!old(it.error).NoError? && Trim(old(it.Rest())) == []) ==> it.error.Failure?
    ensures old(it.error).NoError? ==>
      Outcome(it, KeyRest(old(it.Rest()), Rfc(!it.hasReader)), KeyRest(old(it.Rest()), Lenient)) && !it.error.EndOfInput?
  {
    hide Trim, Flat, AfterToken, TextRest, Exhausted, KeyRest;
    ghost var t := it.Rest();
    ReadName(it, t);
    KeyCases(t, Rfc(!it.hasReader));
    KeyCases(t, Lenient);
    var c := it.NextToken();
    if c != COLON {
      it.ReportError();
    }
  }

  lemma KeyCases(t: bytes, m: Mode)
    ensures KeyRest(t, m) ==
      if NameRest(Trim(t), m).NoMatch? then NoMatch
      else if Trim(NameRest(Trim(t), m).rest) != [] && Trim(NameRest(Trim(t), m).rest)[0] == COLON then
        Match(Trim(NameRest(Trim(t), m).rest)[1..])
      else NoMatch
  {
    hide NameRest, Trim;
  }

  /** A member name, read as a string; null is taken for one too. */
  method ReadName(it: Iterator, ghost t: bytes)
    requires it.Valid() && t == it.Rest()
    modifies it
    ensures it.Valid() && |it.Rest()| <= |old(it.Rest())|
    ensures old(it.error).Failure? || (!old(it.error).NoError? && Trim(t) == []) ==> it.error.Failure?
    ensures old(it.error).NoError? ==>
      && !it.error.EndOfInput? && StandsAfter(it, NameRest(Trim(t), Rfc(!it.hasReader)))
      && (it.error.NoError? ==> NameRest(Trim(t), Lenient) == Match(it.Rest()))
  {
    hide StringRest, BodyOf, Clean, Trim, Flat, AfterToken;
    ghost var u := Trim(t);
    if u != [] && u[0] == QUOTE {
      assert u[..1] == [QUOTE];
      if StringRest(u[1..]).Match? {
        StringIsRead(u[1..]);
      }
    }
    var _ := ReadString(it);
  }

  /**
   Skip in the validating build: after every well-formed value the cursor stops right after it without an
   error, and without an error the cursor is right after a value of the lenient grammar.
   */
  method Skip(it: Iterator, odd: bytes -> bool)
    requires it.Valid()
    modifies it
    ensures it.Valid() && |it.Rest()| <= |old(it.Rest())|
    ensures old(it.error).Failure? || (!old(it.error).NoError? && Trim(old(it.Rest())) == []) ==> it.error.Failure?
    ensures old(it.error).NoError? ==>
      Outcome(it, ValueRest(old(it.Rest()), Rfc(!it.hasReader)), ValueRest(old(it.Rest()), Lenient))
    decreases |it.Rest()|, 1
  {
    hide ValueRest, GroupRest, TextRest, NumberRest, Trim, StandsAfter, Flat, WordRest, InNumber, Outcome, AfterToken,
         BodyOf, Clean, AfterNumber, UnsignedRest, TooBig;
    ghost var t := it.Rest();
    ghost var u := Trim(t);
    ghost var m, l := ValueRest(t, Rfc(!it.hasReader)), ValueRest(t, Lenient);
    var c := it.NextToken();
    ValueCases(t, Rfc(!it.hasReader));
    ValueCases(t, Lenient);
    if c == QUOTE {
      SkipString(it);
    } else if c == LOWER_N {
      SkipWord(it, u, ULL);
      WordOutcome(it, l);
    } else if c == LOWER_T {
      SkipWord(it, u, RUE);
      WordOutcome(it, l);
    } else if c == LOWER_F {
      SkipWord(it, u, ALSE);
      WordOutcome(it, l);
    } else if c == ZERO {
      SkipZero(it, u, odd);
      if old(it.error).NoError? {
        NumberOutcome(it, m, l);
      }
    } else if c == MINUS || IsDigit(c) {
      if u != [] {
        NumberStarts(it, u);
      }
      SkipNumber(it, u, odd);
      Unmatched(it);
      if old(it.error).NoError? {
        NumberOutcome(it, m, l);
      }
    } else if c == LBRACKET || c == LBRACE {
      it.UnreadByte();
      assert u == [c] + u[1..];
      BracketFirst(u);
      if c == LBRACE {
        ReadObjectCB(it, odd);
      } else {
        ReadArrayCB(it, odd);
      }
    } else {
      it.ReportError();
      Unmatched(it);
      NumberOutcome(it, NoMatch, l);
    }
  }

  lemma WordOutcome(it: Iterator, m: Match)
    requires it.Valid()
    ensures StandsAfter(it, m) && !it.error.EndOfInput? && (it.error.NoError? <==> m.Match?) ==> Outcome(it, m, m)
  {
  }

  /** What is known after a number, whatever the grammar says of it. */
  lemma NumberOutcome(it: Iterator, m: Match, l: Match)
    requires it.Valid() && (it.error.NoError? ==> l == Match(it.Rest())) && StandsAfter(it, m)
    requires it.error.EndOfInput? ==> AfterNumber(it.Rest()) == []
    ensures Outcome(it, m, l)
  {
    if AfterNumber(it.Rest()) == [] {
      NumberTrim(it.Rest());
    }
  }

  lemma NumberTrim(t: bytes)
    requires AfterNumber(t) == []
    ensures Trim(t) == t
  {
  }

  lemma NumberStarts(it: Iterator, u: bytes)
    requires it.Valid() && u != [] && u[1..] == it.Rest() && (u[0] == MINUS || IsDigit(u[0]))
    ensures InNumber(it, u) || NumberRest(u, Rfc(!it.hasReader)).NoMatch?
  {
    hide UnsignedRest, TooBig;
  }

  lemma BracketFirst(u: bytes)
    requires u != [] && (u[0] == LBRACKET || u[0] == LBRACE)
    ensures Trim(u) == u
  {
  }

  method Item(it: Iterator, braces: bool, odd: bytes -> bool)
    requires it.Valid()
    modifies it
    ensures it.Valid() && |it.Rest()| <= |old(it.Rest())|
    ensures old(it.error).Failure? || (!old(it.error).NoError? && Trim(old(it.Rest())) == []) ==> it.error.Failure?
    ensures old(it.error).NoError? ==>
      Outcome(it, ItemRest(old(it.Rest()), braces, Rfc(!it.hasReader)), ItemRest(old(it.Rest()), braces, Lenient))
    decreases |it.Rest()|, 2
  {
    hide ValueRest, KeyRest, Flat, Trim, Exhausted;
    if braces {
      ReadKey(it);
    }
    Skip(it, odd);
  }

  /** The items of a group from the first one on, up to and including the closing bracket. */
  method ReadItems(it: Iterator, braces: bool, odd: bytes -> bool)
    requires it.Valid()
    modifies it
    ensures it.Valid() && |it.Rest()| <= |old(it.Rest())|
    ensures old(it.error).Failure? || (!old(it.error).NoError? && Trim(old(it.Rest())) == []) ==> it.error.Failure?
    ensures old(it.error).NoError? ==> !it.error.EndOfInput?
    ensures old(it.error).NoError? ==>
      Outcome(it, ItemsRest(old(it.Rest()), braces, Rfc(!it.hasReader)), ItemsRest(old(it.Rest()), braces, Lenient))
    decreases |it.Rest()|, 4
  {
    hide ItemRest, ItemsRest, AfterValue, Trim, Flat, AfterToken, Exhausted;
    ghost var fine := it.error.NoError?;
    ghost var m := if fine then ItemsRest(it.Rest(), braces, Rfc(!it.hasReader)) else NoMatch;
    ghost var l := ItemsRest(it.Rest(), braces, Lenient);
    var c := ItemThen(it, braces, odd);
    while c == COMMA
      invariant it.Valid() && |it.Rest()| <= |old(it.Rest())|
      invariant c == COMMA ==> |it.Rest()| < |old(it.Rest())|
      invariant fine ==> Goes(it, c, m, l, braces)
      invariant old(it.error).Failure? || (!fine && Trim(old(it.Rest())) == []) ==> it.error.Failure?
      decreases |it.Rest()|, if c == COMMA then 1 else 0
    {
      c := ItemThen(it, braces, odd);
    }
    if c != Closing(braces) {
      it.ReportError();
    }
  }

  /** Where the items go on after the token c: the grammars match the whole text as they match what is left. */
  ghost predicate Goes(it: Iterator, c: byte, rfc: Match, lenient: Match, braces: bool)
    requires it.Valid()
    reads it
  {
    && (rfc.Match? ==> it.error.NoError?)
    && (it.error.NoError? ==> rfc == AfterComma(c, it.Rest(), braces, Rfc(!it.hasReader)) || rfc.NoMatch?)
    && (it.error.NoError? ==> lenient == AfterComma(c, it.Rest(), braces, Lenient))
    && (it.error.EndOfInput? ==> c != COMMA && c != Closing(braces))
  }

  /** What follows a value, given the token after it. */
  ghost function AfterComma(c: byte, t: bytes, braces: bool, m: Mode): Match {
    if c == Closing(braces) then Match(t) else if c == COMMA then ItemsRest(t, braces, m) else NoMatch
  }

  /** An item and the token after it. */
  method ItemThen(it: Iterator, braces: bool, odd: bytes -> bool) returns (c: byte)
    requires it.Valid()
    modifies it
    ensures it.Valid() && |it.Rest()| <= |old(it.Rest())| && (c == COMMA ==> |it.Rest()| < |old(it.Rest())|)
    ensures old(it.error).Failure? || (!old(it.error).NoError? && Trim(old(it.Rest())) == []) ==> it.error.Failure?
    ensures old(it.error).NoError? ==>
      Goes(it, c, ItemsRest(old(it.Rest()), braces, Rfc(!it.hasReader)), ItemsRest(old(it.Rest()), braces, Lenient), braces)
    decreases |it.Rest()|, 3
  {
    hide ItemRest, ItemsRest, AfterValue, Trim, Flat, AfterToken, Exhausted;
    ItemsAre(it.Rest(), braces, Rfc(!it.hasReader));
    ItemsAre(it.Rest(), braces, Lenient);
    Item(it, braces, odd);
    AfterValueCases(it.Rest(), braces, Rfc(!it.hasReader));
    AfterValueCases(it.Rest(), braces, Lenient);
    NumberNext(it, braces);
    c := it.NextToken();
  }

  /** After the end of the input has been found in a number, no comma and no bracket follows. */
  lemma NumberNext(it: Iterator, braces: bool)
    requires it.Valid()
    ensures Exhausted(it) && Trim(it.Rest()) != [] ==>
      Trim(it.Rest())[0] != COMMA && Trim(it.Rest())[0] != Closing(braces)
  {
    hide Trim;
  }

  lemma AfterValueCases(v: bytes, braces: bool, m: Mode)
    ensures AfterValue(v, braces, m) ==
      if Trim(v) == [] then NoMatch
      else if Trim(v)[0] == Closing(braces) then Match(Trim(v)[1..])
      else if Trim(v)[0] == COMMA then ItemsRest(Trim(v)[1..], braces, m)
      else NoMatch
  {
  }

  method ReadArrayCB(it: Iterator, odd: bytes -> bool)
    requires it.Valid()
    modifies it
    ensures it.Valid() && |it.Rest()| <= |old(it.Rest())|
    ensures old(it.error).Failure? ==> it.error.Failure?
    ensures old(it.error).NoError? && Trim(old(it.Rest())) != [] && Trim(old(it.Rest()))[0] == LBRACKET ==>
      Outcome(it, GroupRest(Trim(old(it.Rest()))[1..], false, Rfc(!it.hasReader)),
              GroupRest(Trim(old(it.Rest()))[1..], false, Lenient))
    decreases |it.Rest()|, 0
  {
    hide ItemsRest, Trim, Flat, AfterToken, Exhausted;
    var c := it.NextToken();
    if c == LBRACKET {
      ghost var g := it.Rest();
      ItemTrim(g, false, Rfc(!it.hasReader));
      ItemTrim(g, false, Lenient);
      c := it.NextToken();
      if c != RBRACKET {
        it.UnreadByte();
        if Trim(g) == [] {
          NoItems(g, false, Rfc(!it.hasReader));
        } else {
          assert Trim(g) == [Trim(g)[0]] + Trim(g)[1..];
        }
        ReadItems(it, false, odd);
      }
    } else if c == LOWER_N {
      SkipBytes(it, ULL);
    } else {
      it.ReportError();
    }
  }

  lemma NoItems(g: bytes, braces: bool, m: Mode)
    requires Trim(g) == []
    ensures ItemsRest(g, braces, m) == NoMatch
  {
  }

  method ReadObjectCB(it: Iterator, odd: bytes -> bool)
    requires it.Valid()
    modifies it
    ensures it.Valid() && |it.Rest()| <= |old(it.Rest())|
    ensures old(it.error).Failure? ==> it.error.Failure?
    ensures old(it.error).NoError? && Trim(old(it.Rest())) != [] && Trim(old(it.Rest()))[0] == LBRACE ==>
      Outcome(it, GroupRest(Trim(old(it.Rest()))[1..], true, Rfc(!it.hasReader)),
              GroupRest(Trim(old(it.Rest()))[1..], true, Lenient))
    decreases |it.Rest()|, 0
  {
    hide ItemsRest, Trim, Flat, AfterToken, Exhausted;
    var c := it.NextToken();
    if c == LBRACE {
      ghost var g := it.Rest();
      ItemTrim(g, true, Rfc(!it.hasReader));
      ItemTrim(g, true, Lenient);
      c := it.NextToken();
      if c == QUOTE {
        it.UnreadByte();
        assert Trim(g) == [Trim(g)[0]] + Trim(g)[1..];
        ReadItems(it, true, odd);
      } else if c != RBRACE {
        NoName(g, !it.hasReader);
        it.ReportError();
      }
    } else if c == LOWER_N {
      SkipBytes(it, ULL);
    } else {
      it.ReportError();
    }
  }

  lemma NoName(g: bytes, big: bool)
    requires Trim(g) == [] || Trim(g)[0] != QUOTE
    ensures ItemsRest(g, true, Rfc(big)) == NoMatch
  {
    hide Trim;
  }
}
