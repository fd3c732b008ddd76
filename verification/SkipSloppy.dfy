/** The bracket-counting skipper: iter_skip_sloppy.go. */
module SkipSloppy {
  import opened Bytes
  import opened JsonIterator
  import opened JsonRead
  import opened JsonGrammar
  import opened JsonNumber

  /** If the text was recognised, the cursor stands after it and there is no error. */
  ghost predicate StandsAfter(it: Iterator, m: Match)
    requires it.Valid()
    reads it
  {
    m.Match? ==> it.error.NoError? && it.Rest() == m.rest
  }

  // ---- strings ----

  /** The number of backslashes before position i, back to lo, is odd. */
  predicate OddRun(buf: bytes, lo: nat, i: nat)
    requires i <= |buf|
  {
    i > lo && buf[i - 1] == BACKSLASH && !OddRun(buf, lo, i - 1)
  }

  /** The backward count of backslashes, two at a time. */
  method CountsOdd(it: Iterator, i: nat) returns (odd: bool)
    requires it.Valid() && it.head <= i <= it.tail
    ensures odd == OddRun(it.buf, it.head, i)
  {
    var j: int := i - 1;
    while true
      invariant it.head - 1 <= j < i && OddRun(it.buf, it.head, i) == OddRun(it.buf, it.head, j + 1)
      decreases j
    {
      if j < it.head || it.buf[j] != BACKSLASH {
        return false;
      }
      j := j - 1;
      if j < it.head || it.buf[j] != BACKSLASH {
        return true;
      }
      j := j - 1;
    }
  }

  /** The text of a string with the backslash before it that is still to be paired, if there is one. */
  function Pending(odd: bool, t: bytes): bytes {
    if odd then [BACKSLASH] + t else t
  }

  lemma PendingStep(odd: bool, t: bytes)
    requires t != []
    ensures (odd || t[0] != QUOTE) ==> StringEnd(Pending(odd, t)) == StringEnd(Pending(!odd && t[0] == BACKSLASH, t[1..]))
    ensures !odd && t[0] == QUOTE ==> StringEnd(Pending(odd, t)) == Match(t[1..])
  {
    if odd {
      var u := [BACKSLASH] + t;
      assert u[2..] == t[1..];
    } else if t[0] == BACKSLASH {
      assert t == [BACKSLASH] + t[1..];
    }
  }

  lemma {:induction false} NoRun(buf: bytes, lo: nat, i: nat)
    requires lo <= i <= |buf| && forall j :: lo <= j < i ==> buf[j] != BACKSLASH
    ensures !OddRun(buf, lo, i)
  {
  }

  /** The end of the string in the buffer, or whether the buffer ends in the middle of an escape. */
  method FindStringEnd(it: Iterator) returns (end: int, escaped: bool)
    requires it.Valid()
    ensures end >= 0 ==> it.head < end <= it.tail && StringEnd(it.Rest()) == Match(From(it, end))
    ensures end < 0 ==> StringEnd(it.Rest()) == StringEnd(Pending(escaped, Flat(it.chunks)))
  {
    hide StringEnd, From, OddRun, Pending;
    var seen := false;
    var i := it.head;
    StartsEven(it);
    while i < it.tail
      invariant it.head <= i <= it.tail
      invariant StringEnd(it.Rest()) == StringEnd(Pending(OddRun(it.buf, it.head, i), From(it, i)))
      invariant !seen ==> forall j :: it.head <= j < i ==> it.buf[j] != BACKSLASH
    {
      var c := it.buf[i];
      FromNext(it, i);
      PendingStep(OddRun(it.buf, it.head, i), From(it, i));
      RunStep(it.buf, it.head, i);
      if c == QUOTE {
        if !seen {
          NoRun(it.buf, it.head, i);
          return i + 1, false;
        }
        var odd := CountsOdd(it, i);
        if !odd {
          return i + 1, true;
        }
      } else if c == BACKSLASH {
        seen := true;
      }
      i := i + 1;
    }
    escaped := CountsOdd(it, it.tail);
    AtTail(it);
    return -1, escaped;
  }

  lemma StartsEven(it: Iterator)
    requires it.Valid()
    ensures Pending(OddRun(it.buf, it.head, it.head), From(it, it.head)) == it.Rest()
  {
  }

  lemma RunStep(buf: bytes, lo: nat, i: nat)
    requires lo <= i < |buf|
    ensures OddRun(buf, lo, i + 1) == (buf[i] == BACKSLASH && !OddRun(buf, lo, i))
  {
  }

  /** A string after its opening quote, across refills that may cut its escapes. */
  method SkipString(it: Iterator)
    requires it.Valid()
    modifies it
    ensures it.Valid() && |it.Rest()| <= |old(it.Rest())| && |it.chunks| <= |old(it.chunks)|
    ensures old(it.error).NoError? ==> StandsAfter(it, StringEnd(old(it.Rest())))
    ensures !old(it.error).NoError? || StringEnd(old(it.Rest())).NoMatch? ==> !it.error.NoError?
  {
    hide StringEnd, Flat, From, Pending, StandsAfter;
    ghost var t := it.Rest();
    while true
      invariant it.Valid() && it.error == old(it.error) && |it.Rest()| <= |t| && |it.chunks| <= |old(it.chunks)|
      invariant StringEnd(t) == StringEnd(it.Rest())
      decreases |it.chunks|
    {
      var end, escaped := FindStringEnd(it);
      if end >= 0 {
        MoveTo(it, end);
        Stands(it, Match(it.Rest()));
        return;
      }
      ghost var f := Flat(it.chunks);
      Moved(it, [], it.tail);
      var more := it.LoadMore();
      if !more {
        it.ReportError();
        NoString(escaped);
        Stands(it, NoMatch);
        return;
      }
      if escaped {
        PendingStep(true, f);
        FromNext(it, 0);
        MoveTo(it, 1);
        NotPending(f[1..]);
      } else {
        NotPending(f);
      }
    }
  }

  lemma Stands(it: Iterator, m: Match)
    requires it.Valid() && (m.Match? && it.error.NoError? ==> it.Rest() == m.rest)
    ensures it.error.NoError? || m.NoMatch? ==> StandsAfter(it, m)
  {
  }

  lemma NotPending(t: bytes)
    ensures Pending(false, t) == t
  {
  }

  lemma NoString(escaped: bool)
    ensures StringEnd(Pending(escaped, [])) == NoMatch
  {
    assert [BACKSLASH] + [] == [BACKSLASH];
  }

  // ---- numbers ----

  function ToNumberEnd(t: bytes): bytes {
    if t == [] || EndsNumber(t[0]) then t else ToNumberEnd(t[1..])
  }

  lemma {:induction false} ToNumberEndDigits(t: bytes)
    ensures ToNumberEnd(SkipDigits(t)) == ToNumberEnd(t)
  {
    if t != [] && IsDigit(t[0]) {
      ToNumberEndDigits(t[1..]);
    }
  }

  lemma NumberEnds(t: bytes, big: bool)
    requires t != [] && (t[0] == MINUS || IsDigit(t[0])) && NumberRest(t, Rfc(big)).Match?
    ensures ToNumberEnd(t[1..]) == NumberRest(t, Rfc(big)).rest && NumberRest(t, Rfc(big)).rest != []
  {
    hide SkipDigits, ToNumberEnd, TooBig;
    var u := Unsigned(t);
    TailOfUnsigned(u);
    ToNumberEndDigits(u);
    var i := SkipDigits(u);
    EndStep(i);
    if i[0] == DOT {
      ToNumberEndDigits(i[1..]);
    }
    EndStep(NumberRest(t, Rfc(big)).rest);
    EndStep(t);
    EndStep(u);
  }

  lemma EndStep(t: bytes)
    requires t != []
    ensures ToNumberEnd(t) == if EndsNumber(t[0]) then t else ToNumberEnd(t[1..])
  {
  }

  method NumberEndInBuffer(it: Iterator) returns (i: nat)
    requires it.Valid()
    ensures it.head <= i <= it.tail && ToNumberEnd(it.Rest()) == ToNumberEnd(From(it, i))
    ensures i < it.tail ==> EndsNumber(it.buf[i])
  {
    hide From, ToNumberEnd;
    i := it.head;
    AtHead(it);
    while i < it.tail
      invariant it.head <= i <= it.tail && ToNumberEnd(it.Rest()) == ToNumberEnd(From(it, i))
    {
      FromNext(it, i);
      EndStep(From(it, i));
      if EndsNumber(it.buf[i]) {
        return;
      }
      i := i + 1;
    }
  }

  method SkipNumber(it: Iterator)
    requires it.Valid()
    modifies it
    ensures it.Valid() && |it.Rest()| <= |old(it.Rest())|
    ensures old(it.error).NoError? && ToNumberEnd(old(it.Rest())) != [] ==> StandsAfter(it, Match(ToNumberEnd(old(it.Rest()))))
  {
    hide ToNumberEnd, Flat;
    ghost var t := it.Rest();
    while true
      invariant it.Valid() && it.error == old(it.error) && |it.Rest()| <= |t|
      invariant ToNumberEnd(t) == ToNumberEnd(it.Rest())
      decreases |it.chunks|
    {
      var i := NumberEndInBuffer(it);
      Moved(it, [], i);
      if i < it.tail {
        FromNext(it, i);
        EndStep(From(it, i));
        it.head := i;
        return;
      }
      AtTail(it);
      NoNumber();
      var more := it.LoadMore();
      if !more {
        return;
      }
    }
  }

  lemma NoNumber()
    ensures ToNumberEnd([]) == []
  {
  }

  // ---- arrays and objects ----

  /** skipArray and skipObject: the same loop for either kind of bracket. */
  method SkipGroup(it: Iterator, braces: bool)
    requires it.Valid()
    modifies it
    ensures it.Valid() && |it.Rest()| <= |old(it.Rest())|
    ensures old(it.error).NoError? ==> StandsAfter(it, Brackets(old(it.Rest()), 1, braces))
    ensures old(it.error).NoError? && Brackets(old(it.Rest()), 1, braces).NoMatch? ==> !it.error.NoError?
  {
    hide Brackets, Flat;
    ghost var t := it.Rest();
    var level := 1;
    while true
      invariant it.Valid() && |it.Rest()| <= |t| && level > 0
      invariant old(it.error).NoError? ==> CountAt(it, it.Rest(), t, level, braces)
      invariant !old(it.error).NoError? ==> !it.error.NoError?
      decreases |it.chunks|
    {
      level := CountInBuffer(it, t, level, braces);
      if level == 0 {
        return;
      }
      var more := it.LoadMore();
      if !more {
        NoBrackets(level, braces);
        it.ReportError();
        return;
      }
    }
  }

  /** The count so far is right as long as there is no error. */
  ghost predicate CountAt(it: Iterator, u: bytes, t: bytes, level: nat, braces: bool)
    reads it
  {
    Brackets(t, 1, braces) == if it.error.NoError? then Brackets(u, level, braces) else NoMatch
  }

  lemma NoBrackets(level: nat, braces: bool)
    ensures Brackets([], level, braces) == NoMatch
  {
  }

  /** Counting to the end of the buffer, or to where the count is zero; strings may refill the buffer. */
  method CountInBuffer(it: Iterator, ghost t: bytes, start: nat, braces: bool) returns (level: nat)
    requires it.Valid() && start > 0
    modifies it
    ensures it.Valid() && |it.Rest()| <= |old(it.Rest())| && |it.chunks| <= |old(it.chunks)|
    ensures |Flat(it.chunks)| <= |it.Rest()| && (!old(it.error).NoError? ==> !it.error.NoError?)
    ensures old(CountAt(it, it.Rest(), t, start, braces)) ==>
      if level == 0 then Brackets(t, 1, braces) == (if it.error.NoError? then Match(it.Rest()) else NoMatch)
      else CountAt(it, Flat(it.chunks), t, level, braces)
  {
    hide Brackets, Flat, From, StringEnd;
    level := start;
    var i := it.head;
    AtHead(it);
    while i < it.tail
      invariant it.Valid() && it.head <= i <= it.tail && level > 0
      invariant |From(it, i)| <= |it.Rest()| <= |old(it.Rest())| && |it.chunks| <= |old(it.chunks)|
      invariant old(CountAt(it, it.Rest(), t, start, braces)) ==> CountAt(it, From(it, i), t, level, braces)
      invariant !old(it.error).NoError? ==> !it.error.NoError?
      decreases |From(it, i)|
    {
      var c := it.buf[i];
      FromNext(it, i);
      BracketsStep(From(it, i), level, braces);
      if c == QUOTE {
        MoveTo(it, i + 1);
        SkipString(it);
        i := it.head;
        AtHead(it);
      } else if c == Opening(braces) {
        level := level + 1;
        i := i + 1;
      } else if c == Closing(braces) {
        level := level - 1;
        if level == 0 {
          MoveTo(it, i + 1);
          return;
        }
        i := i + 1;
      } else {
        i := i + 1;
      }
    }
    AtTail(it);
    Moved(it, [], it.tail);
  }

  lemma BracketsStep(t: bytes, level: nat, braces: bool)
    requires t != [] && level > 0
    ensures t[0] == QUOTE && StringEnd(t[1..]).NoMatch? ==> Brackets(t, level, braces) == NoMatch
    ensures t[0] == QUOTE && StringEnd(t[1..]).Match? ==>
      Brackets(t, level, braces) == Brackets(StringEnd(t[1..]).rest, level, braces)
    ensures t[0] == Opening(braces) ==> Brackets(t, level, braces) == Brackets(t[1..], level + 1, braces)
    ensures t[0] == Closing(braces) ==>
      Brackets(t, level, braces) == if level == 1 then Match(t[1..]) else Brackets(t[1..], level - 1, braces)
    ensures t[0] != QUOTE && t[0] != Opening(braces) && t[0] != Closing(braces) ==>
      Brackets(t, level, braces) == Brackets(t[1..], level, braces)
  {
  }

  predicate OpensGroup(u: bytes) {
    u != [] && (u[0] == LBRACKET || u[0] == LBRACE)
  }

  /** Where the bracket count of the group at the front of u ends. */
  function GroupEnd(u: bytes): Match
    requires OpensGroup(u)
  {
    Brackets(u[1..], 1, u[0] == LBRACE)
  }

  /** Skip in the bracket-counting build: on every well-formed value the cursor stops right after it. */
  method Skip(it: Iterator, odd: bytes -> bool)
    requires it.Valid()
    modifies it
    ensures it.Valid() && |it.Rest()| <= |old(it.Rest())|
    ensures old(it.error).NoError? ==> StandsAfter(it, ValueRest(old(it.Rest()), Rfc(true)))
    ensures old(it.error).NoError? && OpensGroup(Trim(old(it.Rest()))) ==>
      && StandsAfter(it, GroupEnd(Trim(old(it.Rest()))))
      && (GroupEnd(Trim(old(it.Rest()))).NoMatch? ==> !it.error.NoError?)
  {
    hide ValueRest, GroupRest, Brackets, StringRest, StringEnd, NumberRest, ToNumberEnd, Trim, StandsAfter, Flat,
         WordRest, AfterToken;
    ghost var t := it.Rest();
    ghost var u := Trim(t);
    var c := it.NextToken();
    ValueCases(t, Rfc(true));
    if c == QUOTE {
      if StringRest(it.Rest()).Match? {
        StringEndAgrees(it.Rest());
      }
      SkipString(it);
      Unmatched(it);
    } else if c == LOWER_N {
      SkipWord(it, u, ULL);
    } else if c == LOWER_T {
      SkipWord(it, u, RUE);
    } else if c == LOWER_F {
      SkipWord(it, u, ALSE);
    } else if c == ZERO {
      SkipZero(it, u, odd);
    } else if c == MINUS || IsDigit(c) {
      if u != [] && NumberRest(u, Rfc(true)).Match? {
        NumberEnds(u, true);
      }
      SkipNumber(it);
      Unmatched(it);
    } else if c == LBRACKET || c == LBRACE {
      if GroupRest(it.Rest(), c == LBRACE, Rfc(true)).Match? {
        CountFindsEnd(it.Rest(), c == LBRACE, Rfc(true));
      }
      SkipGroup(it, c == LBRACE);
      Unmatched(it);
    } else {
      it.ReportError();
      Unmatched(it);
    }
  }

  lemma Unmatched(it: Iterator)
    requires it.Valid()
    ensures StandsAfter(it, NoMatch)
  {
  }

  /** A number that starts with a zero is read as a float32. */
  method SkipZero(it: Iterator, ghost u: bytes, odd: bytes -> bool)
    requires it.Valid() && (it.error.NoError? ==> it.head > 0)
    modifies it
    ensures it.Valid()
    ensures old(it.error).NoError? ==> |it.Rest()| <= |old(it.Rest())| + 1
    ensures !old(it.error).NoError? ==> |it.Rest()| <= |old(it.Rest())| && !it.error.NoError?
    ensures old(it.error).Failure? ==> it.error.Failure?
    ensures old(it.error).NoError? && u != [] && u[0] == ZERO == old(it.buf[it.head - 1]) && u[1..] == old(it.Rest()) ==>
      && StandsAfter(it, NumberRest(u, Rfc(true))) && StandsAfter(it, NumberRest(u, Rfc(false)))
      && (it.error.NoError? ==> NumberRest(u, Lenient) == Match(it.Rest()))
      && (it.error.EndOfInput? ==> AfterNumber(it.Rest()) == [])
  {
    hide UnsignedRest, Trim, TooBig, Flat, AfterNumber, AfterToken, NumberRest, Unsigned;
    if u != [] && u[0] == ZERO {
      ZeroNumber(u, true);
      ZeroNumber(u, false);
      assert u == [ZERO] + u[1..];
    }
    it.UnreadByte();
    ReadFloat(it, FLOAT32_LIMIT, odd);
  }

  const RUE: bytes := [114, 117, 101]
  const ALSE: bytes := [97, 108, 115, 101]

  /** skipThreeBytes and skipFourBytes after the first letter of a word. */
  method SkipWord(it: Iterator, ghost u: bytes, w: bytes)
    requires it.Valid() && NUL !in w
    modifies it
    ensures it.Valid() && |it.Rest()| <= |old(it.Rest())|
    ensures old(it.error).Failure? ==> it.error.Failure?
    ensures old(it.error).NoError? && u != [] && u[1..] == old(it.Rest()) ==>
      && (it.error.NoError? <==> WordRest(u, [u[0]] + w).Match?) && !it.error.EndOfInput?
      && StandsAfter(it, WordRest(u, [u[0]] + w))
  {
    if u != [] {
      FirstLetter(u, w);
    }
    SkipBytes(it, w);
  }

  lemma FirstLetter(u: bytes, w: bytes)
    requires u != []
    ensures WordRest(u, [u[0]] + w).Match? <==> StartsWith(u[1..], w)
    ensures StartsWith(u[1..], w) ==> WordRest(u, [u[0]] + w).rest == u[1..][|w|..]
  {
    var v := [u[0]] + w;
    assert v[1..] == w;
    if |w| < |u| {
      assert u[..|w| + 1] == [u[0]] + u[1..][..|w|];
      assert u[1..][|w|..] == u[|w| + 1..];
    }
  }

  lemma ValueCases(t: bytes, m: Mode)
    ensures var u := Trim(t);
      if u == [] then ValueRest(t, m).NoMatch?
      else if u[0] == QUOTE then ValueRest(t, m) == TextRest(u[1..], m)
      else if u[0] == LOWER_N then ValueRest(t, m) == WordRest(u, [u[0]] + ULL)
      else if u[0] == LOWER_T then ValueRest(t, m) == WordRest(u, [u[0]] + RUE)
      else if u[0] == LOWER_F then ValueRest(t, m) == WordRest(u, [u[0]] + ALSE)
      else if u[0] == MINUS || IsDigit(u[0]) then ValueRest(t, m) == NumberRest(u, m)
      else if u[0] == LBRACKET || u[0] == LBRACE then ValueRest(t, m) == GroupRest(u[1..], u[0] == LBRACE, m)
      else ValueRest(t, m).NoMatch?
  {
    hide TextRest, GroupRest, NumberRest, Trim;
    assert NULL == [LOWER_N] + ULL && TRUE == [LOWER_T] + RUE && FALSE == [LOWER_F] + ALSE;
  }

  /** A number that starts with a zero is below every limit. */
  lemma ZeroNumber(u: bytes, big: bool)
    requires u != [] && u[0] == ZERO
    ensures Trim(u) == u && Unsigned(u) == u
    ensures UnsignedRest(u).Match? ==> !TooBig(u, FLOAT32_LIMIT) && !TooBig(u, FLOAT64_LIMIT)
    ensures NumberRest(u, Rfc(big)) == UnsignedRest(u)
    ensures NumberRest(u, Lenient) == if AfterNumber(u) == [] then NoMatch else Match(AfterNumber(u))
  {
    LimitsPositive();
    hide Pow2;
    assert IntegerPart(u) == [ZERO];
    assert Decimal.Value([ZERO]) == 10 * Decimal.Value([ZERO][..0]) + 0;
    assert [ZERO][..0] == [];
    assert Decimal.Value([]) == 0;
  }

  lemma LimitsPositive()
    ensures FLOAT32_LIMIT >= 10 && FLOAT64_LIMIT >= 10
  {
    hide Pow2;
    Pow2Grows(103, 4, 128);
    Pow2Grows(970, 4, 1024);
    assert Pow2(4) == 16 by { SixteenIs(); }
  }

  lemma SixteenIs()
    ensures Pow2(4) == 16
  {
    assert Pow2(2) == 4;
    assert Pow2(3) == 8;
  }

  lemma Pow2Grows(n: nat, k: nat, m: nat)
    requires k <= n < m
    ensures Pow2(m) - Pow2(n) >= Pow2(k)
  {
    Pow2Monotone(k, n);
    Pow2Monotone(n + 1, m);
  }

  lemma {:induction false} Pow2Monotone(n: nat, m: nat)
    requires n <= m
    ensures Pow2(n) <= Pow2(m)
    decreases m - n
  {
    if n < m {
      Pow2Monotone(n, m - 1);
    }
  }
}
