/** scanFields on printed fields: it accepts them and stops exactly at their end. */
module FieldRoundTrip {
  import opened Bytes
  import opened Decimal
  import opened Escape
  import opened Fields

  /** buf holds t at position p. */
  predicate Holds(buf: bytes, p: nat, t: bytes) {
    p + |t| <= |buf| && buf[p..p + |t|] == t
  }

  lemma HoldsAt(buf: bytes, p: nat, t: bytes, k: nat)
    requires Holds(buf, p, t) && k < |t|
    ensures p + |t| <= |buf| && buf[p + k] == t[k]
  {
    assert buf[p..p + |t|][k] == t[k];
  }

  lemma HoldsSlice(buf: bytes, p: nat, t: bytes)
    requires Holds(buf, p, t)
    ensures p + |t| <= |buf| && buf[p..p + |t|] == t
  {
  }

  lemma HoldsParts(buf: bytes, p: nat, a: bytes, b: bytes)
    requires Holds(buf, p, a + b)
    ensures p + |a| + |b| <= |buf|
    ensures Holds(buf, p, a) && Holds(buf, p + |a|, b)
  {
    var whole := buf[p..p + |a + b|];
    assert whole[..|a|] == a && whole[|a|..] == b;
    assert buf[p..p + |a|] == whole[..|a|];
    assert buf[p + |a|..p + |a| + |b|] == whole[|a|..];
  }

  /** A value ends at the end of the line or before a ',' or a ' '. */
  predicate Delimited(buf: bytes, q: nat) {
    q == |buf| || (q < |buf| && (buf[q] == COMMA || buf[q] == SPACE))
  }

  /** Values that the printer can produce and the parser is willing to take. */
  predicate ValueOk(v: Value, o: Options) {
    match v
    case Float(negative, whole, decimals) =>
      && whole != [] && AllDigits(whole) && AllDigits(decimals)
      && !o.badFloat(FloatText(negative, whole, decimals))
    case Unsigned(u) => o.uintSupport && u < UINT64
    case _ => true
  }

  predicate FieldOk(f: Field, o: Options) {
    f.key != [] && !Open(f.key) && ValueOk(f.value, o)
  }

  /** The scanner goes over a key by pairs of a backslash and a byte; none of the pairs may free a special byte. */
  predicate ScanOk(f: Field, o: Options) {
    FieldOk(f, o) && PairSafe(f.key, KEY_CODES)
  }

  // ---- numbers ----

  lemma {:induction false} DigitsRun(buf: bytes, start: nat, i: nat, j: nat, seen: Seen)
    requires start <= i <= j <= |buf| && forall n :: i <= n < j ==> IsDigit(buf[n])
    ensures NumberRun(buf, start, i, seen) == NumberRun(buf, start, j, seen)
    decreases j - i
  {
    if i < j {
      DigitsRun(buf, start, i + 1, j, seen);
    }
  }

  lemma DigitsAt(buf: bytes, p: nat, t: bytes)
    requires Holds(buf, p, t) && AllDigits(t)
    ensures forall n :: p <= n < p + |t| ==> IsDigit(buf[n])
  {
    forall n | p <= n < p + |t| ensures IsDigit(buf[n]) {
      HoldsAt(buf, p, t, n - p);
    }
  }

  const NOTHING: Seen := Seen(false, false, false, false)

  /** A sign and digits, then the suffix of an integer. */
  lemma SuffixedRun(buf: bytes, start: nat, p: nat, digits: bytes, suffix: byte)
    requires start <= p && Holds(buf, p, digits + [suffix]) && digits != [] && AllDigits(digits)
    requires suffix == LOWER_I || suffix == LOWER_U
    requires Delimited(buf, p + |digits| + 1)
    ensures NumberRun(buf, start, p, NOTHING) == Run(p + |digits| + 1, Seen(suffix == LOWER_I, suffix == LOWER_U, false, false))
  {
    HoldsParts(buf, p, digits, [suffix]);
    DigitsAt(buf, p, digits);
    DigitsRun(buf, start, p, p + |digits|, NOTHING);
    HoldsAt(buf, p + |digits|, [suffix], 0);
  }

  lemma IntegerEnd(buf: bytes, p: nat, i: int64, o: Options)
    requires Holds(buf, p, FormatInt(i) + [LOWER_I])
    requires Delimited(buf, p + |FormatInt(i)| + 1)
    ensures NumberEnd(buf, p, o) == At(p + |FormatInt(i)| + 1)
    ensures IsNumeric(buf[p]) || buf[p] == MINUS
  {
    hide NumberRun, FormatInt, NumberAccepted, Holds, Delimited;
    var t := FormatInt(i);
    HoldsParts(buf, p, t, [LOWER_I]);
    IntegerShape(i);
    HoldsAt(buf, p, t, 0);
    HoldsAt(buf, p + |t|, [LOWER_I], 0);
    IntegerRun(buf, p, i);
    HoldsSlice(buf, p, t);
    IntegerAccepted(buf, p, p + |t| + 1, i, o);
  }

  lemma IntegerRun(buf: bytes, p: nat, i: int64)
    requires Holds(buf, p, FormatInt(i) + [LOWER_I])
    requires Delimited(buf, p + |FormatInt(i)| + 1)
    ensures NumberRun(buf, p, if i < 0 then p + 1 else p, NOTHING) ==
            Run(p + |FormatInt(i)| + 1, Seen(true, false, false, false))
  {
    hide NumberRun, FormatInt, Holds, Delimited;
    var t := FormatInt(i);
    IntegerShape(i);
    if i < 0 {
      Associate([MINUS], t[1..], [LOWER_I]);
      HoldsParts(buf, p, [MINUS], t[1..] + [LOWER_I]);
      SuffixedRun(buf, p, p + 1, t[1..], LOWER_I);
    } else {
      SuffixedRun(buf, p, p, t, LOWER_I);
    }
  }

  lemma IntegerAccepted(buf: bytes, p: nat, q: nat, i: int64, o: Options)
    requires p < q - 1 && q <= |buf| && buf[p..q - 1] == FormatInt(i) && buf[q - 1] == LOWER_I
    requires i < 0 ==> q - 1 - p >= 2
    requires buf[p] == MINUS <==> i < 0
    ensures NumberAccepted(buf, p, q, Seen(true, false, false, false), o)
  {
    hide ParseInt, FormatInt;
    FormatParse(i);
  }

  lemma IntegerShape(i: int64)
    ensures var t := FormatInt(i);
      if i < 0 then |t| >= 2 && t == [MINUS] + t[1..] && AllDigits(t[1..]) else AllDigits(t) && t[0] != MINUS
  {
    FormatParse(i);
  }

  lemma UnsignedEnd(buf: bytes, p: nat, u: nat, o: Options)
    requires Holds(buf, p, Numeral(u) + [LOWER_U]) && o.uintSupport && u < UINT64
    requires Delimited(buf, p + |Numeral(u)| + 1)
    ensures NumberEnd(buf, p, o) == At(p + |Numeral(u)| + 1)
    ensures IsNumeric(buf[p])
  {
    hide NumberRun, Numeral, Decimal.Value;
    var t := Numeral(u);
    NumeralValue(u);
    HoldsParts(buf, p, t, [LOWER_U]);
    HoldsAt(buf, p, t, 0);
    HoldsAt(buf, p + |t|, [LOWER_U], 0);
    SuffixedRun(buf, p, p, t, LOWER_U);
    assert buf[p..p + |t|] == t;
  }

  /** Digits, then optionally a dot and digits. */
  lemma FloatRun(buf: bytes, start: nat, p: nat, whole: bytes, decimals: bytes)
    requires start <= p && whole != [] && AllDigits(whole) && AllDigits(decimals)
    requires Holds(buf, p, whole + (if decimals == [] then [] else [DOT] + decimals))
    requires Delimited(buf, p + |whole| + (if decimals == [] then 0 else 1 + |decimals|))
    ensures NumberRun(buf, start, p, NOTHING) ==
            Run(p + |whole| + (if decimals == [] then 0 else 1 + |decimals|), NOTHING.(decimal := decimals != []))
  {
    hide NumberRun, Holds;
    var tail := if decimals == [] then [] else [DOT] + decimals;
    HoldsParts(buf, p, whole, tail);
    DigitsAt(buf, p, whole);
    var q := p + |whole|;
    DigitsRun(buf, start, p, q, NOTHING);
    if decimals == [] {
      RunStops(buf, start, q, NOTHING);
    } else {
      var dotted := NOTHING.(decimal := true);
      HoldsParts(buf, q, [DOT], decimals);
      HoldsAt(buf, q, [DOT], 0);
      DigitsAt(buf, q + 1, decimals);
      RunPassesDot(buf, start, q);
      DigitsRun(buf, start, q + 1, q + 1 + |decimals|, dotted);
      RunStops(buf, start, q + 1 + |decimals|, dotted);
    }
  }

  lemma RunStops(buf: bytes, start: nat, q: nat, seen: Seen)
    requires start <= q && Delimited(buf, q)
    ensures NumberRun(buf, start, q, seen) == Run(q, seen)
  {
  }

  lemma RunPassesDot(buf: bytes, start: nat, q: nat)
    requires start <= q < |buf| && buf[q] == DOT
    ensures NumberRun(buf, start, q, NOTHING) == NumberRun(buf, start, q + 1, NOTHING.(decimal := true))
  {
  }

  lemma FloatEnd(buf: bytes, p: nat, v: Value, o: Options)
    requires v.Float? && ValueOk(v, o) && Holds(buf, p, ValueText(v))
    requires Delimited(buf, p + |ValueText(v)|)
    ensures NumberEnd(buf, p, o) == At(p + |ValueText(v)|)
    ensures IsNumeric(buf[p]) || buf[p] == MINUS
  {
    hide NumberRun, NumberAccepted, Holds, ValueText, Delimited;
    var t := ValueText(v);
    var sign := if v.negative then [MINUS] else [];
    var tail := if v.decimals == [] then [] else [DOT] + v.decimals;
    FloatParts(v, sign, tail);
    HoldsParts(buf, p, sign, v.whole + tail);
    HoldsAt(buf, p, t, 0);
    FloatRun(buf, p, p + |sign|, v.whole, v.decimals);
    HoldsSlice(buf, p, t);
    FloatAccepted(buf, p, p + |t|, v.decimals != [], o);
  }

  lemma FloatParts(v: Value, sign: bytes, tail: bytes)
    requires v.Float? && v.whole != [] && AllDigits(v.whole)
    requires sign == (if v.negative then [MINUS] else []) && tail == if v.decimals == [] then [] else [DOT] + v.decimals
    ensures ValueText(v) == sign + (v.whole + tail) && ValueText(v) == FloatText(v.negative, v.whole, v.decimals)
    ensures |ValueText(v)| == |sign| + |v.whole| + |tail|
    ensures ValueText(v)[0] == if v.negative then MINUS else v.whole[0]
  {
  }

  lemma FloatAccepted(buf: bytes, p: nat, q: nat, dotted: bool, o: Options)
    requires p < q <= |buf| && !o.badFloat(buf[p..q])
    requires q - p > (if dotted then 1 else 0) + (if buf[p] == MINUS then 1 else 0)
    ensures NumberAccepted(buf, p, q, NOTHING.(decimal := dotted), o)
  {
  }

  lemma {:induction false} WordEnd(buf: bytes, i: nat, q: nat)
    requires i <= q && Delimited(buf, q)
    requires forall n :: i <= n < q ==> buf[n] != COMMA && buf[n] != SPACE
    ensures NextDelimiter(buf, i) == q
    decreases q - i
  {
    if i < q {
      WordEnd(buf, i + 1, q);
    }
  }

  lemma BooleanWordEnd(buf: bytes, p: nat, b: bool)
    requires Holds(buf, p, ValueText(Boolean(b))) && Delimited(buf, p + |ValueText(Boolean(b))|)
    ensures BooleanEnd(buf, p) == At(p + |ValueText(Boolean(b))|)
    ensures buf[p] == if b then LOWER_T else LOWER_F
  {
    hide NextDelimiter;
    var t := ValueText(Boolean(b));
    forall n | p <= n < p + |t| ensures buf[n] != COMMA && buf[n] != SPACE {
      HoldsAt(buf, p, t, n - p);
      assert t[n - p] in t;
    }
    HoldsAt(buf, p, t, 0);
    WordEnd(buf, p + 1, p + |t|);
  }

  // ---- strings and keys ----

  /** Inside quotes only an unescaped quote matters, and escaping leaves none. */
  lemma {:induction false} StringRun(buf: bytes, p: nat, s: bytes, st: State, o: Options)
    requires p >= 2 && Holds(buf, p, Escaped(s, STRING_CODES)) && p + |Escaped(s, STRING_CODES)| < |buf|
    requires st.quoted && st.equals > st.commas
    ensures FieldsFrom(buf, p, st, o) == FieldsFrom(buf, p + |Escaped(s, STRING_CODES)|, st, o)
    decreases |s|
  {
    if s != [] {
      var head := if s[0] in STRING_CODES then [BACKSLASH, s[0]] else [s[0]];
      HoldsParts(buf, p, head, Escaped(s[1..], STRING_CODES));
      StringRun(buf, p + |head|, s[1..], st, o);
      HoldsAt(buf, p, head, 0);
    }
  }

  /** A field key is passed over: its special bytes are escaped, and its own backslashes free none of them. */
  lemma {:induction false} KeyRun(buf: bytes, p: nat, k: bytes, st: State, o: Options)
    requires p >= 2 && Holds(buf, p, Escaped(k, KEY_CODES)) && p + |Escaped(k, KEY_CODES)| < |buf|
    requires PairSafe(k, KEY_CODES) && !st.quoted && st.equals == st.commas
    ensures FieldsFrom(buf, p, st, o) == FieldsFrom(buf, p + |Escaped(k, KEY_CODES)|, st, o)
    decreases |k|
  {
    hide FieldsFrom, Escaped, PairSafe, Holds;
    if k == [] {
      EscapedNothing(KEY_CODES);
    } else {
      var head, rest := EscapedPair(k, KEY_CODES);
      HoldsParts(buf, p, head, Escaped(rest, KEY_CODES));
      KeyRun(buf, p + |head|, rest, st, o);
      HoldsAt(buf, p, head, 0);
      KeyByte(buf, p, |head|, st, o);
    }
  }

  lemma KeyByte(buf: bytes, p: nat, n: nat, st: State, o: Options)
    requires 2 <= p && p + n < |buf| && !st.quoted && st.equals == st.commas
    requires if n == 2 then buf[p] == BACKSLASH else n == 1 && buf[p] != BACKSLASH && buf[p] !in KEY_CODES
    ensures FieldsFrom(buf, p, st, o) == FieldsFrom(buf, p + n, st, o)
  {
    hide PlainValueEnd;
  }

  /** The '=' after a printed key is not taken for one without a key. */
  lemma {:induction false} KeyBeforeEquals(k: bytes)
    requires k != []
    ensures var e := Escaped(k, KEY_CODES);
      e != [] && (e[|e| - 1] in KEY_CODES ==> |e| >= 2 && e[|e| - 2] == BACKSLASH)
  {
    if |k| > 1 {
      KeyBeforeEquals(k[1..]);
    } else {
      assert k[1..] == [];
      EscapedNothing(KEY_CODES);
    }
  }

  /** A value is read from its '=' to its end, whatever its type. */
  lemma ValueStep(buf: bytes, i: nat, v: Value, n: nat, o: Options)
    requires 2 <= i < |buf| && buf[i] == EQUALS && Holds(buf, i + 1, ValueText(v)) && ValueOk(v, o)
    requires Delimited(buf, i + 1 + |ValueText(v)|)
    requires (buf[i - 1] == SPACE || buf[i - 1] == COMMA) ==> buf[i - 2] == BACKSLASH
    ensures FieldsFrom(buf, i, State(false, n, n), o) ==
            FieldsFrom(buf, i + 1 + |ValueText(v)|, State(false, n + 1, n), o)
  {
    hide PlainValueEnd, ValueText, ValueOk, FieldsFrom, Holds, Delimited;
    if v.Text? {
      StringStep(buf, i, v.s, n, o);
    } else {
      PlainStep(buf, i + 1, v, o);
      PlainFields(buf, i, i + 1 + |ValueText(v)|, n, o);
    }
  }

  lemma PlainStep(buf: bytes, p: nat, v: Value, o: Options)
    requires !v.Text? && ValueOk(v, o) && Holds(buf, p, ValueText(v)) && Delimited(buf, p + |ValueText(v)|)
    ensures p < |buf| && PlainValueEnd(buf, p, o) == At(p + |ValueText(v)|)
    ensures buf[p] != QUOTE && buf[p] != COMMA && buf[p] != SPACE
  {
    hide NumberEnd, BooleanEnd;
    match v {
      case Integer(i) => IntegerEnd(buf, p, i, o);
      case Unsigned(u) => UnsignedEnd(buf, p, u, o);
      case Boolean(b) => BooleanWordEnd(buf, p, b);
      case Float(_, _, _) => FloatEnd(buf, p, v, o);
    }
  }

  lemma PlainFields(buf: bytes, i: nat, q: nat, n: nat, o: Options)
    requires 2 <= i && i + 1 < |buf| && buf[i] == EQUALS
    requires buf[i + 1] != QUOTE && buf[i + 1] != COMMA && buf[i + 1] != SPACE
    requires (buf[i - 1] == SPACE || buf[i - 1] == COMMA) ==> buf[i - 2] == BACKSLASH
    requires PlainValueEnd(buf, i + 1, o) == At(q)
    ensures FieldsFrom(buf, i, State(false, n, n), o) == FieldsFrom(buf, q, State(false, n + 1, n), o)
  {
    hide PlainValueEnd;
  }

  lemma QuotedText(s: bytes)
    ensures ValueText(Text(s)) == [QUOTE] + (Escaped(s, STRING_CODES) + [QUOTE])
  {
    hide Escaped;
  }

  lemma StringStep(buf: bytes, i: nat, s: bytes, n: nat, o: Options)
    requires 2 <= i < |buf| && buf[i] == EQUALS && Holds(buf, i + 1, ValueText(Text(s)))
    requires (buf[i - 1] == SPACE || buf[i - 1] == COMMA) ==> buf[i - 2] == BACKSLASH
    ensures FieldsFrom(buf, i, State(false, n, n), o) ==
            FieldsFrom(buf, i + 1 + |ValueText(Text(s))|, State(false, n + 1, n), o)
  {
    hide PlainValueEnd, Escaped, Holds, ValueText;
    var body := Escaped(s, STRING_CODES);
    QuotedText(s);
    HoldsParts(buf, i + 1, [QUOTE], body + [QUOTE]);
    HoldsParts(buf, i + 2, body, [QUOTE]);
    HoldsAt(buf, i + 1, [QUOTE], 0);
    HoldsAt(buf, i + 2 + |body|, [QUOTE], 0);
    StringRun(buf, i + 2, s, State(true, n + 1, n), o);
  }

  lemma FieldStep(buf: bytes, p: nat, f: Field, n: nat, o: Options)
    requires p >= 2 && Holds(buf, p, FieldText(f)) && ScanOk(f, o) && Delimited(buf, p + |FieldText(f)|)
    ensures FieldsFrom(buf, p, State(false, n, n), o) == FieldsFrom(buf, p + |FieldText(f)|, State(false, n + 1, n), o)
  {
    hide FieldsFrom, Escaped, PairSafe, ValueText, ValueOk, Holds;
    var k, v := Escaped(f.key, KEY_CODES), ValueText(f.value);
    HoldsParts(buf, p, k, [EQUALS] + v);
    HoldsParts(buf, p + |k|, [EQUALS], v);
    HoldsAt(buf, p + |k|, [EQUALS], 0);
    KeyRun(buf, p, f.key, State(false, n, n), o);
    KeyBeforeEquals(f.key);
    HoldsAt(buf, p, k, |k| - 1);
    if |k| >= 2 {
      HoldsAt(buf, p, k, |k| - 2);
    }
    ValueStep(buf, p + |k|, f.value, n, o);
  }

  /**
   scanFields accepts every printed list of fields, string values with any bytes in them included,
   and stops right after it.
   */
  lemma {:induction false} PrintedFieldsScan(buf: bytes, p: nat, fields: seq<Field>, n: nat, o: Options)
    requires p >= 2 && fields != [] && Holds(buf, p, FieldsText(fields))
    requires forall i :: 0 <= i < |fields| ==> ScanOk(fields[i], o)
    requires var q := p + |FieldsText(fields)|; q == |buf| || buf[q] == SPACE
    ensures FieldsFrom(buf, p, State(false, n, n), o) == FieldsEnd(p + |FieldsText(fields)|)
    decreases |fields|
  {
    hide FieldText, ScanOk, FieldsFrom, FieldsText;
    FieldsTextCons(fields);
    var f := FieldText(fields[0]);
    if |fields| == 1 {
      FieldStep(buf, p, fields[0], n, o);
      AtEnd(buf, p + |f|, n, o);
    } else {
      HoldsParts(buf, p, f, [COMMA] + FieldsText(fields[1..]));
      HoldsParts(buf, p + |f|, [COMMA], FieldsText(fields[1..]));
      HoldsAt(buf, p + |f|, [COMMA], 0);
      FieldStep(buf, p, fields[0], n, o);
      AtComma(buf, p + |f|, n, o);
      PrintedFieldsScan(buf, p + |f| + 1, fields[1..], n + 1, o);
    }
  }

  lemma FieldsTextCons(fields: seq<Field>)
    requires fields != []
    ensures FieldsText(fields) ==
            if |fields| == 1 then FieldText(fields[0]) else FieldText(fields[0]) + ([COMMA] + FieldsText(fields[1..]))
  {
  }

  lemma AtEnd(buf: bytes, q: nat, n: nat, o: Options)
    requires 2 <= q <= |buf| && (q == |buf| || buf[q] == SPACE)
    ensures FieldsFrom(buf, q, State(false, n + 1, n), o) == FieldsEnd(q)
  {
  }

  lemma AtComma(buf: bytes, q: nat, n: nat, o: Options)
    requires 2 <= q < |buf| && buf[q] == COMMA
    ensures FieldsFrom(buf, q, State(false, n + 1, n), o) == FieldsFrom(buf, q + 1, State(false, n + 1, n + 1), o)
  {
  }

  // ---- keys that are not safe ----

  const COMMA_KEY: bytes := [BACKSLASH, COMMA]
  const QUOTE_KEY: bytes := [BACKSLASH, QUOTE]

  lemma UnsafeKeys()
    ensures Escaped(COMMA_KEY, KEY_CODES) == [BACKSLASH, BACKSLASH, COMMA] && !PairSafe(COMMA_KEY, KEY_CODES)
    ensures Escaped(QUOTE_KEY, KEY_CODES) == [BACKSLASH, BACKSLASH, QUOTE] && !PairSafe(QUOTE_KEY, KEY_CODES)
  {
    EscapedNothing(KEY_CODES);
    assert COMMA_KEY[1..] == [COMMA] && [COMMA][1..] == [];
    assert QUOTE_KEY[1..] == [QUOTE] && [QUOTE][1..] == [];
    assert Escaped([COMMA], KEY_CODES) == [BACKSLASH, COMMA];
    assert Escaped([QUOTE], KEY_CODES) == [BACKSLASH, QUOTE];
  }

  lemma TrueText(key: bytes)
    ensures FieldText(Field(key, Boolean(true))) == Escaped(key, KEY_CODES) + [EQUALS] + LOWER_TRUE
  {
    hide Escaped;
  }

  /** A printed key in which a backslash stands before a comma: the scanner takes the comma for a delimiter. */
  lemma UnsafeKeyRefused(o: Options)
    ensures FieldsFrom([109, SPACE] + FieldsText([Field(COMMA_KEY, Boolean(true))]), 2, State(false, 0, 0), o) == FieldError
  {
    hide NumberEnd, BooleanEnd;
    UnsafeKeys();
    TrueText(COMMA_KEY);
    var t := FieldsText([Field(COMMA_KEY, Boolean(true))]);
    assert t == [BACKSLASH, BACKSLASH, COMMA, EQUALS] + LOWER_TRUE;
    var buf := [109, SPACE] + t;
    assert PlainValueEnd(buf, 6, o) == At(10) by {
      BooleanWordEnd(buf, 6, true);
    }
    assert FieldsFrom(buf, 10, State(false, 1, 1), o) == FieldError;
    assert FieldsFrom(buf, 5, State(false, 0, 1), o) == FieldError;
  }

  /** Three fields whose unsafe keys make up for each other. */
  const CANCELLING: seq<Field> :=
    [Field(COMMA_KEY, Text([122, EQUALS])), Field(QUOTE_KEY, Boolean(true)), Field(COMMA_KEY, Boolean(true))]

  /** The line m \\,="z=",\\"=true,\\,=true */
  const CANCELLED: bytes := [
    109, SPACE, BACKSLASH, BACKSLASH, COMMA, EQUALS, QUOTE, 122, EQUALS, QUOTE, COMMA, BACKSLASH, BACKSLASH, QUOTE,
    EQUALS, 116, 114, 117, 101, COMMA, BACKSLASH, BACKSLASH, COMMA, EQUALS, 116, 114, 117, 101]

  lemma CancelledText()
    ensures [109, SPACE] + FieldsText(CANCELLING) == CANCELLED
  {
    hide FieldText, FieldsText;
    CancelledFields();
    FieldsTextCons(CANCELLING);
    FieldsTextCons(CANCELLING[1..]);
    FieldsTextCons(CANCELLING[2..]);
    assert CANCELLING[1..][1..] == CANCELLING[2..];
    CancelledParts();
  }

  const CANCELLED_PARTS: seq<bytes> := [
    [BACKSLASH, BACKSLASH, COMMA, EQUALS, QUOTE, 122, EQUALS, QUOTE],
    [BACKSLASH, BACKSLASH, QUOTE, EQUALS, 116, 114, 117, 101],
    [BACKSLASH, BACKSLASH, COMMA, EQUALS, 116, 114, 117, 101]]

  lemma CancelledFields()
    ensures FieldText(CANCELLING[0]) == CANCELLED_PARTS[0]
    ensures FieldText(CANCELLING[1]) == CANCELLED_PARTS[1]
    ensures FieldText(CANCELLING[2]) == CANCELLED_PARTS[2]
  {
    hide Escaped, FieldText;
    UnsafeKeys();
    EscapedAbsent([122, EQUALS], STRING_CODES);
    TrueText(QUOTE_KEY);
    TrueText(COMMA_KEY);
    TextFieldText(COMMA_KEY, [122, EQUALS]);
  }

  lemma CancelledParts()
    ensures var p := CANCELLED_PARTS; [109, SPACE] + (p[0] + ([COMMA] + (p[1] + ([COMMA] + p[2])))) == CANCELLED
  {
  }

  lemma TextFieldText(key: bytes, s: bytes)
    ensures FieldText(Field(key, Text(s))) == Escaped(key, KEY_CODES) + [EQUALS] + ([QUOTE] + Escaped(s, STRING_CODES) + [QUOTE])
  {
    hide Escaped;
  }

  /** Safe keys are enough but not necessary: the scanner accepts these fields with three keys that are not safe. */
  lemma UnsafeKeysAccepted(o: Options)
    ensures var buf := [109, SPACE] + FieldsText(CANCELLING);
      FieldsFrom(buf, 2, State(false, 0, 0), o) == FieldsEnd(|buf|)
    ensures forall i :: 0 <= i < |CANCELLING| ==> !ScanOk(CANCELLING[i], o)
  {
    hide FieldsFrom, FieldsText, FieldOk, PairSafe;
    UnsafeKeys();
    CancelledText();
    CancelledLast(o);
    CancelledFirst(o);
  }

  lemma TrueAt(buf: bytes, p: nat)
    requires p + 4 <= |buf| && buf[p] == 116 && buf[p + 1] == 114 && buf[p + 2] == 117 && buf[p + 3] == 101
    requires Delimited(buf, p + 4)
    ensures BooleanEnd(buf, p) == At(p + 4)
  {
    hide BooleanEnd;
    assert buf[p..p + 4] == LOWER_TRUE;
    BooleanWordEnd(buf, p, true);
  }

  lemma CancelledLast(o: Options)
    ensures FieldsFrom(CANCELLED, 14, State(false, 2, 1), o) == FieldsEnd(28)
  {
    hide NumberEnd, BooleanEnd;
    TrueAt(CANCELLED, 15);
    TrueAt(CANCELLED, 24);
    assert FieldsFrom(CANCELLED, 23, State(false, 3, 3), o) == FieldsEnd(28);
    assert FieldsFrom(CANCELLED, 20, State(false, 3, 2), o) == FieldsEnd(28);
  }

  lemma CancelledFirst(o: Options)
    requires FieldsFrom(CANCELLED, 14, State(false, 2, 1), o) == FieldsEnd(28)
    ensures FieldsFrom(CANCELLED, 2, State(false, 0, 0), o) == FieldsEnd(28)
  {
    hide NumberEnd, BooleanEnd;
    assert FieldsFrom(CANCELLED, 11, State(true, 2, 1), o) == FieldsEnd(28);
    assert FieldsFrom(CANCELLED, 9, State(false, 2, 1), o) == FieldsEnd(28);
    assert FieldsFrom(CANCELLED, 7, State(false, 1, 1), o) == FieldsEnd(28);
    assert FieldsFrom(CANCELLED, 5, State(false, 0, 1), o) == FieldsEnd(28);
  }
}
