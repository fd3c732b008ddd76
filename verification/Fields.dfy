/** The fields of a point: how they are printed, and how scanFields finds their end in a line. */
module Fields {
  import opened Bytes
  import opened Decimal
  import opened Escape
  import opened Scan


  const LOWER_TRUE: bytes := [116, 114, 117, 101]
  const LOWER_FALSE: bytes := [102, 97, 108, 115, 101]
  const UPPER_TRUE: bytes := [84, 82, 85, 69]
  const UPPER_FALSE: bytes := [70, 65, 76, 83, 69]
  const TITLE_TRUE: bytes := [84, 114, 117, 101]
  const TITLE_FALSE: bytes := [70, 97, 108, 115, 101]

  /** What the parser depends on: whether uint64 is enabled, and which texts strconv.ParseFloat refuses. */
  datatype Options = Options(uintSupport: bool, badFloat: bytes -> bool)

  // ---- printing ----

  /** A float is the text that strconv.AppendFloat(v, 'f', -1) prints: sign, digits, optional decimals. */
  datatype Value =
    | Float(negative: bool, whole: bytes, decimals: bytes)
    | Integer(i: int64)
    | Unsigned(u: nat)
    | Text(s: bytes)
    | Boolean(b: bool)

  datatype Field = Field(key: bytes, value: Value)

  const KEY_CODES: set<byte> := {COMMA, QUOTE, SPACE, EQUALS}
  const STRING_CODES: set<byte> := {QUOTE, BACKSLASH}

  function FloatText(negative: bool, whole: bytes, decimals: bytes): bytes {
    (if negative then [MINUS] else []) + (whole + (if decimals == [] then [] else [DOT] + decimals))
  }

  function ValueText(v: Value): bytes {
    match v
    case Float(negative, whole, decimals) => FloatText(negative, whole, decimals)
    case Integer(i) => FormatInt(i) + [LOWER_I]
    case Unsigned(u) => Numeral(u) + [LOWER_U]
    case Text(s) => [QUOTE] + (Escaped(s, STRING_CODES) + [QUOTE])
    case Boolean(b) => if b then LOWER_TRUE else LOWER_FALSE
  }

  function FieldText(f: Field): bytes {
    Escaped(f.key, KEY_CODES) + ([EQUALS] + ValueText(f.value))
  }

  /** Fields.MarshalBinary for fields in key order: separated by commas. */
  function FieldsText(fields: seq<Field>): bytes {
    if fields == [] then []
    else if |fields| == 1 then FieldText(fields[0])
    else FieldText(fields[0]) + ([COMMA] + FieldsText(fields[1..]))
  }

  method AppendField(b: bytes, f: Field) returns (out: bytes)
    ensures out == b + FieldText(f)
  {
    hide Escaped, FormatInt, Numeral, FloatText;
    out := b + Escaped(f.key, KEY_CODES);
    out := out + [EQUALS];
    ghost var keyed := out;
    match f.value {
      case Float(negative, whole, decimals) => out := out + FloatText(negative, whole, decimals);
      case Integer(i) => out := out + FormatInt(i); out := out + [LOWER_I];
      case Unsigned(u) => out := out + Numeral(u); out := out + [LOWER_U];
      case Text(s) => out := out + [QUOTE]; out := out + Escaped(s, STRING_CODES); out := out + [QUOTE];
      case Boolean(v) => out := out + (if v then LOWER_TRUE else LOWER_FALSE);
    }
    assert out == keyed + ValueText(f.value);
    FieldAppended(b, f);
  }

  lemma FieldAppended(b: bytes, f: Field)
    ensures b + Escaped(f.key, KEY_CODES) + [EQUALS] + ValueText(f.value) == b + FieldText(f)
  {
    hide Escaped, ValueText;
    Associate(b, Escaped(f.key, KEY_CODES), [EQUALS] + ValueText(f.value));
    Associate(b + Escaped(f.key, KEY_CODES), [EQUALS], ValueText(f.value));
  }

  method MarshalFields(fields: seq<Field>) returns (b: bytes)
    ensures b == FieldsText(fields)
  {
    hide FieldsText, FieldText;
    NoFieldsText();
    b := [];
    for i := 0 to |fields|
      invariant b == FieldsText(fields[..i])
    {
      FieldsTextSnoc(fields[..i], fields[i]);
      assert fields[..i + 1] == fields[..i] + [fields[i]];
      if i > 0 {
        b := b + [COMMA];
      }
      b := AppendField(b, fields[i]);
    }
    assert fields[..|fields|] == fields;
  }

  lemma NoFieldsText()
    ensures FieldsText([]) == []
  {
  }

  lemma {:induction false} FieldsTextSnoc(fields: seq<Field>, f: Field)
    ensures FieldsText(fields + [f]) == if fields == [] then FieldText(f) else FieldsText(fields) + [COMMA] + FieldText(f)
  {
    hide FieldText;
    if |fields| > 0 {
      FieldsTextSnoc(fields[1..], f);
      assert (fields + [f])[1..] == fields[1..] + [f];
      if |fields| > 1 {
        Associate(FieldText(fields[0]), [COMMA], FieldsText(fields[1..]) + [COMMA] + FieldText(f));
      }
    }
  }

  // ---- numbers and booleans ----

  datatype Ended = At(end: nat) | Invalid

  predicate IsNumeric(b: byte) {
    IsDigit(b) || b == DOT
  }

  /** The lengths from which on a number is parsed to see whether it is in range. */
  const MAX_INT64_DIGITS := 19
  const MIN_INT64_DIGITS := 20
  const MAX_UINT64_DIGITS := 20
  const MAX_FLOAT64_DIGITS := 25
  const MIN_FLOAT64_DIGITS := 27

  /** What the loop of scanNumber has seen. */
  datatype Seen = Seen(isInt: bool, isUnsigned: bool, decimal: bool, scientific: bool)

  /** The loop of scanNumber from position i on: where it stops and what it saw, or None for an error. */
  datatype Run = Run(end: nat, seen: Seen) | Broken

  function NumberRun(buf: bytes, start: nat, i: nat, seen: Seen): (r: Run)
    requires start <= i <= |buf|
    ensures r.Run? ==> i <= r.end <= |buf|
    decreases |buf| - i
  {
    if i == |buf| || buf[i] == COMMA || buf[i] == SPACE then Run(i, seen)
    else if buf[i] == LOWER_I && i > start && !(seen.isInt || seen.isUnsigned) then
      NumberRun(buf, start, i + 1, seen.(isInt := true))
    else if buf[i] == LOWER_U && i > start && !(seen.isInt || seen.isUnsigned) then
      NumberRun(buf, start, i + 1, seen.(isUnsigned := true))
    else if buf[i] == DOT && seen.decimal then Broken
    else
      var seen' := if buf[i] == DOT then seen.(decimal := true) else seen;
      if i > start && (buf[i] == LOWER_E || buf[i] == UPPER_E) then
        NumberRun(buf, start, i + 1, seen'.(scientific := true))
      else if (buf[i] == PLUS || buf[i] == MINUS) && i > start && (buf[i - 1] == LOWER_E || buf[i - 1] == UPPER_E) then
        NumberRun(buf, start, i + 1, seen')
      else if !IsNumeric(buf[i]) then Broken
      else NumberRun(buf, start, i + 1, seen')
  }

  /** The tests of scanNumber after its loop. */
  predicate NumberAccepted(buf: bytes, start: nat, end: nat, seen: Seen, o: Options)
    requires start < end <= |buf|
  {
    var digits := end - start - (if seen.isInt then 1 else 0) - (if seen.decimal then 1 else 0)
                  - (if buf[start] == MINUS then 1 else 0);
    && !((seen.isInt || seen.isUnsigned) && (seen.decimal || seen.scientific))
    && digits != 0
    && (if seen.isInt then
          && buf[end - 1] == LOWER_I
          && (end - 1 - start < MAX_INT64_DIGITS || ParseInt(buf[start..end - 1]).Number?)
        else if seen.isUnsigned then
          && o.uintSupport && buf[end - 1] == LOWER_U && buf[start] != MINUS
          && (end - 1 - start < MAX_UINT64_DIGITS || ParseUint(buf[start..end - 1]).Number?)
        else
          !((seen.scientific || end - start >= MAX_FLOAT64_DIGITS) && o.badFloat(buf[start..end])))
  }

  /** strconv.ParseUint(s, 10, 64). */
  function ParseUint(s: bytes): (r: Parsed)
    ensures r.Number? ==> 0 <= r.n < UINT64
  {
    if s == [] || !AllDigits(s) then SyntaxError
    else if Decimal.Value(s) < UINT64 then Number(Decimal.Value(s))
    else RangeError
  }

  function NumberEnd(buf: bytes, start: nat, o: Options): (r: Ended)
    requires start < |buf|
    ensures r.At? ==> start < r.end <= |buf|
  {
    var first := if buf[start] == MINUS then start + 1 else start;
    if first == |buf| then Invalid
    else
      var run := NumberRun(buf, start, first, Seen(false, false, false, false));
      if run.Broken? || run.end == start || !NumberAccepted(buf, start, run.end, run.seen, o) then Invalid
      else At(run.end)
  }

  /** What scanNumber tests after its loop. */
  method CheckNumber(buf: bytes, start: nat, end: nat, seen: Seen, o: Options) returns (accepted: bool)
    requires start < end <= |buf|
    ensures accepted == NumberAccepted(buf, start, end, seen, o)
  {
    hide ParseInt, ParseUint;
    if (seen.isInt || seen.isUnsigned) && (seen.decimal || seen.scientific) {
      return false;
    }
    var numericDigits := end - start;
    if seen.isInt {
      numericDigits := numericDigits - 1;
    }
    if seen.decimal {
      numericDigits := numericDigits - 1;
    }
    if buf[start] == MINUS {
      numericDigits := numericDigits - 1;
    }
    if numericDigits == 0 {
      return false;
    }
    if seen.isInt {
      if buf[end - 1] != LOWER_I {
        return false;
      }
      if |buf[start..end - 1]| >= MAX_INT64_DIGITS || |buf[start..end - 1]| >= MIN_INT64_DIGITS {
        if !ParseInt(buf[start..end - 1]).Number? {
          return false;
        }
      }
    } else if seen.isUnsigned {
      if !o.uintSupport {
        return false;
      }
      if buf[end - 1] != LOWER_U {
        return false;
      }
      if buf[start] == MINUS {
        return false;
      }
      if |buf[start..end - 1]| >= MAX_UINT64_DIGITS {
        if !ParseUint(buf[start..end - 1]).Number? {
          return false;
        }
      }
    } else if seen.scientific || |buf[start..end]| >= MAX_FLOAT64_DIGITS || |buf[start..end]| >= MIN_FLOAT64_DIGITS {
      if o.badFloat(buf[start..end]) {
        return false;
      }
    }
    return true;
  }

  method ScanNumber(buf: bytes, start: nat, o: Options) returns (r: Ended)
    requires start < |buf| && buf[start] != COMMA && buf[start] != SPACE
    ensures r == NumberEnd(buf, start, o)
  {
    hide NumberAccepted;
    var i := start;
    if buf[i] == MINUS {
      i := i + 1;
      if i == |buf| {
        return Invalid;
      }
    }
    var seen := Seen(false, false, false, false);
    ghost var run := NumberRun(buf, start, i, seen);
    while i < |buf|
      invariant start <= i <= |buf|
      invariant run == NumberRun(buf, start, i, seen)
      decreases |buf| - i
    {
      if buf[i] == COMMA || buf[i] == SPACE {
        break;
      }
      if buf[i] == LOWER_I && i > start && !(seen.isInt || seen.isUnsigned) {
        seen := seen.(isInt := true);
        i := i + 1;
        continue;
      } else if buf[i] == LOWER_U && i > start && !(seen.isInt || seen.isUnsigned) {
        seen := seen.(isUnsigned := true);
        i := i + 1;
        continue;
      }
      if buf[i] == DOT {
        if seen.decimal {
          return Invalid;
        }
        seen := seen.(decimal := true);
      }
      if i > start && (buf[i] == LOWER_E || buf[i] == UPPER_E) {
        seen := seen.(scientific := true);
        i := i + 1;
        continue;
      }
      if (buf[i] == PLUS || buf[i] == MINUS) && i > start && (buf[i - 1] == LOWER_E || buf[i - 1] == UPPER_E) {
        i := i + 1;
        continue;
      }
      if i + 2 < |buf| && (buf[i] == UPPER_N || buf[i] == LOWER_N) {
        return Invalid;
      }
      if !IsNumeric(buf[i]) {
        return Invalid;
      }
      i := i + 1;
    }
    var accepted := CheckNumber(buf, start, i, seen, o);
    return if accepted then At(i) else Invalid;
  }

  /** The first ',' or ' ' from i on, escaped or not, or the end. */
  function NextDelimiter(buf: bytes, i: nat): (e: nat)
    requires i <= |buf|
    ensures i <= e <= |buf|
    decreases |buf| - i
  {
    if i == |buf| || buf[i] == COMMA || buf[i] == SPACE then i else NextDelimiter(buf, i + 1)
  }

  predicate IsBoolean(word: bytes) {
    word in {[LOWER_T], [LOWER_F], [UPPER_T], [UPPER_F],
             LOWER_TRUE, LOWER_FALSE, UPPER_TRUE, UPPER_FALSE, TITLE_TRUE, TITLE_FALSE}
  }

  function BooleanEnd(buf: bytes, start: nat): (r: Ended)
    requires start < |buf|
    ensures r.At? ==> start < r.end <= |buf|
  {
    var e := NextDelimiter(buf, start + 1);
    if IsBoolean(buf[start..e]) then At(e) else Invalid
  }

  /** scanBoolean: one letter, or true or false in lower, upper or title case. */
  method ScanBoolean(buf: bytes, start: nat) returns (r: Ended)
    requires start < |buf|
    ensures r == BooleanEnd(buf, start)
  {
    var c := buf[start];
    if c != LOWER_T && c != LOWER_F && c != UPPER_T && c != UPPER_F {
      assert buf[start..NextDelimiter(buf, start + 1)][0] == c;
      return Invalid;
    }
    var i := start + 1;
    while i < |buf|
      invariant start + 1 <= i <= |buf|
      invariant NextDelimiter(buf, start + 1) == NextDelimiter(buf, i)
    {
      if buf[i] == COMMA || buf[i] == SPACE {
        break;
      }
      i := i + 1;
    }
    var word := buf[start..i];
    assert word[0] == c;
    if i - start == 1 {
      assert word == [c];
      return At(i);
    }
    if (c == LOWER_T || c == UPPER_T) && i - start != 4 {
      return Invalid;
    }
    if (c == LOWER_F || c == UPPER_F) && i - start != 5 {
      return Invalid;
    }
    var valid := false;
    if c == LOWER_T {
      valid := word == LOWER_TRUE;
    } else if c == LOWER_F {
      valid := word == LOWER_FALSE;
    } else if c == UPPER_T {
      valid := word == UPPER_TRUE || word == TITLE_TRUE;
    } else {
      valid := word == UPPER_FALSE || word == TITLE_FALSE;
    }
    r := if valid then At(i) else Invalid;
  }

  // ---- the whole section ----

  datatype FieldScan = FieldsEnd(end: nat) | FieldError

  /** What scanFields keeps while it moves: inside quotes or not, and how many '=' and ',' it has seen. */
  datatype State = State(quoted: bool, equals: nat, commas: nat)

  function Close(i: nat, st: State): FieldScan {
    if !st.quoted && st.equals > 0 && st.commas + 1 == st.equals then FieldsEnd(i) else FieldError
  }

  /** The end of a value that starts at i, if it is a number or a boolean; a string is left to the main loop. */
  function PlainValueEnd(buf: bytes, i: nat, o: Options): (r: Ended)
    requires i < |buf|
    ensures r.At? ==> i < r.end <= |buf|
  {
    if IsNumeric(buf[i]) || buf[i] == MINUS || buf[i] == UPPER_N || buf[i] == LOWER_N then NumberEnd(buf, i, o)
    else BooleanEnd(buf, i)
  }

  /** An '=' needs a key before it and a value after it. */
  predicate BadEquals(buf: bytes, i: nat)
    requires 2 <= i < |buf|
  {
    || ((buf[i - 1] == SPACE || buf[i - 1] == COMMA) && buf[i - 2] != BACKSLASH)
    || i + 1 >= |buf| || buf[i + 1] == COMMA || buf[i + 1] == SPACE
  }

  /** scanFields from position i on in a given state. */
  function FieldsFrom(buf: bytes, i: nat, st: State, o: Options): (r: FieldScan)
    requires 2 <= i <= |buf|
    ensures r.FieldsEnd? ==> i <= r.end <= |buf|
    decreases |buf| - i
  {
    if i == |buf| then Close(i, st)
    else if buf[i] == BACKSLASH && i + 1 < |buf| then FieldsFrom(buf, i + 2, st, o)
    else if buf[i] == QUOTE && st.equals > st.commas then FieldsFrom(buf, i + 1, st.(quoted := !st.quoted), o)
    else if buf[i] == EQUALS && !st.quoted then
      if BadEquals(buf, i) then FieldError
      else if buf[i + 1] == QUOTE then FieldsFrom(buf, i + 1, st.(equals := st.equals + 1), o)
      else
        var e := PlainValueEnd(buf, i + 1, o);
        if e.Invalid? then FieldError else FieldsFrom(buf, e.end, st.(equals := st.equals + 1), o)
    else if buf[i] == COMMA && !st.quoted then FieldsFrom(buf, i + 1, st.(commas := st.commas + 1), o)
    else if buf[i] == SPACE && !st.quoted then Close(i, st)
    else FieldsFrom(buf, i + 1, st, o)
  }

  /** The key of a line stands before its fields, so the look back by two bytes stays inside. */
  method ScanFields(buf: bytes, pos: nat, o: Options) returns (start: nat, r: FieldScan)
    requires pos <= |buf| && (SkipBlanks(buf, pos) >= 2 || SkipBlanks(buf, pos) == |buf|)
    ensures start == SkipBlanks(buf, pos)
    ensures r == if start < 2 then FieldError else FieldsFrom(buf, start, State(false, 0, 0), o)
  {
    hide NumberEnd, BooleanEnd;
    start := SkipWhitespace(buf, pos);
    if start < 2 {
      return start, FieldError;
    }
    var i := start;
    var quoted, equals, commas := false, 0, 0;
    while i < |buf|
      invariant start <= i <= |buf|
      invariant FieldsFrom(buf, start, State(false, 0, 0), o) == FieldsFrom(buf, i, State(quoted, equals, commas), o)
      decreases |buf| - i
    {
      if buf[i] == BACKSLASH && i + 1 < |buf| {
        i := i + 2;
        continue;
      }
      if buf[i] == QUOTE && equals > commas {
        quoted := !quoted;
        i := i + 1;
        continue;
      }
      if buf[i] == EQUALS && !quoted {
        equals := equals + 1;
        if buf[i - 1] == SPACE && buf[i - 2] != BACKSLASH {
          return start, FieldError;
        }
        if buf[i - 1] == COMMA && buf[i - 2] != BACKSLASH {
          return start, FieldError;
        }
        if i + 1 >= |buf| {
          return start, FieldError;
        }
        if buf[i + 1] == COMMA || buf[i + 1] == SPACE {
          return start, FieldError;
        }
        if IsNumeric(buf[i + 1]) || buf[i + 1] == MINUS || buf[i + 1] == UPPER_N || buf[i + 1] == LOWER_N {
          var e := ScanNumber(buf, i + 1, o);
          if e.Invalid? {
            return start, FieldError;
          }
          i := e.end;
          continue;
        }
        if buf[i + 1] != QUOTE {
          var e := ScanBoolean(buf, i + 1);
          if e.Invalid? {
            return start, FieldError;
          }
          i := e.end;
          continue;
        }
      }
      if buf[i] == COMMA && !quoted {
        commas := commas + 1;
      }
      if buf[i] == SPACE && !quoted {
        break;
      }
      i := i + 1;
    }
    r := Close(i, State(quoted, equals, commas));
  }
}
