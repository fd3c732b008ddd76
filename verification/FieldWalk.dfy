/** scanFieldValue and walkFields: the fields text cut into keys and values. */
module FieldWalk {
  import opened Bytes
  import opened Escape
  import opened Scan
  import opened Fields
  import opened FieldRoundTrip
  import KeyRoundTrip

  /** The end of the field value at i: the first ',' outside quotes, or the end. */
  function FieldValueEnd(buf: bytes, i: nat, quoted: bool): (e: nat)
    requires i <= |buf|
    ensures i <= e <= |buf|
    ensures e < |buf| ==> buf[e] == COMMA
    decreases |buf| - i
  {
    if i == |buf| then i
    else if buf[i] == BACKSLASH && i + 1 < |buf| && (buf[i + 1] == QUOTE || buf[i + 1] == BACKSLASH) then
      FieldValueEnd(buf, i + 2, quoted)
    else if buf[i] == QUOTE then FieldValueEnd(buf, i + 1, !quoted)
    else if buf[i] == COMMA && !quoted then i
    else FieldValueEnd(buf, i + 1, quoted)
  }

  lemma ValueEndStep(buf: bytes, i: nat, quoted: bool)
    requires i < |buf|
    ensures FieldValueEnd(buf, i, quoted) ==
      if buf[i] == BACKSLASH && i + 1 < |buf| && (buf[i + 1] == QUOTE || buf[i + 1] == BACKSLASH) then
        FieldValueEnd(buf, i + 2, quoted)
      else if buf[i] == QUOTE then FieldValueEnd(buf, i + 1, !quoted)
      else if buf[i] == COMMA && !quoted then i
      else FieldValueEnd(buf, i + 1, quoted)
  {
  }

  method ScanFieldValue(buf: bytes, start: nat) returns (i: nat)
    requires start <= |buf|
    ensures i == FieldValueEnd(buf, start, false)
  {
    i := start;
    var quoted := false;
    while i < |buf|
      invariant start <= i <= |buf|
      invariant FieldValueEnd(buf, start, false) == FieldValueEnd(buf, i, quoted)
    {
      if buf[i] == BACKSLASH && i + 1 < |buf| && (buf[i + 1] == QUOTE || buf[i + 1] == BACKSLASH) {
        i := i + 2;
        continue;
      }
      if buf[i] == QUOTE {
        i := i + 1;
        quoted := !quoted;
        continue;
      }
      if buf[i] == COMMA && !quoted {
        break;
      }
      i := i + 1;
    }
  }

  datatype Walked = AllFit | TooLong | Malformed

  /** walkFields with the callback of parsePoint: every raw key must be within the limit. */
  function KeySizes(buf: bytes, limit: int): Walked
    decreases |buf|
  {
    if buf == [] then AllFit
    else
      var i := NextBare(buf, 0, {EQUALS});
      if i + 2 > |buf| then Malformed
      else
        var rest := buf[i + 1..];
        var j := FieldValueEnd(rest, 0, false);
        if i > limit then TooLong
        else KeySizes(if j < |rest| then rest[j + 1..] else [], limit)
  }

  method WalkFields(fields: bytes, limit: int) returns (r: Walked)
    ensures r == KeySizes(fields, limit)
  {
    hide NextBare, FieldValueEnd, KeySizes;
    var buf := fields;
    while |buf| > 0
      invariant KeySizes(fields, limit) == KeySizes(buf, limit)
      decreases |buf|
    {
      KeySizesUnfold(buf, limit);
      var i := ScanTo(buf, 0, EQUALS);
      if i > |buf| - 2 {
        return Malformed;
      }
      var tooLong := i > limit;
      var rest := buf[i + 1..];
      var j := ScanFieldValue(rest, 0);
      buf := rest[j..];
      if tooLong {
        return TooLong;
      }
      if |buf| > 0 {
        buf := buf[1..];
        assert buf == rest[j + 1..];
      }
    }
    NoFields(limit);
    return AllFit;
  }

  lemma KeySizesUnfold(buf: bytes, limit: int)
    requires buf != []
    ensures var i := NextBare(buf, 0, {EQUALS});
      if i + 2 > |buf| then KeySizes(buf, limit) == Malformed
      else
        var rest := buf[i + 1..];
        var j := FieldValueEnd(rest, 0, false);
        KeySizes(buf, limit) ==
        if i > limit then TooLong else KeySizes(if j < |rest| then rest[j + 1..] else [], limit)
  {
    hide NextBare, FieldValueEnd;
  }

  // ---- on printed fields ----

  predicate Plain(b: byte) {
    b != COMMA && b != QUOTE && b != BACKSLASH
  }

  lemma {:induction false} PlainRun(buf: bytes, i: nat, q: nat, quoted: bool)
    requires i <= q <= |buf| && forall n :: i <= n < q ==> Plain(buf[n])
    ensures FieldValueEnd(buf, i, quoted) == FieldValueEnd(buf, q, quoted)
    decreases q - i
  {
    if i < q {
      PlainRun(buf, i + 1, q, quoted);
    }
  }

  lemma {:induction false} QuotedRun(buf: bytes, p: nat, s: bytes)
    requires Holds(buf, p, Escaped(s, STRING_CODES))
    ensures FieldValueEnd(buf, p, true) == FieldValueEnd(buf, p + |Escaped(s, STRING_CODES)|, true)
    decreases |s|
  {
    hide FieldValueEnd, Holds;
    if s != [] {
      var head := if s[0] in STRING_CODES then [BACKSLASH, s[0]] else [s[0]];
      HoldsParts(buf, p, head, Escaped(s[1..], STRING_CODES));
      QuotedRun(buf, p + |head|, s[1..]);
      ValueEndStep(buf, p, true);
      HoldsAt(buf, p, head, 0);
      if s[0] in STRING_CODES {
        HoldsAt(buf, p, head, 1);
      }
    }
  }

  lemma PlainText(v: Value, o: Options)
    requires !v.Text? && ValueOk(v, o)
    ensures forall n :: 0 <= n < |ValueText(v)| ==> Plain(ValueText(v)[n])
  {
    match v {
      case Integer(i) => IntegerShape(i);
      case Unsigned(u) => Decimal.NumeralValue(u);
      case Boolean(_) =>
      case Float(_, whole, decimals) =>
    }
  }

  /** A printed value ends where the printer put its end. */
  lemma ValueEnd(buf: bytes, p: nat, v: Value, o: Options)
    requires Holds(buf, p, ValueText(v)) && ValueOk(v, o)
    requires var q := p + |ValueText(v)|; q == |buf| || buf[q] == COMMA
    ensures FieldValueEnd(buf, p, false) == p + |ValueText(v)|
  {
    hide FieldValueEnd, Escaped, Holds, ValueText, ValueOk;
    var q := p + |ValueText(v)|;
    HoldsSlice(buf, p, ValueText(v));
    EndsHere(buf, q);
    if v.Text? {
      var body := Escaped(v.s, STRING_CODES);
      QuotedText(v.s);
      HoldsParts(buf, p, [QUOTE], body + [QUOTE]);
      HoldsParts(buf, p + 1, body, [QUOTE]);
      QuotedRun(buf, p + 1, v.s);
      AtQuote(buf, p, false);
      AtQuote(buf, p + 1 + |body|, true);
    } else {
      PlainText(v, o);
      PlainAt(buf, p, ValueText(v));
      PlainRun(buf, p, q, false);
    }
  }

  lemma PlainAt(buf: bytes, p: nat, t: bytes)
    requires Holds(buf, p, t) && forall n :: 0 <= n < |t| ==> Plain(t[n])
    ensures p + |t| <= |buf| && forall n :: p <= n < p + |t| ==> Plain(buf[n])
  {
    forall n | p <= n < p + |t| ensures Plain(buf[n]) {
      HoldsAt(buf, p, t, n - p);
    }
  }

  lemma EndsHere(buf: bytes, q: nat)
    requires q == |buf| || (q < |buf| && buf[q] == COMMA)
    ensures FieldValueEnd(buf, q, false) == q
  {
  }

  lemma AtQuote(buf: bytes, p: nat, quoted: bool)
    requires Holds(buf, p, [QUOTE])
    ensures FieldValueEnd(buf, p, quoted) == FieldValueEnd(buf, p + 1, !quoted)
  {
    HoldsAt(buf, p, [QUOTE], 0);
  }

  lemma HoldsWhole(buf: bytes, a: bytes, b: bytes)
    requires buf == a + b
    ensures Holds(buf, 0, a)
    ensures b != [] ==> buf[|a|] == b[0]
    ensures buf[|a|..] == b
  {
  }

  lemma ValueThen(v: Value, rest: bytes, o: Options)
    requires ValueOk(v, o) && (rest == [] || rest[0] == COMMA)
    ensures FieldValueEnd(ValueText(v) + rest, 0, false) == |ValueText(v)|
  {
    hide FieldValueEnd, ValueText, ValueOk, Holds;
    HoldsWhole(ValueText(v) + rest, ValueText(v), rest);
    ValueEnd(ValueText(v) + rest, 0, v, o);
  }

  /** The scan for '=' in a printed field stops after its key. */
  lemma KeyEnd(f: Field, rest: bytes)
    requires !Open(f.key)
    ensures NextBare(Escaped(f.key, KEY_CODES) + ([EQUALS] + rest), 0, {EQUALS}) == |Escaped(f.key, KEY_CODES)|
  {
    KeyRoundTrip.StopAfter(f.key, KEY_CODES, {EQUALS}, EQUALS, rest);
  }

  lemma FieldRest(f: Field, rest: bytes)
    ensures FieldText(f) + rest == Escaped(f.key, KEY_CODES) + ([EQUALS] + (ValueText(f.value) + rest))
  {
    hide Escaped, ValueText;
  }

  lemma ValueTextNotEmpty(v: Value, o: Options)
    requires ValueOk(v, o)
    ensures ValueText(v) != []
  {
  }

  lemma SizesStep(f: Field, rest: bytes, limit: int, o: Options)
    requires FieldOk(f, o) && (rest == [] || rest[0] == COMMA)
    ensures KeySizes(FieldText(f) + rest, limit) ==
            if |Escaped(f.key, KEY_CODES)| > limit then TooLong
            else KeySizes(if rest == [] then [] else rest[1..], limit)
  {
    hide NextBare, FieldText, ValueText, Escaped, FieldValueEnd, KeySizes, ValueOk;
    var k, v := Escaped(f.key, KEY_CODES), ValueText(f.value);
    FieldRest(f, rest);
    KeyEnd(f, v + rest);
    ValueThen(f.value, rest, o);
    ValueTextNotEmpty(f.value, o);
    SizesAfterKey(k, v + rest, |v|, limit);
    RestAfter(v, rest);
  }

  lemma SizesAfterKey(k: bytes, w: bytes, n: nat, limit: int)
    requires var text := k + ([EQUALS] + w);
      w != [] && NextBare(text, 0, {EQUALS}) == |k| && FieldValueEnd(w, 0, false) == n
    ensures KeySizes(k + ([EQUALS] + w), limit) ==
            if |k| > limit then TooLong else KeySizes(if n < |w| then w[n + 1..] else [], limit)
  {
    hide NextBare, FieldValueEnd, KeySizes;
    var text := k + ([EQUALS] + w);
    KeyRoundTrip.AfterEquals(k, w);
    KeySizesUnfold(text, limit);
  }

  lemma RestAfter(v: bytes, rest: bytes)
    ensures |v| < |v + rest| <==> rest != []
    ensures rest != [] ==> (v + rest)[|v| + 1..] == rest[1..]
  {
  }

  /** Printed fields are never malformed, and the limit is tested on the escaped keys. */
  lemma {:induction false} PrintedKeySizes(fields: seq<Field>, limit: int, o: Options)
    requires fields != [] && forall i :: 0 <= i < |fields| ==> FieldOk(fields[i], o)
    ensures KeySizes(FieldsText(fields), limit) == AllFit <==>
            forall i :: 0 <= i < |fields| ==> |Escaped(fields[i].key, KEY_CODES)| <= limit
    ensures KeySizes(FieldsText(fields), limit) != Malformed
  {
    hide KeySizes, FieldText, FieldOk, Escaped, FieldsText;
    FieldsTextCons(fields);
    NoFields(limit);
    if |fields| == 1 {
      assert FieldText(fields[0]) + [] == FieldText(fields[0]);
      SizesStep(fields[0], [], limit, o);
    } else {
      var tail := FieldsText(fields[1..]);
      SizesStep(fields[0], [COMMA] + tail, limit, o);
      assert ([COMMA] + tail)[1..] == tail;
      PrintedKeySizes(fields[1..], limit, o);
      assert forall i :: 1 <= i < |fields| ==> fields[i] == fields[1..][i - 1];
    }
  }

  lemma NoFields(limit: int)
    ensures KeySizes([], limit) == AllFit
  {
  }
}
