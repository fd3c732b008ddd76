/** The field iterator of a point: reading keys and typed values back from the fields text. */
module FieldIterator {
  import opened Bytes
  import opened Decimal
  import opened Escape
  import opened Scan
  import opened TagKeys
  import opened Fields
  import opened FieldRoundTrip
  import opened FieldWalk
  import opened Split

  datatype Kind = Empty | StringKind | IntegerKind | UnsignedKind | FloatKind | BooleanKind

  /** One field as the iterator finds it: the key, the type, the text of the value, and where the next field starts. */
  datatype Item = Item(key: bytes, kind: Kind, value: bytes, next: nat)

  /** The bytes a number starts with. */
  predicate StartsNumber(c: byte) {
    IsDigit(c) || c == MINUS || c == DOT || c == LOWER_N || c == UPPER_N || c == LOWER_I || c == 73 || c == LOWER_U
  }

  function KindOf(v: bytes): Kind {
    if v == [] then Empty
    else if v[0] == QUOTE then StringKind
    else if !StartsNumber(v[0]) then BooleanKind
    else if v[|v| - 1] == LOWER_I then IntegerKind
    else if v[|v| - 1] == LOWER_U then UnsignedKind
    else FloatKind
  }

  /** The suffix of an integer is not part of its digits. */
  function Body(v: bytes): bytes {
    if KindOf(v).IntegerKind? || KindOf(v).UnsignedKind? then v[..|v| - 1] else v
  }

  function ItemAt(text: bytes, cur: nat): Item
    requires cur < |text| && NextBare(text, cur, {EQUALS}) < |text|
  {
    var i := NextBare(text, cur, {EQUALS});
    var e := FieldEnd(text, cur);
    var v := text[i + 1..e];
    Item(Unescaped(text[cur..i], KEY_CODES), KindOf(v), Body(v), e + 1)
  }

  class Iterator {
    const text: bytes
    var end: nat
    var key: bytes
    var kind: Kind
    var value: bytes

    constructor (text: bytes)
      ensures this.text == text && end == 0
    {
      this.text := text;
      end, key, kind, value := 0, [], Empty, [];
    }

    /** Moves to the next field, if there is one. */
    method Next() returns (more: bool)
      requires Scannable(text, end)
      modifies this
      ensures more <==> old(end) < |text|
      ensures !more ==> end == old(end)
      ensures more ==> NextBare(text, old(end), {EQUALS}) < |text| && Item(key, kind, value, end) == ItemAt(text, old(end))
      ensures Scannable(text, end)
    {
      hide NextBare, FieldValueEnd, Unescaped, Scannable;
      var start := end;
      if start >= |text| {
        return false;
      }
      ScannableStep(text, start);
      end := ScanTo(text, start, EQUALS);
      key := Unescaped(text[start..end], KEY_CODES);
      var i := end + 1;
      end := ScanFieldValue(text, i);
      value := text[i..end];
      end := end + 1;
      if |value| == 0 {
        kind := Empty;
        return true;
      }
      var c := value[0];
      if c == QUOTE {
        kind := StringKind;
      } else if StartsNumber(c) {
        if value[|value| - 1] == LOWER_I {
          kind := IntegerKind;
          value := value[..|value| - 1];
        } else if value[|value| - 1] == LOWER_U {
          kind := UnsignedKind;
          value := value[..|value| - 1];
        } else {
          kind := FloatKind;
        }
      } else {
        kind := BooleanKind;
      }
      return true;
    }
  }

  // ---- values ----

  datatype Decoded = Value(v: Fields.Value) | BadValue

  /** The position of the dot, or the end. */
  function DotAt(s: bytes): (i: nat)
    ensures i <= |s|
  {
    if s == [] || s[0] == DOT then 0 else 1 + DotAt(s[1..])
  }

  /** A float stands for its text: sign, digits, decimals. */
  function FloatOf(v: bytes): Fields.Value {
    if v != [] && v[0] == MINUS then Signed(true, v[1..]) else Signed(false, v)
  }

  function Signed(negative: bool, digits: bytes): Fields.Value {
    var dot := DotAt(digits);
    Float(negative, digits[..dot], if dot < |digits| then digits[dot + 1..] else [])
  }

  /** IntegerValue, UnsignedValue, StringValue, BooleanValue and FloatValue. */
  function ValueOf(kind: Kind, v: bytes, o: Options): Decoded {
    match kind
    case StringKind => if |v| < 2 then BadValue else Value(Text(Unescaped(v[1..|v| - 1], STRING_CODES)))
    case IntegerKind => if ParseInt(v).Number? then Value(Integer(ParseInt(v).n)) else BadValue
    case UnsignedKind =>
      if ParseUint(v).Number? then Value(Unsigned(ParseUint(v).n)) else BadValue
    case FloatKind => if o.badFloat(v) then BadValue else Value(FloatOf(v))
    case BooleanKind =>
      if v in {[49], [LOWER_T], [UPPER_T], LOWER_TRUE, UPPER_TRUE, TITLE_TRUE} then Value(Boolean(true))
      else if v in {[48], [LOWER_F], [UPPER_F], LOWER_FALSE, UPPER_FALSE, TITLE_FALSE} then Value(Boolean(false))
      else BadValue
    case Empty => BadValue
  }

  datatype Read = Read(fields: seq<Field>) | ReadError

  /** The fields of a text from position cur on: fields without a key or a value are passed over. */
  function FieldsOf(text: bytes, cur: nat, o: Options): Read
    requires Scannable(text, cur)
    decreases |text| + 1 - cur
  {
    if cur >= |text| then Read([])
    else
      var item := ItemAt(text, cur);
      var rest := FieldsOf(text, item.next, o);
      if item.key == [] || item.kind.Empty? then rest
      else
        var v := ValueOf(item.kind, item.value, o);
        if v.BadValue? || rest.ReadError? then ReadError else Read([Field(item.key, v.v)] + rest.fields)
  }

  /** Fields and unmarshalBinary, as a list: the source puts the pairs in a map. */
  method ReadFields(text: bytes, o: Options) returns (r: Read)
    requires Scannable(text, 0)
    ensures r == FieldsOf(text, 0, o)
  {
    hide ItemAt, ValueOf, Scannable;
    var it := new Iterator(text);
    var fields: seq<Field> := [];
    var more := true;
    assert FieldsOf(text, 0, o).Read? ==> [] + FieldsOf(text, 0, o).fields == FieldsOf(text, 0, o).fields;
    while more
      invariant it.text == text && it.end <= |text| + 1 && Scannable(text, it.end)
      invariant !more ==> it.end >= |text|
      invariant FieldsOf(text, 0, o) == Prepend(fields, FieldsOf(text, it.end, o))
      decreases |text| + 1 - it.end, more
    {
      ghost var cur := it.end;
      FieldsStep(text, cur, o);
      more := it.Next();
      if more && it.key != [] && !it.kind.Empty? {
        var v := ValueOf(it.kind, it.value, o);
        if v.BadValue? {
          return ReadError;
        }
        PrependTwice(fields, Field(it.key, v.v), FieldsOf(text, it.end, o));
        fields := fields + [Field(it.key, v.v)];
      }
    }
    r := Read(fields);
  }

  function Prepend(fields: seq<Field>, r: Read): Read {
    if r.ReadError? then ReadError else Read(fields + r.fields)
  }

  lemma PrependTwice(fields: seq<Field>, f: Field, r: Read)
    ensures Prepend(fields, Prepend([f], r)) == Prepend(fields + [f], r)
  {
    if r.Read? {
      Associate(fields, [f], r.fields);
    }
  }

  lemma FieldsStep(text: bytes, cur: nat, o: Options)
    requires Scannable(text, cur)
    ensures cur >= |text| ==> FieldsOf(text, cur, o) == Read([])
    ensures cur < |text| ==>
      && NextBare(text, cur, {EQUALS}) < |text| && cur < ItemAt(text, cur).next <= |text| + 1
      && Scannable(text, ItemAt(text, cur).next)
    ensures cur < |text| && (ItemAt(text, cur).key == [] || ItemAt(text, cur).kind.Empty?) ==>
      FieldsOf(text, cur, o) == FieldsOf(text, ItemAt(text, cur).next, o)
    ensures cur < |text| && ItemAt(text, cur).key != [] && !ItemAt(text, cur).kind.Empty? ==>
      var item := ItemAt(text, cur); var v := ValueOf(item.kind, item.value, o);
      FieldsOf(text, cur, o) == if v.BadValue? then ReadError else Prepend([Field(item.key, v.v)], FieldsOf(text, item.next, o))
  {
    hide ValueOf, NextBare, FieldValueEnd, Unescaped;
  }

  // ---- on printed fields ----

  /** A printed value has its own type, and its text gives the value back. */
  lemma PrintedValue(v: Fields.Value, o: Options)
    requires ValueOk(v, o)
    ensures var t := ValueText(v); !KindOf(t).Empty? && ValueOf(KindOf(t), Body(t), o) == Value(v)
  {
    hide ValueText, KindOf, ValueOf, Body, ValueOk;
    match v {
      case Text(_) => PrintedText(v, o);
      case Integer(_) => PrintedInteger(v, o);
      case Unsigned(_) => PrintedUnsigned(v, o);
      case Boolean(_) => PrintedBoolean(v, o);
      case Float(_, _, _) => PrintedFloatValue(v, o);
    }
  }

  lemma PrintedText(v: Fields.Value, o: Options)
    requires v.Text?
    ensures var t := ValueText(v); KindOf(t).StringKind? && ValueOf(KindOf(t), Body(t), o) == Value(v)
  {
    hide Escaped, Unescaped;
    var t := ValueText(v);
    assert t[1..|t| - 1] == Escaped(v.s, STRING_CODES);
    UnescapeEscape(v.s, STRING_CODES);
  }

  lemma PrintedInteger(v: Fields.Value, o: Options)
    requires v.Integer?
    ensures var t := ValueText(v); KindOf(t).IntegerKind? && ValueOf(KindOf(t), Body(t), o) == Value(v)
  {
    hide ParseInt, FormatInt;
    var t := ValueText(v);
    IntegerShape(v.i);
    assert t[..|t| - 1] == FormatInt(v.i);
    FormatParse(v.i);
  }

  lemma PrintedUnsigned(v: Fields.Value, o: Options)
    requires v.Unsigned? && ValueOk(v, o)
    ensures var t := ValueText(v); KindOf(t).UnsignedKind? && ValueOf(KindOf(t), Body(t), o) == Value(v)
  {
    hide Numeral, Decimal.Value;
    var t := ValueText(v);
    NumeralValue(v.u);
    assert t[..|t| - 1] == Numeral(v.u);
  }

  lemma PrintedBoolean(v: Fields.Value, o: Options)
    requires v.Boolean?
    ensures var t := ValueText(v); KindOf(t).BooleanKind? && ValueOf(KindOf(t), Body(t), o) == Value(v)
  {
  }

  lemma PrintedFloatValue(v: Fields.Value, o: Options)
    requires v.Float? && ValueOk(v, o)
    ensures var t := ValueText(v); KindOf(t).FloatKind? && ValueOf(KindOf(t), Body(t), o) == Value(v)
  {
    hide KindOf, Body, FloatOf, FloatText;
    PrintedFloat(v.negative, v.whole, v.decimals);
  }

  lemma {:induction false} DotAfter(whole: bytes, rest: bytes)
    requires AllDigits(whole) && (rest == [] || rest[0] == DOT)
    ensures DotAt(whole + rest) == |whole|
    decreases |whole|
  {
    if whole == [] {
      assert whole + rest == rest;
    } else {
      assert (whole + rest)[1..] == whole[1..] + rest;
      DotAfter(whole[1..], rest);
    }
  }

  lemma PrintedFloat(negative: bool, whole: bytes, decimals: bytes)
    requires whole != [] && AllDigits(whole) && AllDigits(decimals)
    ensures var t := FloatText(negative, whole, decimals);
      FloatOf(t) == Float(negative, whole, decimals) && KindOf(t) == FloatKind && Body(t) == t
  {
    hide Signed, KindOf, Body, FloatOf, FloatText;
    var frac := if decimals == [] then [] else [DOT] + decimals;
    SignedDigits(negative, whole, decimals);
    if negative {
      NegativeText(whole, decimals, frac);
      LastDigit([MINUS] + whole, whole, decimals);
      FloatKindOf([MINUS] + whole + frac);
    } else {
      PositiveText(whole, decimals, frac);
      LastDigit(whole, whole, decimals);
      FloatKindOf(whole + frac);
    }
  }

  lemma NegativeText(whole: bytes, decimals: bytes, frac: bytes)
    requires frac == if decimals == [] then [] else [DOT] + decimals
    ensures FloatText(true, whole, decimals) == [MINUS] + whole + frac
    ensures FloatOf([MINUS] + whole + frac) == Signed(true, whole + frac)
  {
    hide Signed;
    Associate([MINUS], whole, frac);
    AfterPrefix([MINUS], whole + frac);
  }

  lemma PositiveText(whole: bytes, decimals: bytes, frac: bytes)
    requires whole != [] && AllDigits(whole) && frac == if decimals == [] then [] else [DOT] + decimals
    ensures FloatText(false, whole, decimals) == whole + frac
    ensures FloatOf(whole + frac) == Signed(false, whole + frac)
  {
    hide Signed;
    assert [] + (whole + frac) == whole + frac;
    assert (whole + frac)[0] == whole[0];
  }

  lemma SignedDigits(negative: bool, whole: bytes, decimals: bytes)
    requires whole != [] && AllDigits(whole) && AllDigits(decimals)
    ensures Signed(negative, whole + (if decimals == [] then [] else [DOT] + decimals)) == Float(negative, whole, decimals)
  {
    hide DotAt;
    var frac := if decimals == [] then [] else [DOT] + decimals;
    DotAfter(whole, frac);
    Halves(whole, frac);
    if decimals != [] {
      assert frac[1..] == decimals;
    }
  }

  lemma LastDigit(a: bytes, whole: bytes, decimals: bytes)
    requires a != [] && whole != [] && AllDigits(whole) && AllDigits(decimals) && a[|a| - 1] == whole[|whole| - 1]
    ensures var t := a + (if decimals == [] then [] else [DOT] + decimals); IsDigit(t[|t| - 1]) && t[0] == a[0]
  {
  }

  lemma Halves(a: bytes, b: bytes)
    ensures (a + b)[..|a|] == a && (a + b)[|a|..] == b
    ensures b != [] ==> (a + b)[|a| + 1..] == b[1..] && (a + b)[|a + b| - 1] == b[|b| - 1]
    ensures a == [] ==> a + b == b
  {
  }

  lemma FloatKindOf(t: bytes)
    requires t != [] && (t[0] == MINUS || IsDigit(t[0])) && IsDigit(t[|t| - 1])
    ensures KindOf(t) == FloatKind && Body(t) == t
  {
  }

  /** The printed field stands in the text between other fields. */
  predicate Placed(text: bytes, pre: bytes, f: Field, rest: bytes) {
    (pre == [] || pre[|pre| - 1] == COMMA) && (rest == [] || rest[0] == COMMA) && text == pre + (FieldText(f) + rest)
  }

  /** The item of a printed field: its key, its type and its value. */
  lemma PrintedItem(text: bytes, pre: bytes, f: Field, rest: bytes, o: Options)
    requires FieldOk(f, o) && Placed(text, pre, f, rest)
    ensures |pre| < |text| && NextBare(text, |pre|, {EQUALS}) < |text|
    ensures var v := ValueText(f.value);
      ItemAt(text, |pre|) == Item(f.key, KindOf(v), Body(v), |pre| + |FieldText(f)| + 1)
  {
    hide NextBare, Escaped, ValueText, FieldText, FieldOk, EndsAt, KindOf, Body, ItemAt, Holds, Placed;
    KeyOk(f, o);
    KeyAt(text, pre, f, rest);
    ValueAt(text, pre, f, rest, o);
    KeyAndValue(text, pre, f, rest);
    ItemOf(text, |pre|, |pre| + |FieldText(f)|, f);
  }

  lemma ItemOf(text: bytes, cur: nat, e: nat, f: Field)
    requires var i := cur + |Escaped(f.key, KEY_CODES)|;
      && i < e <= |text| && NextBare(text, cur, {EQUALS}) == i && EndsAt(text, cur, e)
      && Holds(text, cur, Escaped(f.key, KEY_CODES)) && Holds(text, i + 1, ValueText(f.value))
      && i + 1 + |ValueText(f.value)| == e
    ensures cur < |text| && NextBare(text, cur, {EQUALS}) < |text|
    ensures var v := ValueText(f.value); ItemAt(text, cur) == Item(f.key, KindOf(v), Body(v), e + 1)
  {
    hide NextBare, Escaped, ValueText, EndsAt, Unescaped, KindOf, Body, ItemAt, FieldEnd;
    var k := Escaped(f.key, KEY_CODES);
    EndOf(text, cur, e);
    ItemIs(text, cur, cur + |k|, e, k, ValueText(f.value));
    UnescapeEscape(f.key, KEY_CODES);
  }

  lemma KeyOk(f: Field, o: Options)
    requires FieldOk(f, o)
    ensures !Open(f.key)
  {
  }

  lemma KeyAt(text: bytes, pre: bytes, f: Field, rest: bytes)
    requires !Open(f.key) && Placed(text, pre, f, rest)
    ensures NextBare(text, |pre|, {EQUALS}) == |pre| + |Escaped(f.key, KEY_CODES)|
  {
    hide NextBare, Escaped, ValueText, FieldText;
    var body := FieldText(f) + rest;
    AfterPrefix(pre, body);
    FieldRest(f, rest);
    KeyEnd(f, ValueText(f.value) + rest);
    NextBareSuffix(text, |pre|, |pre|, {EQUALS});
  }

  lemma ValueAt(text: bytes, pre: bytes, f: Field, rest: bytes, o: Options)
    requires FieldOk(f, o) && Placed(text, pre, f, rest)
    ensures EndsAt(text, |pre|, |pre| + |FieldText(f)|)
  {
    hide FieldText, EndsAt, FieldOk;
    PrintedFieldEnd(f, rest, o);
    EndsAfter(text, pre, FieldText(f) + rest, |FieldText(f)|);
  }

  lemma EndsAfter(text: bytes, pre: bytes, body: bytes, e: nat)
    requires text == pre + body && (pre == [] || pre[|pre| - 1] == COMMA) && EndsAt(body, 0, e)
    ensures EndsAt(text, |pre|, |pre| + e)
  {
    hide EndsAt;
    AfterPrefix(pre, body);
    EndsAtSuffix(text, |pre|, body, e);
  }

  lemma AfterPrefix(a: bytes, b: bytes)
    ensures (a + b)[|a|..] == b
    ensures a != [] ==> (a + b)[|a| - 1] == a[|a| - 1]
  {
  }

  lemma ItemIs(text: bytes, cur: nat, i: nat, e: nat, k: bytes, v: bytes)
    requires cur <= i < e <= |text| && NextBare(text, cur, {EQUALS}) == i && FieldEnd(text, cur) == e
    requires text[cur..i] == k && text[i + 1..e] == v
    ensures ItemAt(text, cur) == Item(Unescaped(k, KEY_CODES), KindOf(v), Body(v), e + 1)
  {
    hide NextBare, FieldEnd, Unescaped, KindOf, Body;
  }

  lemma EndOf(text: bytes, cur: nat, e: nat)
    requires EndsAt(text, cur, e)
    ensures cur < |text| && NextBare(text, cur, {EQUALS}) < |text| && FieldEnd(text, cur) == e
  {
  }

  lemma KeyAndValue(text: bytes, pre: bytes, f: Field, rest: bytes)
    requires Placed(text, pre, f, rest)
    ensures var k, v := Escaped(f.key, KEY_CODES), ValueText(f.value);
      && |FieldText(f)| == |k| + 1 + |v| && |pre| + |FieldText(f)| <= |text|
      && Holds(text, |pre|, k) && Holds(text, |pre| + |k| + 1, v)
  {
    hide Escaped, ValueText, Holds;
    var k, v := Escaped(f.key, KEY_CODES), ValueText(f.value);
    var p := |pre|;
    FieldTextSize(f);
    HoldsField(pre, FieldText(f), rest);
    HoldsParts(text, p, k, [EQUALS] + v);
    HoldsParts(text, p + |k|, [EQUALS], v);
  }

  lemma HoldsField(pre: bytes, f: bytes, rest: bytes)
    ensures Holds(pre + (f + rest), |pre|, f)
  {
  }

  /** Iterating over printed fields gives the keys and the values back, with their types and in order. */
  lemma {:induction false} FieldsReadBack(text: bytes, pre: bytes, fields: seq<Field>, o: Options)
    requires fields != [] && (pre == [] || pre[|pre| - 1] == COMMA) && text == pre + FieldsText(fields)
    requires forall i :: 0 <= i < |fields| ==> FieldOk(fields[i], o)
    ensures Scannable(text, |pre|) && FieldsOf(text, |pre|, o) == Read(fields)
    decreases |fields|
  {
    hide FieldsText, FieldText, FieldOk, Scannable, ItemAt, ValueOf, KindOf, Body, EndsAt, FieldsOf, ValueText;
    var f := FieldText(fields[0]);
    var rest := if |fields| == 1 then [] else [COMMA] + FieldsText(fields[1..]);
    FieldsTextCons(fields);
    assert f + [] == f;
    NextField(text, pre, fields, o);
    PrintedField(fields[0], o);
    PrintedItem(text, pre, fields[0], rest, o);
    if |fields| == 1 {
      PastEnd(text, |pre| + |f| + 1);
      FieldsStep(text, |pre| + |f| + 1, o);
    } else {
      var next := pre + (f + [COMMA]);
      Regrouped(pre, f, FieldsText(fields[1..]));
      FieldsReadBack(text, next, fields[1..], o);
    }
    ScannableAt(text, |pre|, |pre| + |f|);
    FieldsStep(text, |pre|, o);
    assert [fields[0]] + fields[1..] == fields;
  }

  lemma Regrouped(pre: bytes, f: bytes, rest: bytes)
    ensures pre + (f + ([COMMA] + rest)) == (pre + (f + [COMMA])) + rest
  {
    Associate(f, [COMMA], rest);
    Associate(pre, f + [COMMA], rest);
  }

  lemma PrintedField(f: Field, o: Options)
    requires FieldOk(f, o)
    ensures f.key != []
    ensures var t := ValueText(f.value); !KindOf(t).Empty? && ValueOf(KindOf(t), Body(t), o) == Value(f.value)
  {
    hide ValueText, KindOf, Body, ValueOf;
    PrintedValue(f.value, o);
  }
}
