/** JSON values as trees with their white space, their text, and the end of that text for both skippers. */
module JsonTree {
  import opened Bytes
  import opened Decimal
  import opened JsonString
  import opened JsonIterator
  import opened JsonGrammar
  import SkipSloppy
  import SkipStrict

  /** A character of a string: a byte as it is, a two-byte escape, or an escaped UTF-16 unit. */
  datatype Char = Raw(c: byte) | Short(c: byte) | Unit(digits: bytes)

  /** What stands before an item: white space, or a member name with its colon. */
  datatype Label = Space(a: bytes) | Name(a: bytes, name: seq<Char>, b: bytes)

  datatype Json =
    | Word(text: bytes)
    | Number(negative: bool, whole: bytes, decimals: bytes)
    | Str(chars: seq<Char>)
    | Group(braces: bool, gap: bytes, items: Items)

  datatype Items = NoItems | Item(lead: Label, value: Json, after: bytes, rest: Items)

  // ---- the text ----

  function CharText(c: Char): bytes {
    match c
    case Raw(b) => [b]
    case Short(b) => [BACKSLASH, b]
    case Unit(digits) => [BACKSLASH, LOWER_U] + digits
  }

  function CharsText(cs: seq<Char>): bytes {
    if cs == [] then [] else CharText(cs[0]) + CharsText(cs[1..])
  }

  function LabelText(l: Label): bytes {
    match l
    case Space(a) => a
    case Name(a, name, b) => a + ([QUOTE] + (CharsText(name) + ([QUOTE] + (b + [COLON]))))
  }

  function Text(v: Json): bytes {
    match v
    case Word(text) => text
    case Number(negative, whole, decimals) =>
      (if negative then [MINUS] else []) + (whole + (if decimals == [] then [] else [DOT] + decimals))
    case Str(chars) => [QUOTE] + (CharsText(chars) + [QUOTE])
    case Group(braces, gap, items) =>
      [Opening(braces)] + ((if items.NoItems? then gap else ItemsText(items)) + [Closing(braces)])
  }

  function ItemsText(items: Items): bytes {
    match items
    case NoItems => []
    case Item(lead, value, after, rest) =>
      LabelText(lead) + (Text(value) + (after + (if rest.NoItems? then [] else [COMMA] + ItemsText(rest))))
  }

  // ---- well-formed trees ----

  predicate Blank(a: bytes) {
    forall i :: 0 <= i < |a| ==> IsSpace(a[i])
  }

  predicate GoodChar(c: Char) {
    match c
    case Raw(b) => b >= SPACE && b != QUOTE && b != BACKSLASH
    case Short(b) => JsonString.Letter(b) != NUL && b != LOWER_U
    case Unit(digits) => |digits| == 4 && HasU4(digits)
  }

  predicate GoodChars(cs: seq<Char>) {
    forall i :: 0 <= i < |cs| ==> GoodChar(cs[i])
  }

  predicate GoodLabel(l: Label, braces: bool) {
    if braces then l.Name? && Blank(l.a) && GoodChars(l.name) && Blank(l.b) else l.Space? && Blank(l.a)
  }

  /** Section 2 of RFC 4627 without exponents; with big false numbers must fit a float64. */
  predicate Good(v: Json, big: bool) {
    match v
    case Word(text) => text == NULL || text == TRUE || text == FALSE
    case Number(_, whole, decimals) =>
      && whole != [] && AllDigits(whole) && AllDigits(decimals)
      && (|whole| > 1 ==> whole[0] != ZERO)
      && (big || Decimal.Value(whole) < FLOAT64_LIMIT)
    case Str(chars) => GoodChars(chars)
    case Group(braces, gap, items) => Blank(gap) && GoodItems(items, braces, big)
  }

  predicate GoodItems(items: Items, braces: bool, big: bool) {
    match items
    case NoItems => true
    case Item(lead, value, after, rest) =>
      GoodLabel(lead, braces) && Good(value, big) && Blank(after) && GoodItems(rest, braces, big)
  }

  // ---- its end is found ----

  lemma {:induction false} CharsEnd(cs: seq<Char>, t: bytes)
    requires GoodChars(cs)
    ensures StringRest(CharsText(cs) + ([QUOTE] + t)) == Match(t)
    decreases |cs|
  {
    hide StringRest, CharText;
    var tail := [QUOTE] + t;
    if cs == [] {
      assert CharsText(cs) + tail == tail;
      QuoteEnds(t);
    } else {
      CharsEnd(cs[1..], t);
      Associate(CharText(cs[0]), CharsText(cs[1..]), tail);
      CharStep(cs[0], CharsText(cs[1..]) + tail);
    }
  }

  lemma QuoteEnds(t: bytes)
    ensures StringRest([QUOTE] + t) == Match(t)
  {
    assert ([QUOTE] + t)[1..] == t;
  }

  lemma CharStep(c: Char, t: bytes)
    requires GoodChar(c)
    ensures StringRest(CharText(c) + t) == StringRest(t)
  {
    var u := CharText(c) + t;
    match c {
      case Raw(_) => assert u[1..] == t;
      case Short(_) => assert u[2..] == t;
      case Unit(digits) =>
        assert u[2..] == digits + t;
        assert u[6..] == t;
    }
  }

  lemma {:induction false} DigitsEnd(d: bytes, t: bytes)
    requires AllDigits(d) && (t == [] || !IsDigit(t[0]))
    ensures SkipDigits(d + t) == t
    decreases |d|
  {
    if d == [] {
      assert d + t == t;
    } else {
      assert (d + t)[1..] == d[1..] + t;
      DigitsEnd(d[1..], t);
    }
  }

  lemma FractionEnd(decimals: bytes, t: bytes)
    requires AllDigits(decimals) && t != [] && EndsNumber(t[0])
    ensures FractionRest((if decimals == [] then [] else [DOT] + decimals) + t) == Match(t)
  {
    if decimals == [] {
      assert [] + t == t;
    } else {
      var u := [DOT] + decimals + t;
      assert u[1..] == decimals + t;
      DigitsEnd(decimals, t);
    }
  }

  /** A number ends before what may follow it, and its size is that of its integer part. */
  lemma NumberEnd(whole: bytes, decimals: bytes, t: bytes)
    requires whole != [] && AllDigits(whole) && AllDigits(decimals) && (|whole| > 1 ==> whole[0] != ZERO)
    requires t != [] && EndsNumber(t[0])
    ensures var u := whole + ((if decimals == [] then [] else [DOT] + decimals) + t);
      UnsignedRest(u) == Match(t) && IntegerRest(u).Match? && IntegerPart(u) == whole && Unsigned(u) == u
  {
    hide SkipDigits, FractionRest, IntegerRest;
    var f := (if decimals == [] then [] else [DOT] + decimals) + t;
    FractionEnd(decimals, t);
    assert f[0] == if decimals == [] then t[0] else DOT;
    IntegerEnd(whole, f);
  }

  lemma IntegerEnd(whole: bytes, f: bytes)
    requires whole != [] && AllDigits(whole) && (|whole| > 1 ==> whole[0] != ZERO) && f != [] && !IsDigit(f[0])
    ensures IntegerRest(whole + f) == Match(f) && IntegerPart(whole + f) == whole
  {
    hide SkipDigits;
    var u := whole + f;
    assert u[1..] == whole[1..] + f;
    DigitsEnd(whole[1..], f);
    assert u[..|whole|] == whole;
    if whole[0] == ZERO {
      assert whole[1..] == [] && [] + f == f;
    }
  }

  lemma ScalarEnd(v: Json, t: bytes, big: bool)
    requires Good(v, big) && !v.Group? && (v.Number? ==> t != [] && EndsNumber(t[0]))
    ensures Text(v) != [] && !IsSpace(Text(v)[0]) && ScalarRest(Text(v) + t, Rfc(big)) == Match(t)
    ensures Text(v)[0] != LBRACKET && Text(v)[0] != LBRACE
  {
    hide ScalarRest, Text, Decimal.Value;
    match v {
      case Word(_) => WordEnd(v, t, big);
      case Str(_) => StrEnd(v, t, big);
      case Number(_, _, _) => NumEnd(v, t, big);
    }
  }

  lemma WordEnd(v: Json, t: bytes, big: bool)
    requires v.Word? && Good(v, big)
    ensures Text(v) != [] && !IsSpace(Text(v)[0]) && ScalarRest(Text(v) + t, Rfc(big)) == Match(t)
    ensures Text(v)[0] != LBRACKET && Text(v)[0] != LBRACE
  {
    hide StringRest, NumberRest;
    assert (v.text + t)[..|v.text|] == v.text && (v.text + t)[|v.text|..] == t;
  }

  lemma StrEnd(v: Json, t: bytes, big: bool)
    requires v.Str? && Good(v, big)
    ensures Text(v) != [] && Text(v)[0] == QUOTE && ScalarRest(Text(v) + t, Rfc(big)) == Match(t)
  {
    hide StringRest, NumberRest, CharsText;
    var body := CharsText(v.chars);
    assert ([QUOTE] + (body + [QUOTE]) + t)[1..] == body + ([QUOTE] + t);
    CharsEnd(v.chars, t);
  }

  lemma NumEnd(v: Json, t: bytes, big: bool)
    requires v.Number? && Good(v, big) && t != [] && EndsNumber(t[0])
    ensures Text(v) != [] && (Text(v)[0] == MINUS || IsDigit(Text(v)[0])) && ScalarRest(Text(v) + t, Rfc(big)) == Match(t)
  {
    hide StringRest, UnsignedRest, IntegerRest, Decimal.Value, ScalarRest, TooBig, NumberRest;
    var sign, frac := if v.negative then [MINUS] else [], if v.decimals == [] then [] else [DOT] + v.decimals;
    var u := v.whole + (frac + t);
    NumberEnd(v.whole, v.decimals, t);
    Associate(v.whole, frac, t);
    Associate(sign, v.whole + frac, t);
    SignedText(sign, u);
    NotTooBig(u, v.whole);
    ScalarNumber(sign + u, u, big);
  }

  lemma NotTooBig(u: bytes, whole: bytes)
    requires IntegerRest(u).Match? && IntegerPart(u) == whole && AllDigits(whole)
    ensures TooBig(u, FLOAT64_LIMIT) <==> Decimal.Value(whole) >= FLOAT64_LIMIT
  {
    hide IntegerRest, Decimal.Value;
  }

  lemma ScalarNumber(t: bytes, u: bytes, big: bool)
    requires t != [] && (t[0] == MINUS || IsDigit(t[0])) && Unsigned(t) == u && (big || !TooBig(u, FLOAT64_LIMIT))
    ensures ScalarRest(t, Rfc(big)) == UnsignedRest(u)
  {
    hide UnsignedRest, TooBig;
  }

  lemma SignedText(sign: bytes, u: bytes)
    requires (sign == [MINUS] || sign == []) && u != [] && u[0] != MINUS
    ensures Unsigned(sign + u) == u
  {
    assert [] + u == u && ([MINUS] + u)[1..] == u;
  }

  lemma TrimBlank(a: bytes, t: bytes)
    requires Blank(a)
    ensures Trim(a + t) == Trim(t)
    ensures t != [] && !IsSpace(t[0]) ==> Trim(a + t) == t
  {
    TrimPrefix(a, t);
  }

  lemma LabelEnd(l: Label, t: bytes, big: bool)
    requires GoodLabel(l, true)
    ensures KeyRest(LabelText(l) + t, Rfc(big)) == Match(t)
  {
    hide StringRest, CharsText, Trim;
    var name := CharsText(l.name);
    var w := [COLON] + t;
    var s := l.b + w;
    var q := name + ([QUOTE] + s);
    var u := [QUOTE] + q;
    LabelParts(l.a, name, l.b, t);
    TrimBlank(l.a, u);
    assert u[1..] == q;
    CharsEnd(l.name, s);
    TrimBlank(l.b, w);
    assert w[1..] == t;
  }

  lemma LabelParts(a: bytes, name: bytes, b: bytes, t: bytes)
    ensures (a + ([QUOTE] + (name + ([QUOTE] + (b + [COLON]))))) + t == a + ([QUOTE] + (name + ([QUOTE] + (b + ([COLON] + t)))))
  {
    var x := b + [COLON];
    Associate(b, [COLON], t);
    Associate([QUOTE], x, t);
    Associate(name, [QUOTE] + x, t);
    Associate([QUOTE], name + ([QUOTE] + x), t);
    Associate(a, [QUOTE] + (name + ([QUOTE] + x)), t);
  }

  /** What follows a number in a group ends it. */
  predicate CanFollow(v: Json, t: bytes) {
    v.Number? ==> t != [] && EndsNumber(t[0])
  }

  /** The grammar function accepts the text of every well-formed tree, after any white space, and stops at its end. */
  lemma {:induction false} TreeEnd(v: Json, gap: bytes, t: bytes, big: bool)
    requires Good(v, big) && Blank(gap) && CanFollow(v, t)
    ensures ValueRest(gap + (Text(v) + t), Rfc(big)) == Match(t)
    decreases v, 0
  {
    hide ScalarRest, GroupRest, Trim, ItemsText;
    var u := Text(v) + t;
    if v.Group? {
      var body := if v.items.NoItems? then v.gap else ItemsText(v.items);
      assert u[0] == Opening(v.braces);
      TrimBlank(gap, u);
      GroupParts(v.braces, body, t);
      GroupEnd(v.braces, v.gap, v.items, t, big);
    } else {
      ScalarEnd(v, t, big);
      TrimBlank(gap, u);
    }
  }

  lemma GroupParts(braces: bool, body: bytes, t: bytes)
    ensures ([Opening(braces)] + (body + [Closing(braces)]) + t)[1..] == body + ([Closing(braces)] + t)
  {
  }

  lemma {:induction false} GroupEnd(braces: bool, gap: bytes, items: Items, t: bytes, big: bool)
    requires Blank(gap) && GoodItems(items, braces, big)
    ensures GroupRest((if items.NoItems? then gap else ItemsText(items)) + ([Closing(braces)] + t), braces, Rfc(big)) == Match(t)
    decreases items, 2
  {
    hide ItemsRest, Trim, ItemsText;
    var close := [Closing(braces)] + t;
    if items.NoItems? {
      TrimBlank(gap, close);
      assert close[1..] == t;
    } else {
      ItemsEnd(items, braces, t, big);
      FirstItem(items, braces, close, big);
    }
  }

  /** The text of an item does not start like a closing bracket. */
  lemma FirstItem(items: Items, braces: bool, t: bytes, big: bool)
    requires items.Item? && GoodItems(items, braces, big)
    ensures var u := Trim(ItemsText(items) + t); u != [] && u[0] != Closing(braces)
  {
    hide Trim, CharsText, Text;
    var u := Text(items.value) + (items.after + (if items.rest.NoItems? then [] else [COMMA] + ItemsText(items.rest))) + t;
    TextStarts(items.value, big);
    Associate(LabelText(items.lead), u[..|u| - |t|], t);
    assert u[..|u| - |t|] + t == u;
    LabelStarts(items.lead, braces, u);
  }

  lemma LabelStarts(l: Label, braces: bool, u: bytes)
    requires GoodLabel(l, braces) && u != [] && !IsSpace(u[0])
    ensures Trim(LabelText(l) + u) != [] && Trim(LabelText(l) + u)[0] == if braces then QUOTE else u[0]
  {
    hide Trim, CharsText;
    if braces {
      LabelParts(l.a, CharsText(l.name), l.b, u);
      TrimBlank(l.a, [QUOTE] + (CharsText(l.name) + ([QUOTE] + (l.b + ([COLON] + u)))));
    } else {
      TrimBlank(l.a, u);
    }
  }

  lemma TextStarts(v: Json, big: bool)
    requires Good(v, big)
    ensures Text(v) != [] && !IsSpace(Text(v)[0]) && Text(v)[0] != RBRACKET && Text(v)[0] != RBRACE
  {
    hide ItemsText, CharsText, Decimal.Value;
  }

  lemma {:induction false} ItemsEnd(items: Items, braces: bool, t: bytes, big: bool)
    requires items.Item? && GoodItems(items, braces, big)
    ensures ItemsRest(ItemsText(items) + ([Closing(braces)] + t), braces, Rfc(big)) == Match(t)
    decreases items, 1
  {
    hide KeyRest, ValueRest, Trim, Text, LabelText;
    var close := [Closing(braces)] + t;
    var next := if items.rest.NoItems? then close else [COMMA] + (ItemsText(items.rest) + close);
    var w := items.after + next;
    var u := Text(items.value) + w;
    ItemParts(items, close);
    FollowsItem(items.after, next);
    TrimBlank(items.after, next);
    assert next[1..] == if items.rest.NoItems? then t else ItemsText(items.rest) + close;
    if braces {
      LabelEnd(items.lead, u, big);
      assert [] + u == u;
      TreeEnd(items.value, [], w, big);
    } else {
      SpaceLabel(items.lead);
      TreeEnd(items.value, items.lead.a, w, big);
    }
    if items.rest.Item? {
      ItemsEnd(items.rest, braces, t, big);
    }
  }

  lemma SpaceLabel(l: Label)
    requires l.Space?
    ensures LabelText(l) == l.a
  {
  }

  lemma FollowsItem(after: bytes, next: bytes)
    requires Blank(after) && next != [] && EndsNumber(next[0])
    ensures after + next != [] && EndsNumber((after + next)[0])
  {
  }

  lemma ItemParts(items: Items, close: bytes)
    requires items.Item?
    ensures ItemsText(items) + close ==
      LabelText(items.lead) + (Text(items.value) + (items.after +
        (if items.rest.NoItems? then close else [COMMA] + (ItemsText(items.rest) + close))))
  {
    hide LabelText, Text;
    var more := if items.rest.NoItems? then [] else [COMMA] + ItemsText(items.rest);
    Associate(LabelText(items.lead), Text(items.value) + (items.after + more), close);
    Associate(Text(items.value), items.after + more, close);
    Associate(items.after, more, close);
    if items.rest.NoItems? {
      assert [] + close == close;
    } else {
      Associate([COMMA], ItemsText(items.rest), close);
    }
  }

  /**
   Both skippers stop right after every array and every object: the validating one follows the
   grammar, and the bracket count of the other ends at the same byte.
   */
  lemma SkippersAgree(v: Json, t: bytes, big: bool)
    requires v.Group? && Good(v, big)
    ensures ValueRest(Text(v) + t, Rfc(big)) == Match(t)
    ensures (Text(v) + t)[0] == Opening(v.braces) && Brackets((Text(v) + t)[1..], 1, v.braces) == Match(t)
  {
    hide Text, ValueRest, GroupRest, Brackets, Trim;
    assert [] + (Text(v) + t) == Text(v) + t;
    TreeEnd(v, [], t, big);
    GroupStarts(v, t, big);
    CountFindsEnd((Text(v) + t)[1..], v.braces, Rfc(big));
  }

  lemma GroupStarts(v: Json, t: bytes, big: bool)
    requires v.Group?
    ensures Text(v) != [] && (Text(v) + t)[0] == Opening(v.braces)
    ensures ValueRest(Text(v) + t, Rfc(big)) == GroupRest((Text(v) + t)[1..], v.braces, Rfc(big))
  {
    hide GroupRest, ScalarRest, ItemsText;
  }

  /**
   Both builds on the text of an array or an object followed by anything: for every cutting into reads each
   of them stops right after the value and reports no error. Numbers must fit a float64 here; a single
   buffer needs no such limit.
   */
  method SkipBoth(v: Json, t: bytes, strictReads: seq<bytes>, sloppyReads: seq<bytes>, size: nat, odd: bytes -> bool)
    returns (strict: Iterator, sloppy: Iterator)
    requires v.Group? && Good(v, false) && Flat(strictReads) == Flat(sloppyReads) == Text(v) + t
    requires forall i :: 0 <= i < |strictReads| ==> |strictReads[i]| <= size
    requires forall i :: 0 <= i < |sloppyReads| ==> |sloppyReads[i]| <= size
    ensures strict.Valid() && strict.error.NoError? && strict.Rest() == t
    ensures sloppy.Valid() && sloppy.error.NoError? && sloppy.Rest() == t
  {
    hide Text, Good, ValueRest, SkipStrict.Outcome, AfterToken;
    assert [] + (Text(v) + t) == Text(v) + t;
    TreeEnd(v, [], t, false);
    LooserIsGood(v);
    TreeEnd(v, [], t, true);
    strict := new Iterator.Parse(strictReads, size, EndOfInput);
    SkipStrict.Skip(strict, odd);
    SkipStrict.OutcomeOf(strict, ValueRest(Text(v) + t, Rfc(false)), ValueRest(Text(v) + t, Lenient));
    sloppy := new Iterator.Parse(sloppyReads, size, EndOfInput);
    SkipSloppy.Skip(sloppy, odd);
  }

  lemma {:induction false} LooserIsGood(v: Json)
    requires Good(v, false)
    ensures Good(v, true)
    decreases v
  {
    if v.Group? {
      LooserAreGood(v.items, v.braces);
    }
  }

  lemma {:induction false} LooserAreGood(items: Items, braces: bool)
    requires GoodItems(items, braces, false)
    ensures GoodItems(items, braces, true)
    decreases items
  {
    if items.Item? {
      LooserIsGood(items.value);
      LooserAreGood(items.rest, braces);
    }
  }

  /**
   Whatever array or object the validating build accepts, on any input, the bracket-counting build passes
   over as well, and stops at the same byte, however the input is cut for either.
   */
  method AcceptedByBoth(input: bytes, strictReads: seq<bytes>, sloppyReads: seq<bytes>, size: nat, odd: bytes -> bool)
    returns (strict: Iterator, sloppy: Iterator)
    requires Flat(strictReads) == Flat(sloppyReads) == input && SkipSloppy.OpensGroup(Trim(input))
    requires forall i :: 0 <= i < |strictReads| ==> |strictReads[i]| <= size
    requires forall i :: 0 <= i < |sloppyReads| ==> |sloppyReads[i]| <= size
    ensures strict.Valid() && sloppy.Valid()
    ensures strict.error.NoError? ==> sloppy.error.NoError? && sloppy.Rest() == strict.Rest()
  {
    hide ValueRest, GroupRest, Brackets, SkipStrict.Outcome, AfterToken, Trim;
    ghost var u := Trim(input);
    strict := new Iterator.Parse(strictReads, size, EndOfInput);
    SkipStrict.Skip(strict, odd);
    SkipStrict.OutcomeOf(strict, ValueRest(input, Rfc(false)), ValueRest(input, Lenient));
    SkipSloppy.ValueCases(input, Lenient);
    if GroupRest(u[1..], u[0] == LBRACE, Lenient).Match? {
      CountFindsEnd(u[1..], u[0] == LBRACE, Lenient);
    }
    sloppy := new Iterator.Parse(sloppyReads, size, EndOfInput);
    SkipSloppy.Skip(sloppy, odd);
  }

  /** Every number from the limit on is well-formed and out of range: the condition on sizes is not empty. */
  lemma OutOfRange(n: nat)
    ensures Good(Json.Number(false, Numeral(n), []), true)
    ensures Good(Json.Number(false, Numeral(n), []), false) <==> n < FLOAT64_LIMIT
  {
    hide Pow2, Numeral, Decimal.Value;
    NumeralValue(n);
    if n == 0 {
      ZeroNumeral();
    }
    assert AllDigits([]);
  }
}
