/** scanLine on printed points: where a line ends when it is read in a batch. */
module PrintedLines {
  import opened Bytes
  import opened Decimal
  import opened Times
  import opened Escape
  import opened Scan
  import opened TagKeys
  import opened KeyRoundTrip
  import opened PrintedKey
  import opened Fields
  import opened FieldRoundTrip
  import opened Points
  import opened PointRoundTrip
  import opened Lines
  import opened Batch

  /** What a point is made from. */
  datatype Source = Source(name: bytes, tags: seq<Tag>, fields: seq<Field>, time: Time)

  function PointFor(s: Source): Point {
    NewPoint(s.name, s.tags, s.fields, s.time)
  }

  function LineFor(s: Source): bytes {
    Print(PointFor(s))
  }

  /** The name that is printed: an escaped name is unescaped first. */
  function NameOf(s: Source): bytes {
    Unescaped(s.name, NAME)
  }

  predicate SafeTags(tags: seq<Tag>) {
    forall i :: 0 <= i < |tags| ==> PairSafe(tags[i].key, TOKEN) && PairSafe(tags[i].value, TOKEN)
  }

  /** A point that can be printed, and in which no backslash frees a special byte. */
  predicate GoodSource(s: Source, o: Options) {
    && Printable(s.name, s.tags, s.fields, s.time, o)
    && PairSafe(NameOf(s), NAME) && SafeTags(WithValues(s.tags))
  }

  /** No newline, but for one that a backslash takes along. */
  predicate OneLine(token: bytes) {
    token == [] ||
    (if token[0] == BACKSLASH then |token| == 1 || OneLine(token[2..]) else token[0] != NEWLINE && OneLine(token[1..]))
  }

  predicate OneLineTag(t: Tag) {
    OneLine(t.key) && OneLine(t.value)
  }

  predicate OneLineTags(tags: seq<Tag>) {
    forall i :: 0 <= i < |tags| ==> OneLineTag(tags[i])
  }

  predicate OneLineFields(fields: seq<Field>) {
    forall i :: 0 <= i < |fields| ==> OneLine(fields[i].key)
  }

  /** No newline outside the string values. */
  predicate OneLineSource(s: Source) {
    OneLine(NameOf(s)) && OneLineTags(WithValues(s.tags)) && OneLineFields(s.fields)
  }

  /** Without backslashes this is the absence of newlines. */
  lemma {:induction false} OneLinePlain(token: bytes)
    requires BACKSLASH !in token
    ensures OneLine(token) <==> NEWLINE !in token
  {
    if token != [] {
      OneLinePlain(token[1..]);
      assert token == [token[0]] + token[1..];
    }
  }

  /** The line of such a point looks like a comment. */
  predicate Commented(s: Source) {
    NameOf(s) != [] && NameOf(s)[0] == HASH
  }

  // ---- tokens ----

  lemma PassPair(buf: bytes, p: nat, st: LineState)
    requires p + 2 < |buf| && buf[p] == BACKSLASH
    ensures LineFrom(buf, p, st) == LineFrom(buf, p + 2, st)
  {
  }

  lemma PassByte(buf: bytes, p: nat, st: LineState)
    requires p < |buf| && buf[p] != BACKSLASH && buf[p] != SPACE && !st.quoted
    requires st.fields ==> buf[p] !in KEY_CODES
    ensures LineFrom(buf, p, st) == if buf[p] == NEWLINE then p else LineFrom(buf, p + 1, st)
  {
  }

  /** A token is passed over, or the line ends in it at a newline that stands by itself. */
  lemma {:induction false} TokenRun(buf: bytes, p: nat, t: bytes, codes: set<byte>, st: LineState)
    requires Holds(buf, p, Escaped(t, codes)) && p + |Escaped(t, codes)| < |buf| && PairSafe(t, codes) && !st.quoted
    requires SPACE in codes && NEWLINE !in codes && BACKSLASH !in codes && (st.fields ==> codes == KEY_CODES)
    ensures OneLine(t) ==> LineFrom(buf, p, st) == LineFrom(buf, p + |Escaped(t, codes)|, st)
    ensures !OneLine(t) ==> LineFrom(buf, p, st) < p + |Escaped(t, codes)|
    decreases |t|
  {
    hide LineFrom, Holds, Escaped;
    if t == [] {
      EscapedNothing(codes);
    } else {
      var head, rest := EscapedPair(t, codes);
      HoldsParts(buf, p, head, Escaped(rest, codes));
      HoldsAt(buf, p, head, 0);
      TokenRun(buf, p + |head|, rest, codes, st);
      if |head| == 2 {
        PassPair(buf, p, st);
      } else {
        PassByte(buf, p, st);
      }
    }
  }

  /** Inside quotes everything is passed over, newlines too. */
  lemma {:induction false} StringRun(buf: bytes, p: nat, s: bytes, st: LineState)
    requires Holds(buf, p, Escaped(s, STRING_CODES)) && p + |Escaped(s, STRING_CODES)| < |buf|
    requires st.quoted && st.fields
    ensures LineFrom(buf, p, st) == LineFrom(buf, p + |Escaped(s, STRING_CODES)|, st)
    decreases |s|
  {
    hide LineFrom, Holds;
    if s != [] {
      var head := if s[0] in STRING_CODES then [BACKSLASH, s[0]] else [s[0]];
      HoldsParts(buf, p, head, Escaped(s[1..], STRING_CODES));
      StringRun(buf, p + |head|, s[1..], st);
      HoldsAt(buf, p, head, 0);
      QuotedByte(buf, p, |head|, st);
    }
  }

  lemma QuotedByte(buf: bytes, p: nat, n: nat, st: LineState)
    requires p + n < |buf| && st.quoted && st.fields
    requires if n == 2 then buf[p] == BACKSLASH else n == 1 && buf[p] != BACKSLASH && buf[p] != QUOTE
    ensures LineFrom(buf, p, st) == LineFrom(buf, p + n, st)
  {
  }

  predicate Passed(b: byte) {
    b != COMMA && b != QUOTE && b != BACKSLASH && b != EQUALS && b != NEWLINE && b != SPACE
  }

  lemma {:induction false} PassedRun(buf: bytes, p: nat, q: nat, st: LineState)
    requires p <= q <= |buf| && forall n :: p <= n < q ==> Passed(buf[n])
    ensures LineFrom(buf, p, st) == LineFrom(buf, q, st)
    decreases q - p
  {
    if p < q {
      PassedRun(buf, p + 1, q, st);
    }
  }

  lemma PassedText(v: Value, o: Options)
    requires !v.Text? && ValueOk(v, o)
    ensures forall n :: 0 <= n < |ValueText(v)| ==> Passed(ValueText(v)[n])
  {
    match v {
      case Integer(i) => IntegerShape(i);
      case Unsigned(u) => NumeralValue(u);
      case Boolean(_) =>
      case Float(_, whole, decimals) =>
    }
  }

  lemma ValueRun(buf: bytes, p: nat, v: Value, n: nat, o: Options)
    requires Holds(buf, p, ValueText(v)) && ValueOk(v, o)
    ensures var st := LineState(false, true, n + 1, n); LineFrom(buf, p, st) == LineFrom(buf, p + |ValueText(v)|, st)
  {
    hide LineFrom, Escaped, Holds, ValueText, ValueOk;
    var st := LineState(false, true, n + 1, n);
    if v.Text? {
      var body := Escaped(v.s, STRING_CODES);
      QuotedText(v.s);
      HoldsParts(buf, p, [QUOTE], body + [QUOTE]);
      HoldsParts(buf, p + 1, body, [QUOTE]);
      AtQuote(buf, p, st);
      StringRun(buf, p + 1, v.s, st.(quoted := true));
      AtQuote(buf, p + 1 + |body|, st.(quoted := true));
    } else {
      PassedText(v, o);
      PassedAt(buf, p, ValueText(v));
      PassedRun(buf, p, p + |ValueText(v)|, st);
    }
  }

  lemma PassedAt(buf: bytes, p: nat, t: bytes)
    requires Holds(buf, p, t) && forall n :: 0 <= n < |t| ==> Passed(t[n])
    ensures p + |t| <= |buf| && forall n :: p <= n < p + |t| ==> Passed(buf[n])
  {
    forall n | p <= n < p + |t| ensures Passed(buf[n]) {
      HoldsAt(buf, p, t, n - p);
    }
  }

  lemma AtQuote(buf: bytes, p: nat, st: LineState)
    requires Holds(buf, p, [QUOTE]) && st.fields && st.equals > st.commas
    ensures p < |buf| && LineFrom(buf, p, st) == LineFrom(buf, p + 1, st.(quoted := !st.quoted))
  {
    HoldsAt(buf, p, [QUOTE], 0);
  }

  /** Outside the fields a delimiter is just passed over; in them it is counted. */
  lemma AtDelimiter(buf: bytes, p: nat, c: byte, st: LineState)
    requires Holds(buf, p, [c]) && (c == COMMA || c == EQUALS) && !st.quoted
    ensures p < |buf|
    ensures LineFrom(buf, p, st) == LineFrom(buf, p + 1,
      if !st.fields then st else if c == COMMA then st.(commas := st.commas + 1) else st.(equals := st.equals + 1))
  {
    HoldsAt(buf, p, [c], 0);
  }

  lemma AtSpace(buf: bytes, p: nat, st: LineState)
    requires Holds(buf, p, [SPACE])
    ensures p < |buf| && LineFrom(buf, p, st) == LineFrom(buf, p + 1, st.(fields := true))
  {
    HoldsAt(buf, p, [SPACE], 0);
  }

  // ---- the parts of a line ----

  lemma FieldRun(buf: bytes, p: nat, f: Field, n: nat, o: Options)
    requires Holds(buf, p, FieldText(f)) && ScanOk(f, o)
    ensures OneLine(f.key) ==>
      LineFrom(buf, p, LineState(false, true, n, n)) == LineFrom(buf, p + |FieldText(f)|, LineState(false, true, n + 1, n))
    ensures !OneLine(f.key) ==> LineFrom(buf, p, LineState(false, true, n, n)) < p + |FieldText(f)|
  {
    hide LineFrom, Escaped, Holds, ValueText, ValueOk, OneLine, PairSafe;
    var k, v := Escaped(f.key, KEY_CODES), ValueText(f.value);
    HoldsParts(buf, p, k, [EQUALS] + v);
    HoldsParts(buf, p + |k|, [EQUALS], v);
    TokenRun(buf, p, f.key, KEY_CODES, LineState(false, true, n, n));
    AtDelimiter(buf, p + |k|, EQUALS, LineState(false, true, n, n));
    ValueRun(buf, p + |k| + 1, f.value, n, o);
  }

  lemma OneLineFieldsCons(fields: seq<Field>)
    requires fields != []
    ensures OneLineFields(fields) <==> OneLine(fields[0].key) && OneLineFields(fields[1..])
  {
    hide OneLine;
    assert forall i :: 1 <= i < |fields| ==> fields[i] == fields[1..][i - 1];
  }

  lemma {:induction false} FieldsRun(buf: bytes, p: nat, fields: seq<Field>, n: nat, o: Options)
    requires fields != [] && Holds(buf, p, FieldsText(fields)) && forall i :: 0 <= i < |fields| ==> ScanOk(fields[i], o)
    ensures OneLineFields(fields) ==>
      LineFrom(buf, p, LineState(false, true, n, n)) ==
      LineFrom(buf, p + |FieldsText(fields)|, LineState(false, true, n + |fields|, n + |fields| - 1))
    ensures !OneLineFields(fields) ==> LineFrom(buf, p, LineState(false, true, n, n)) < p + |FieldsText(fields)|
    decreases |fields|
  {
    hide LineFrom, FieldText, FieldsText, Holds, ScanOk, OneLine, OneLineFields;
    FieldsTextCons(fields);
    OneLineFieldsCons(fields);
    var f := FieldText(fields[0]);
    if |fields| == 1 {
      FieldRun(buf, p, fields[0], n, o);
      NoFieldsOneLine(fields[1..]);
    } else {
      HoldsParts(buf, p, f, [COMMA] + FieldsText(fields[1..]));
      HoldsParts(buf, p + |f|, [COMMA], FieldsText(fields[1..]));
      FieldRun(buf, p, fields[0], n, o);
      AtDelimiter(buf, p + |f|, COMMA, LineState(false, true, n + 1, n));
      FieldsRun(buf, p + |f| + 1, fields[1..], n + 1, o);
    }
  }

  lemma NoFieldsOneLine(fields: seq<Field>)
    requires fields == []
    ensures OneLineFields(fields)
  {
  }

  lemma TagRun(buf: bytes, p: nat, t: Tag)
    requires Holds(buf, p, [COMMA] + Pair(t)) && p + 1 + |Pair(t)| < |buf|
    requires PairSafe(t.key, TOKEN) && PairSafe(t.value, TOKEN)
    ensures OneLineTag(t) ==> LineFrom(buf, p, FRESH) == LineFrom(buf, p + 1 + |Pair(t)|, FRESH)
    ensures !OneLineTag(t) ==> LineFrom(buf, p, FRESH) < p + 1 + |Pair(t)|
  {
    hide LineFrom, Escaped, Holds, OneLine, PairSafe;
    var k, v := Escaped(t.key, TOKEN), Escaped(t.value, TOKEN);
    HoldsParts(buf, p, [COMMA], Pair(t));
    HoldsParts(buf, p + 1, k + [EQUALS], v);
    HoldsParts(buf, p + 1, k, [EQUALS]);
    AtDelimiter(buf, p, COMMA, FRESH);
    TokenRun(buf, p + 1, t.key, TOKEN, FRESH);
    AtDelimiter(buf, p + 1 + |k|, EQUALS, FRESH);
    TokenRun(buf, p + 2 + |k|, t.value, TOKEN, FRESH);
  }

  lemma OneLineTagsCons(tags: seq<Tag>)
    requires tags != []
    ensures OneLineTags(tags) <==> OneLineTag(tags[0]) && OneLineTags(tags[1..])
  {
    hide OneLineTag;
    assert forall i :: 1 <= i < |tags| ==> tags[i] == tags[1..][i - 1];
  }

  lemma {:induction false} TagsRun(buf: bytes, p: nat, tags: seq<Tag>)
    requires Holds(buf, p, HashKey(tags)) && p + |HashKey(tags)| < |buf| && SafeTags(tags) && AllValued(tags)
    ensures OneLineTags(tags) ==> LineFrom(buf, p, FRESH) == LineFrom(buf, p + |HashKey(tags)|, FRESH)
    ensures !OneLineTags(tags) ==> LineFrom(buf, p, FRESH) < p + |HashKey(tags)|
    decreases |tags|
  {
    hide LineFrom, Pair, Holds, OneLineTag, PairSafe;
    if tags != [] {
      var t, rest := [COMMA] + Pair(tags[0]), HashKey(tags[1..]);
      OneLineTagsCons(tags);
      assert HashKey(tags) == t + rest;
      HoldsParts(buf, p, t, rest);
      TagRun(buf, p, tags[0]);
      TagsRun(buf, p + |t|, tags[1..]);
    }
  }

  lemma TimeRun(buf: bytes, p: nat, time: Time, st: LineState)
    requires GoodTime(time) && Holds(buf, p, TimeText(time)) && st.fields
    ensures LineFrom(buf, p, st) == LineFrom(buf, p + |TimeText(time)|, st)
  {
    hide LineFrom, FormatInt, Holds;
    if time.Nanos? {
      var t := FormatInt(time.ns);
      HoldsParts(buf, p, [SPACE], t);
      AtSpace(buf, p, st);
      IntegerShape(time.ns);
      PassedAt(buf, p + 1, t);
      PassedRun(buf, p + 1, p + 1 + |t|, st);
    }
  }

  lemma EndOfLine(buf: bytes, q: nat, st: LineState)
    requires q <= |buf| && (q == |buf| || buf[q] == NEWLINE) && !st.quoted
    ensures LineFrom(buf, q, st) == q
  {
  }

  function KeyFor(s: Source): bytes {
    Escaped(NameOf(s), NAME) + HashKey(WithValues(s.tags))
  }

  lemma KeyRun(buf: bytes, p: nat, s: Source)
    requires PairSafe(NameOf(s), NAME) && SafeTags(WithValues(s.tags))
    requires Holds(buf, p, KeyFor(s)) && p + |KeyFor(s)| < |buf|
    ensures var good := OneLine(NameOf(s)) && OneLineTags(WithValues(s.tags));
      if good then LineFrom(buf, p, FRESH) == LineFrom(buf, p + |KeyFor(s)|, FRESH)
      else LineFrom(buf, p, FRESH) < p + |KeyFor(s)|
  {
    hide LineFrom, Escaped, HashKey, Holds, OneLine, OneLineTags, WithValues, Unescaped, PairSafe, SafeTags;
    var u, tags := NameOf(s), WithValues(s.tags);
    HoldsParts(buf, p, Escaped(u, NAME), HashKey(tags));
    OnlyValuesPrinted(s.tags);
    TokenRun(buf, p, u, NAME, FRESH);
    TagsRun(buf, p + |Escaped(u, NAME)|, tags);
  }

  lemma RestRun(buf: bytes, p: nat, fields: seq<Field>, time: Time, o: Options)
    requires GoodFields(fields, o) && GoodTime(time)
    requires Holds(buf, p, FieldsText(fields) + TimeText(time))
    requires var q := p + |FieldsText(fields) + TimeText(time)|; q == |buf| || (q < |buf| && buf[q] == NEWLINE)
    ensures OneLineFields(fields) ==>
      LineFrom(buf, p, LineState(false, true, 0, 0)) == p + |FieldsText(fields) + TimeText(time)|
    ensures !OneLineFields(fields) ==> LineFrom(buf, p, LineState(false, true, 0, 0)) < p + |FieldsText(fields)|
  {
    hide LineFrom, FieldsText, Holds, OneLineFields, TimeText, GoodTime, ScanOk;
    var f, t := FieldsText(fields), TimeText(time);
    HoldsParts(buf, p, f, t);
    FieldsRun(buf, p, fields, 0, o);
    var st := LineState(false, true, |fields|, |fields| - 1);
    TimeRun(buf, p + |f|, time, st);
    EndOfLine(buf, p + |f| + |t|, st);
  }

  lemma HoldsMiddle(before: bytes, line: bytes, after: bytes)
    ensures var buf := before + (line + after);
      Holds(buf, |before|, line) && (after != [] ==> buf[|before| + |line|] == after[0])
      && (after == [] ==> |before| + |line| == |buf|)
  {
  }

  lemma LineForIs(s: Source)
    ensures LineFor(s) == KeyFor(s) + ([SPACE] + (FieldsText(s.fields) + TimeText(s.time)))
  {
    hide Escaped, HashKey, FieldsText, FormatInt, Unescaped, WithValues;
    MakeKeyIs(s.name, s.tags);
  }

  lemma LineRun(buf: bytes, p: nat, s: Source, o: Options)
    requires GoodSource(s, o)
    requires var line := KeyFor(s) + ([SPACE] + (FieldsText(s.fields) + TimeText(s.time)));
      Holds(buf, p, line) && var q := p + |line|; q == |buf| || (q < |buf| && buf[q] == NEWLINE)
    ensures OneLineSource(s) ==>
      LineFrom(buf, p, FRESH) == p + |KeyFor(s) + ([SPACE] + (FieldsText(s.fields) + TimeText(s.time)))|
    ensures !OneLineSource(s) ==> LineFrom(buf, p, FRESH) < p + |KeyFor(s)| + 1 + |FieldsText(s.fields)|
  {
    hide LineFrom, KeyFor, FieldsText, Holds, OneLine, OneLineTags, OneLineFields, TimeText, GoodSizes, SafeTags, PairSafe,
         GoodTime, GoodName, GoodTags, GoodFields, WithValues, Unescaped, MakeKey;
    var rest := FieldsText(s.fields) + TimeText(s.time);
    var n := |KeyFor(s)|;
    HoldsParts(buf, p, KeyFor(s), [SPACE] + rest);
    HoldsParts(buf, p + n, [SPACE], rest);
    KeyRun(buf, p, s);
    AtSpace(buf, p + n, FRESH);
    RestRun(buf, p + n + 1, s.fields, s.time, o);
  }

  /** How far a printed point is read: to its end, or not even to the end of its fields. */
  lemma PrintedLineAt(s: Source, before: bytes, after: bytes, o: Options)
    requires GoodSource(s, o) && (after == [] || after[0] == NEWLINE)
    ensures OneLineSource(s) ==> ReadsTo(before, LineFor(s), after)
    ensures !OneLineSource(s) ==>
      LineFrom(before + (LineFor(s) + after), |before|, FRESH) < |before| + |KeyFor(s)| + 1 + |FieldsText(s.fields)|
  {
    hide LineFrom, KeyFor, FieldsText, Holds, TimeText, OneLineSource, GoodSource, LineFor;
    LineForIs(s);
    HoldsMiddle(before, LineFor(s), after);
    LineRun(before + (LineFor(s) + after), |before|, s, o);
  }

  /**
   A printed point is read as one line wherever it stands, whatever its string values hold, if and only
   if its name, its tags and its field keys hold no newline (other than after a backslash).
   */
  lemma PrintedLine(s: Source, o: Options)
    requires GoodSource(s, o)
    ensures ReadsWhole(LineFor(s)) <==> OneLineSource(s)
  {
    hide ReadsTo, Printable, OneLineSource, GoodSource, LineFor, LineFrom, KeyFor;
    if OneLineSource(s) {
      forall before: bytes, after: bytes | after == [] || after[0] == NEWLINE
        ensures ReadsTo(before, LineFor(s), after)
      {
        PrintedLineAt(s, before, after, o);
      }
    } else {
      PrintedLineAt(s, [], [], o);
      LineForIs(s);
      CutShort(LineFor(s));
      assert !ReadsTo([], LineFor(s), []);
    }
  }

  lemma CutShort(line: bytes)
    requires LineFrom([] + (line + []), 0, FRESH) < |line|
    ensures !ReadsTo([], line, [])
  {
  }

  // ---- the first and the last byte ----

  lemma LastOfFields(fields: seq<Field>, o: Options)
    requires GoodFields(fields, o)
    ensures var f := FieldsText(fields); f != [] && f[|f| - 1] != NEWLINE
    decreases |fields|
  {
    hide ValueText, Escaped, ValueOk;
    var last := fields[|fields| - 1];
    LastOfValue(last.value, o);
    TextEnds(fields, o);
  }

  lemma {:induction false} TextEnds(fields: seq<Field>, o: Options)
    requires fields != [] && ValueText(fields[|fields| - 1].value) != []
    ensures var f, v := FieldsText(fields), ValueText(fields[|fields| - 1].value); f != [] && f[|f| - 1] == v[|v| - 1]
  {
    hide ValueText, Escaped;
    if |fields| > 1 {
      TextEnds(fields[1..], o);
    }
  }

  lemma LastOfValue(v: Value, o: Options)
    requires ValueOk(v, o)
    ensures var t := ValueText(v); t != [] && t[|t| - 1] != NEWLINE
  {
    hide FormatInt, Numeral, Escaped;
  }

  lemma LastOfTime(ns: int64)
    ensures var t := FormatInt(ns); t != [] && t[|t| - 1] != NEWLINE
  {
    hide FormatInt;
    IntegerShape(ns);
    var t := FormatInt(ns);
    if ns < 0 {
      assert t[|t| - 1] == t[1..][|t| - 2];
    }
  }

  lemma LineEnds(a: bytes, b: bytes)
    requires b != []
    ensures (a + b)[|a + b| - 1] == b[|b| - 1]
  {
  }

  /** A printed line is handed to the point parser as it is, but for a line that looks like a comment, which is passed over. */
  lemma WholeLine(s: Source, o: Options)
    requires GoodSource(s, o)
    ensures Skipped(LineFor(s)) <==> Commented(s)
    ensures !Skipped(LineFor(s)) ==> LineOf(LineFor(s)) == LineFor(s)
    ensures LineFor(s) != [] && LineFor(s)[0] == KeyFor(s)[0] && !IsBlank(KeyFor(s)[0])
  {
    hide KeyFor, FieldsText, FormatInt, LineFor, GoodSizes, GoodTags, GoodFields, PairSafe, SafeTags;
    LineForIs(s);
    KeyForStarts(s);
    var f, t := FieldsText(s.fields), TimeText(s.time);
    LastOfFields(s.fields, o);
    if s.time.Nanos? {
      LastOfTime(s.time.ns);
      LineEnds([SPACE], FormatInt(s.time.ns));
      LineEnds(f, t);
    } else {
      assert f + t == f;
    }
    LineEnds([SPACE], f + t);
    LineEnds(KeyFor(s), [SPACE] + (f + t));
    FirstShown(LineFor(s));
  }

  lemma KeyForStarts(s: Source)
    requires GoodName(NameOf(s))
    ensures var k := KeyFor(s); k != [] && !IsBlank(k[0])
    ensures KeyFor(s)[0] == if NameOf(s)[0] in NAME then BACKSLASH else NameOf(s)[0]
  {
    hide Escaped, HashKey, Unescaped, WithValues;
    EscapedHead(NameOf(s), NAME);
  }

  lemma FirstShown(line: bytes)
    requires line != [] && !IsBlank(line[0])
    ensures SkipBlanks(line, 0) == 0
  {
  }
}
