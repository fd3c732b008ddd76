/** Printing a point and parsing the line. */
module PointRoundTrip {
  import opened Bytes
  import opened Decimal
  import opened Times
  import opened Escape
  import opened Scan
  import opened TagOrder
  import opened ScanKey
  import opened TagKeys
  import opened KeyRoundTrip
  import opened PrintedKey
  import opened Fields
  import opened FieldRoundTrip
  import opened FieldWalk
  import opened Points

  /** NewPoint: the key from the name and the tags, the fields as text. */
  function NewPoint(name: bytes, tags: seq<Tag>, fields: seq<Field>, time: Time): Point {
    Point(MakeKey(name, tags), FieldsText(fields), time)
  }

  predicate GoodFields(fields: seq<Field>, o: Options) {
    && fields != []
    && fields[0].key != [] && fields[0].key[0] != TAB && fields[0].key[0] != NUL
    && forall i :: 0 <= i < |fields| ==> ScanOk(fields[i], o)
  }

  predicate GoodSizes(key: bytes, fields: seq<Field>) {
    && |key| <= MAX_KEY_LENGTH
    && forall i :: 0 <= i < |fields| ==> |Escaped(fields[i].key, KEY_CODES)| <= MAX_KEY_LENGTH - 4 - |key|
  }

  predicate GoodTime(t: Time) {
    t.Nanos? ==> Times.InRange(t.ns)
  }

  /** Tokens that stay in one piece in a line, sizes within the limits, and a supported time. */
  predicate Printable(name: bytes, tags: seq<Tag>, fields: seq<Field>, time: Time, o: Options) {
    && GoodName(Unescaped(name, NAME)) && GoodTags(WithValues(tags))
    && GoodFields(fields, o) && GoodSizes(MakeKey(name, tags), fields) && GoodTime(time)
  }

  /** The order the parser puts the tags in: by their escaped keys. */
  ghost predicate EscapedKeysRise(tags: seq<Tag>) {
    forall i, j :: 0 <= i < j < |tags| ==> Less(Escaped(tags[i].key, TOKEN), Escaped(tags[j].key, TOKEN))
  }

  predicate FillsTable(tags: seq<Tag>) {
    tags != [] && IsTableSize(|tags|)
  }

  lemma PairKey(t: Tag)
    requires GoodTag(t)
    ensures KeyOf(Pair(t)) == Escaped(t.key, TOKEN)
  {
    hide Escaped, NextBare;
    var k, v := Escaped(t.key, TOKEN), Escaped(t.value, TOKEN);
    Associate(k, [EQUALS], v);
    StopAfter(t.key, TOKEN, {EQUALS}, EQUALS, v);
  }

  lemma RisingPairs(tags: seq<Tag>)
    requires GoodTags(tags)
    ensures EscapedKeysRise(tags) <==> StrictlySorted(Pairs(tags))
  {
    hide Escaped, Pair, KeyOf;
    forall i | 0 <= i < |tags| ensures KeyOf(Pairs(tags)[i]) == Escaped(tags[i].key, TOKEN) {
      PairKey(tags[i]);
    }
  }

  // ---- fields and time ----

  lemma FieldsStart(fields: seq<Field>, o: Options)
    requires GoodFields(fields, o)
    ensures FieldsText(fields) != [] && !IsBlank(FieldsText(fields)[0])
  {
    hide ValueText;
    FieldsTextCons(fields);
    EscapedHead(fields[0].key, KEY_CODES);
  }

  lemma OneBlank(buf: bytes, p: nat)
    requires p + 1 < |buf| && buf[p] == SPACE && !IsBlank(buf[p + 1])
    ensures SkipBlanks(buf, p) == p + 1
  {
  }

  lemma {:induction false} StampRun(buf: bytes, start: nat, i: nat)
    requires start <= i <= |buf| && forall j :: i <= j < |buf| ==> IsDigit(buf[j])
    ensures StampFrom(buf, start, i) == StampEnd(|buf|)
    decreases |buf| - i
  {
    if i < |buf| {
      StampRun(buf, start, i + 1);
    }
  }

  /** A printed time at the end of a line is read back. */
  lemma PrintedTime(buf: bytes, p: nat, ns: int64, fallback: Time)
    requires Holds(buf, p, [SPACE] + FormatInt(ns)) && p + 1 + |FormatInt(ns)| == |buf| && Times.InRange(ns)
    ensures TimeOf(buf, p, fallback, "n") == TimeIs(Nanos(ns))
  {
    hide SkipBlanks, StampFrom, ParseInt, FormatInt, Holds;
    var t := FormatInt(ns);
    HoldsParts(buf, p, [SPACE], t);
    HoldsAt(buf, p, [SPACE], 0);
    HoldsAt(buf, p + 1, t, 0);
    IntegerShape(ns);
    OneBlank(buf, p);
    StampDigits(buf, p + 1, ns);
    HoldsSlice(buf, p + 1, t);
    FormatParse(ns);
    SafeCalcTimeExact(ns, "n");
  }

  lemma StampDigits(buf: bytes, p: nat, ns: int64)
    requires Holds(buf, p, FormatInt(ns)) && p + |FormatInt(ns)| == |buf|
    ensures StampFrom(buf, p, p) == StampEnd(|buf|)
  {
    hide FormatInt;
    var t := FormatInt(ns);
    IntegerShape(ns);
    if ns < 0 {
      HoldsParts(buf, p, [MINUS], t[1..]);
      HoldsAt(buf, p, [MINUS], 0);
      DigitsAt(buf, p + 1, t[1..]);
      StampRun(buf, p, p + 1);
    } else {
      DigitsAt(buf, p, t);
      StampRun(buf, p, p);
    }
  }

  lemma NoTime(buf: bytes, fallback: Time)
    ensures TimeOf(buf, |buf|, fallback, "n") == TimeIs(fallback)
  {
  }

  function TimeText(t: Time): bytes {
    if t.Zero? then [] else [SPACE] + FormatInt(t.ns)
  }

  /** What stands after the key: fields and time are read back as they were printed. */
  lemma PrintedRest(key: bytes, fields: seq<Field>, time: Time, fallback: Time, o: Options)
    requires key != [] && GoodFields(fields, o) && GoodSizes(key, fields) && GoodTime(time)
    ensures var f := FieldsText(fields);
      var buf := key + ([SPACE] + (f + TimeText(time)));
      RestOf(buf, |key|, key, fallback, "n", o) == Parsed(Point(key, f, if time.Zero? then fallback else time))
  {
    hide FieldsText, FieldsFrom, KeySizes, TimeOf, Escaped, TimeText, Holds, SkipBlanks, FieldOk, FormatInt;
    var f, t := FieldsText(fields), TimeText(time);
    var buf := key + ([SPACE] + (f + t));
    FieldsStart(fields, o);
    RestParts(key, f, t);
    OneBlank(buf, |key|);
    var start := |key| + 1;
    TimeTextShape(time);
    PrintedFieldsScan(buf, start, fields, 0, o);
    PrintedKeySizes(fields, MAX_KEY_LENGTH - 4 - |key|, o);
    if time.Zero? {
      NoTime(buf, fallback);
    } else {
      PrintedTime(buf, start + |f|, time.ns, fallback);
    }
  }

  lemma TimeTextShape(time: Time)
    ensures time.Zero? ==> TimeText(time) == []
    ensures time.Nanos? ==> TimeText(time) == [SPACE] + FormatInt(time.ns)
  {
  }

  lemma RestParts(key: bytes, f: bytes, t: bytes)
    ensures var buf := key + ([SPACE] + (f + t));
      && |buf| == |key| + 1 + |f| + |t| && buf[|key|] == SPACE
      && Holds(buf, |key| + 1, f) && Holds(buf, |key| + 1 + |f|, t)
      && buf[|key| + 1..|key| + 1 + |f|] == f
      && (f != [] ==> buf[|key| + 1] == f[0])
      && (t != [] ==> buf[|key| + 1 + |f|] == t[0])
  {
    var buf := key + ([SPACE] + (f + t));
    assert buf[|key| + 1..] == f + t;
    assert buf[|key| + 1 + |f|..|key| + 1 + |f| + |t|] == t;
    assert buf[|key| + 1..|key| + 1 + |f|] == f;
  }

  // ---- the key ----

  lemma MakeKeyIs(name: bytes, tags: seq<Tag>)
    ensures MakeKey(name, tags) == Escaped(Unescaped(name, NAME), NAME) + HashKey(WithValues(tags))
  {
    OnlyValuesPrinted(tags);
  }

  /** The key that is read is the key that was printed exactly when the escaped keys rise strictly. */
  lemma KeyReadBack(u: bytes, tags: seq<Tag>, rest: bytes)
    requires GoodName(u) && GoodTags(tags)
    ensures Escaped(u, NAME) + HashKey(tags) != []
    ensures var key := Escaped(u, NAME) + HashKey(tags);
      var k := KeyOfLine(key + ([SPACE] + rest), 0);
      (k == Key(|key|, key) <==> EscapedKeysRise(tags) && !FillsTable(tags)) && (k.Key? ==> k.pos == |key|)
  {
    hide Escaped, HashKey, KeyOfLine, OrderedKey, IsTableSize, Pairs, EscapedKeysRise;
    PrintedKeyScan(u, tags, rest);
    EscapedHead(u, NAME);
    var e := Escaped(u, NAME);
    var key := e + HashKey(tags);
    if tags == [] {
      NoTagsRise(tags);
    } else {
      HashKeyIsJoined(tags);
      OrderedReadBack(|key|, e, tags);
      OrderedEnd(|key|, e, Pairs(tags));
    }
  }

  lemma NoTagsRise(tags: seq<Tag>)
    requires tags == []
    ensures EscapedKeysRise(tags)
  {
  }

  lemma OrderedReadBack(n: nat, e: bytes, tags: seq<Tag>)
    requires GoodTags(tags) && tags != []
    ensures OrderedKey(n, e, Pairs(tags)) == Key(n, e + Joined(Pairs(tags))) <==> EscapedKeysRise(tags)
  {
    hide Escaped, Pairs, Joined, Pair, KeyOf;
    var pairs := Pairs(tags);
    RisingPairs(tags);
    if StrictlySorted(pairs) {
      SortedAlready(pairs);
    } else if DistinctKeys(pairs) {
      CanonicalOrder(pairs, pairs);
      if e + Joined(SortTags(pairs)) == e + Joined(pairs) {
        SameTail(e, Joined(SortTags(pairs)), Joined(pairs));
        SortedPairs(tags);
      }
    }
  }

  lemma SameTail(e: bytes, a: bytes, b: bytes)
    requires e + a == e + b
    ensures a == b
  {
    assert (e + a)[|e|..] == a && (e + b)[|e|..] == b;
  }

  /** Sorting the printed tags cannot give the same text unless they were in order. */
  lemma SortedPairs(tags: seq<Tag>)
    requires GoodTags(tags) && tags != [] && Joined(SortTags(Pairs(tags))) == Joined(Pairs(tags))
    ensures SortTags(Pairs(tags)) == Pairs(tags)
  {
    hide Joined, SortTags, Pairs;
    SortTagsSorts(Pairs(tags));
    SameElements(SortTags(Pairs(tags)), Pairs(tags));
    var sorted := Unpair(tags, SortTags(Pairs(tags)));
    JoinedInjective(sorted, tags);
  }

  lemma {:induction false} Unpair(tags: seq<Tag>, pairs: seq<bytes>) returns (r: seq<Tag>)
    requires GoodTags(tags) && forall i :: 0 <= i < |pairs| ==> pairs[i] in Pairs(tags)
    ensures GoodTags(r) && Pairs(r) == pairs && |r| == |pairs|
  {
    hide Pair, GoodTag;
    if pairs == [] {
      r := [];
    } else {
      var t := TagOf(tags, pairs[0]);
      var rest := Unpair(tags, pairs[1..]);
      r := [t] + rest;
      assert r[1..] == rest;
    }
  }

  lemma TagOf(tags: seq<Tag>, pair: bytes) returns (t: Tag)
    requires GoodTags(tags) && pair in Pairs(tags)
    ensures GoodTag(t) && Pair(t) == pair
  {
    hide Pair, GoodTag;
    var i :| 0 <= i < |tags| && Pairs(tags)[i] == pair;
    t := tags[i];
  }

  lemma SameElements(a: seq<bytes>, b: seq<bytes>)
    requires multiset(a) == multiset(b)
    ensures forall i :: 0 <= i < |a| ==> a[i] in b
  {
    forall i | 0 <= i < |a| ensures a[i] in b {
      assert a[i] in multiset(b);
    }
  }

  /** What parsing a printed point should give: the fallback stands in for a missing time. */
  function ReadPoint(name: bytes, tags: seq<Tag>, fields: seq<Field>, time: Time, fallback: Time): ParseResult {
    Parsed(NewPoint(name, tags, fields, if time.Zero? then fallback else time))
  }

  /** With tokens that stay in one piece, the point comes back exactly if the tags are in order and do not fill the table. */
  lemma OrderedPoint(name: bytes, tags: seq<Tag>, fields: seq<Field>, time: Time, fallback: Time, o: Options)
    requires Printable(name, tags, fields, time, o)
    ensures PointOf(Print(NewPoint(name, tags, fields, time)), fallback, "n", o) == ReadPoint(name, tags, fields, time, fallback)
       <==> EscapedKeysRise(WithValues(tags)) && !FillsTable(WithValues(tags))
  {
    hide KeyOfLine, RestOf, FieldsText, Escaped, HashKey, FillsTable, EscapedKeysRise, GoodName, GoodTags, GoodFields,
         FormatInt, MakeKey;
    var u, ts := Unescaped(name, NAME), WithValues(tags);
    var p := NewPoint(name, tags, fields, time);
    MakeKeyIs(name, tags);
    var rest := p.fields + TimeText(time);
    KeyReadBack(u, ts, rest);
    PrintedRest(p.key, fields, time, fallback, o);
    var k := KeyOfLine(Print(p), 0);
    if k.Key? && k.key != p.key {
      KeyCarries(Print(p), k.pos, k.key, fallback, o);
    }
  }

  lemma KeyCarries(buf: bytes, pos: nat, key: bytes, fallback: Time, o: Options)
    requires pos <= |buf|
    ensures var r := RestOf(buf, pos, key, fallback, "n", o); r.Parsed? ==> r.point.key == key
  {
    hide FieldsFrom, KeySizes, TimeOf, SkipBlanks;
  }

  // ---- which names and tags survive ----

  /** All that is known of tags whose key can be read back, but for the keys that are empty. */
  predicate Closed(t: Tag) {
    t.value != [] && !Open(t.key) && !Open(t.value)
  }

  lemma {:induction false} CleanAreClosed(tags: seq<Tag>)
    requires tags != [] && AllValued(tags) && CleanTags(tags)
    ensures Open(tags[|tags| - 1].value) || forall i :: 0 <= i < |tags| ==> Closed(tags[i])
  {
    if |tags| > 1 {
      CleanAreClosed(tags[1..]);
      assert forall i :: 1 <= i < |tags| ==> tags[i] == tags[1..][i - 1];
    }
  }

  /** A key with tags ends as the value of its last tag does. */
  lemma {:induction false} KeyEndsOpen(tags: seq<Tag>)
    requires tags != [] && AllValued(tags)
    ensures var h := HashKey(tags); h != [] && (Open(tags[|tags| - 1].value) ==> h[|h| - 1] == BACKSLASH)
  {
    hide Escaped;
    if |tags| == 1 {
      NoHashKey(tags[1..]);
      LastOf(tags[0].value, TOKEN);
    } else {
      KeyEndsOpen(tags[1..]);
    }
  }

  /** The scan of the tags fails at the first one without a key. */
  lemma {:induction false} EmptyKeyRefused(buf: bytes, i: nat, tags: seq<Tag>, n: nat)
    requires i >= 1 && n < |tags| && tags[n].key == [] && forall j :: 0 <= j < |tags| ==> Closed(tags[j])
    requires Holds(buf, i - 1, Joined(Pairs(tags)))
    ensures i <= |buf| && TagsFrom(buf, i).TagError?
    decreases |tags|
  {
    hide Pair, Joined, Holds, TagStep, TagsFrom;
    var p, rest := Pair(tags[0]), Pairs(tags[1..]);
    JoinedCons(p, rest);
    HoldsParts(buf, i - 1, [COMMA], p + Joined(rest));
    HoldsParts(buf, i, p, Joined(rest));
    if tags[0].key == [] {
      PairWithoutKey(tags[0]);
      HoldsAt(buf, i, p, 0);
      NoKeyHere(buf, i);
    } else {
      FirstComma(tags[1..]);
      HoldsAt(buf, i + |p|, Joined(rest), 0);
      PairStep(buf, i, tags[0]);
      EmptyKeyRefused(buf, i + |p| + 1, tags[1..], n - 1);
      ErrorAfter(buf, i);
    }
  }

  lemma PairWithoutKey(t: Tag)
    requires t.key == []
    ensures Pair(t) != [] && Pair(t)[0] == EQUALS
  {
    hide Escaped;
    EscapedNothing(TOKEN);
  }

  lemma NoKeyHere(buf: bytes, i: nat)
    requires i < |buf| && buf[i] == EQUALS
    ensures TagsFrom(buf, i).TagError?
  {
  }

  lemma ErrorAfter(buf: bytes, i: nat)
    requires i <= |buf| && TagStep(buf, i).ToTagKey? && TagsFrom(buf, TagStep(buf, i).next).TagError?
    ensures TagsFrom(buf, i).TagError?
  {
    hide TagStep;
  }

  /** A printed key that is read back byte for byte, and whose tokens can be read back, has good tokens only. */
  lemma ReadTokensGood(u: bytes, tags: seq<Tag>, rest: bytes)
    requires AllValued(tags) && CleanKey(u, tags)
    requires var key := Escaped(u, NAME) + HashKey(tags);
      var k := KeyOfLine(key + ([SPACE] + rest), 0); k.Key? && k.key == key
    ensures GoodName(u) && GoodTags(tags)
  {
    hide Escaped, HashKey, KeyOfLine, SkipBlanks, Open, CleanTags;
    var e, h := Escaped(u, NAME), HashKey(tags);
    var key := e + h;
    var line := key + ([SPACE] + rest);
    KeyShape(line);
    assert line[0] == key[0] && line[|key| - 1] == key[|key| - 1];
    assert SkipBlanks(line, 0) == 0;
    assert key[|key| - 1] != BACKSLASH;
    NameGood(u, tags);
    if tags != [] {
      TagsGood(u, tags, rest);
    }
  }

  lemma NameGood(u: bytes, tags: seq<Tag>)
    requires CleanKey(u, tags)
    requires var key := Escaped(u, NAME) + HashKey(tags); key != [] && !IsBlank(key[0]) && key[|key| - 1] != BACKSLASH
    ensures GoodName(u)
  {
    hide Escaped, CleanTags;
    if tags == [] {
      NoHashKey(tags);
      EscapedNothing(NAME);
      assert Escaped(u, NAME) + [] == Escaped(u, NAME);
      LastOf(u, NAME);
    }
    EscapedHead(u, NAME);
  }

  lemma TagsGood(u: bytes, tags: seq<Tag>, rest: bytes)
    requires GoodName(u) && tags != [] && AllValued(tags) && CleanTags(tags)
    requires var key := Escaped(u, NAME) + HashKey(tags);
      key[|key| - 1] != BACKSLASH && KeyOfLine(key + ([SPACE] + rest), 0).Key?
    ensures GoodTags(tags)
  {
    hide Escaped, HashKey, SkipBlanks, Open, CleanTags, Joined, Pairs, TagsFrom, Texts, OrderedKey, IsTableSize, MeasurementStep;
    var e, j := Escaped(u, NAME), Joined(Pairs(tags));
    var line := e + HashKey(tags) + ([SPACE] + rest);
    KeyEndsOpen(tags);
    CleanAreClosed(tags);
    HashKeyIsJoined(tags);
    LineParts(e, j, rest);
    FirstComma(tags);
    HoldsAt(line, |e|, j, 0);
    PrintedName(line, u);
    forall n | 0 <= n < |tags| ensures GoodTag(tags[n]) {
      if tags[n].key == [] {
        EmptyKeyRefused(line, |e| + 1, tags, n);
      }
    }
  }

  lemma FirstComma(tags: seq<Tag>)
    requires tags != []
    ensures var j := Joined(Pairs(tags)); j != [] && j[0] == COMMA
  {
    hide Joined, Pair;
    JoinedCons(Pairs(tags)[0], Pairs(tags)[1..]);
    assert Pairs(tags) == [Pairs(tags)[0]] + Pairs(tags)[1..];
  }

  lemma GoodAreClean(u: bytes, tags: seq<Tag>)
    requires GoodName(u) && GoodTags(tags)
    ensures CleanKey(u, tags)
  {
    GoodTagsClean(tags);
  }

  lemma {:induction false} GoodTagsClean(tags: seq<Tag>)
    requires GoodTags(tags)
    ensures CleanTags(tags)
  {
    if tags != [] {
      GoodTagsClean(tags[1..]);
    }
  }

  /**
   Printing a point, parsing the line and reading the name and the tags from its key gives everything
   back, for every name and every tags, if and only if the name is not empty, does not start with a tab
   or a NUL and does not end with a backslash, no tag with a value has an empty key or a part that ends
   with a backslash, the tags stand in the order of their escaped keys and do not fill the table.
   */
  lemma PointRoundTrip(name: bytes, tags: seq<Tag>, fields: seq<Field>, time: Time, fallback: Time, o: Options)
    requires GoodFields(fields, o) && GoodSizes(MakeKey(name, tags), fields) && GoodTime(time)
    ensures var u, ts := Unescaped(name, NAME), WithValues(tags);
      && PointOf(Print(NewPoint(name, tags, fields, time)), fallback, "n", o) == ReadPoint(name, tags, fields, time, fallback)
      && ParseKey(MakeKey(name, tags)) == (u, ts)
      <==> GoodName(u) && GoodTags(ts) && EscapedKeysRise(ts) && !FillsTable(ts)
  {
    hide PointOf, Print, ReadPoint, ParseKey, MakeKey, FillsTable, EscapedKeysRise, GoodName, GoodTags, GoodFields, GoodSizes,
         CleanKey, Unescaped, WithValues;
    var u, ts := Unescaped(name, NAME), WithValues(tags);
    KeyRoundTrip.KeyRoundTrip(name, tags);
    if GoodName(u) && GoodTags(ts) {
      GoodAreClean(u, ts);
      OrderedPoint(name, tags, fields, time, fallback, o);
    } else if CleanKey(u, ts) && PointOf(Print(NewPoint(name, tags, fields, time)), fallback, "n", o) == ReadPoint(name, tags, fields, time, fallback) {
      OnlyValuesPrinted(tags);
      ReadKey(name, tags, fields, time, fallback, o);
      ReadTokensGood(u, ts, FieldsText(fields) + TimeText(time));
    }
  }

  /** A point that is read back has the printed key as the key of its line. */
  lemma ReadKey(name: bytes, tags: seq<Tag>, fields: seq<Field>, time: Time, fallback: Time, o: Options)
    requires PointOf(Print(NewPoint(name, tags, fields, time)), fallback, "n", o) == ReadPoint(name, tags, fields, time, fallback)
    ensures var key := Escaped(Unescaped(name, NAME), NAME) + HashKey(WithValues(tags));
      var k := KeyOfLine(key + ([SPACE] + (FieldsText(fields) + TimeText(time))), 0); k.Key? && k.key == key
  {
    hide KeyOfLine, RestOf, FieldsText, Escaped, HashKey, FormatInt, MakeKey;
    var p := NewPoint(name, tags, fields, time);
    MakeKeyIs(name, tags);
    var k := KeyOfLine(Print(p), 0);
    KeyCarries(Print(p), k.pos, k.key, fallback, o);
  }

  const BLANK_TAGS: seq<Tag> := [Tag([97, SPACE], [120]), Tag([97, 33], [120])]

  lemma BlankEscaped()
    ensures Escaped([97, SPACE], TOKEN) == [97, BACKSLASH, SPACE] && Escaped([97, 33], TOKEN) == [97, 33]
  {
    EscapedNothing(TOKEN);
    EscapedAbsent([97, 33], TOKEN);
    assert [97, SPACE][1..] == [SPACE] && [SPACE][1..] == [];
    assert Escaped([SPACE], TOKEN) == [BACKSLASH, SPACE];
  }

  lemma BlankPairs()
    ensures Escaped([97, SPACE], TOKEN) == [97, BACKSLASH, SPACE] && Escaped([97, 33], TOKEN) == [97, 33]
    ensures HashKey(BLANK_TAGS) == [COMMA, 97, BACKSLASH, SPACE, EQUALS, 120, COMMA, 97, 33, EQUALS, 120]
  {
    hide HashKey, Escaped;
    BlankEscaped();
    EscapedAbsent([120], TOKEN);
    NoHashKey(BLANK_TAGS[2..]);
    HashKeyBody(BLANK_TAGS[1..]);
    HashKeyBody(BLANK_TAGS);
    assert BLANK_TAGS[1..][1..] == BLANK_TAGS[2..];
  }

  lemma BlankKeysFall()
    ensures Less(BLANK_TAGS[0].key, BLANK_TAGS[1].key) && !EscapedKeysRise(BLANK_TAGS)
  {
    hide Escaped;
    var a, b := Escaped(BLANK_TAGS[0].key, TOKEN), Escaped(BLANK_TAGS[1].key, TOKEN);
    BlankPairs();
    assert a[1..] == [BACKSLASH, SPACE] && b[1..] == [33];
    assert !Less(a, b);
    assert BLANK_TAGS[0].key[1..] == [SPACE] && BLANK_TAGS[1].key[1..] == [33];
  }

  /**
   Tags in the order of their plain keys, as NewTags leaves them, need not be in the order of their
   escaped keys: "a " is before "a!", but escaped it comes after, and the point is not read back.
   */
  lemma PlainOrderIsNotEnough(fallback: Time, o: Options)
    ensures Less(BLANK_TAGS[0].key, BLANK_TAGS[1].key)
    ensures var name, fields, time := [109], [Field([102], Boolean(true))], Nanos(1);
      && Printable(name, BLANK_TAGS, fields, time, o)
      && PointOf(Print(NewPoint(name, BLANK_TAGS, fields, time)), fallback, "n", o)
         != ReadPoint(name, BLANK_TAGS, fields, time, fallback)
  {
    hide PointOf, Print, EscapedKeysRise, HashKey;
    var name, fields, time := [109], [Field([102], Boolean(true))], Nanos(1);
    assert Unescaped(name, NAME) == name by { assert name[1..] == []; }
    assert BLANK_TAGS[1..][1..] == [];
    assert WithValues(BLANK_TAGS[1..]) == BLANK_TAGS[1..];
    assert WithValues(BLANK_TAGS) == BLANK_TAGS;
    EscapedAbsent(name, NAME);
    EscapedAbsent([102], KEY_CODES);
    BlankPairs();
    BlankKeysFall();
    PlainIsSafe([102], KEY_CODES);
    OrderedPoint(name, BLANK_TAGS, fields, time, fallback, o);
  }
}
