/** scanKey on a line that starts with a printed key. */
module PrintedKey {
  import opened Bytes
  import opened Escape
  import opened Scan
  import opened ScanKey
  import opened TagKeys
  import opened KeyRoundTrip
  import opened FieldRoundTrip

  /** A tag that survives in a line: key and value not empty, and neither ends with a backslash. */
  predicate GoodTag(t: Tag) {
    t.key != [] && t.value != [] && !Open(t.key) && !Open(t.value)
  }

  predicate GoodTags(tags: seq<Tag>) {
    forall i :: 0 <= i < |tags| ==> GoodTag(tags[i])
  }

  /** A name that survives: not empty, no leading tab or NUL, no trailing backslash. */
  predicate GoodName(name: bytes) {
    name != [] && name[0] != TAB && name[0] != NUL && !Open(name)
  }

  function Pairs(tags: seq<Tag>): (r: seq<bytes>)
    ensures |r| == |tags|
    ensures forall i :: 0 <= i < |tags| ==> r[i] == Pair(tags[i])
  {
    if tags == [] then [] else [Pair(tags[0])] + Pairs(tags[1..])
  }

  lemma {:induction false} JoinedCons(p: bytes, rest: seq<bytes>)
    ensures Joined([p] + rest) == [COMMA] + (p + Joined(rest))
  {
    if rest == [] {
      assert [p] + rest == [p] && [p][..0] == [];
    } else {
      var n := |rest| - 1;
      JoinedCons(p, rest[..n]);
      assert ([p] + rest)[..n + 1] == [p] + rest[..n];
      var last := [COMMA] + rest[n];
      assert [COMMA] + (p + Joined(rest[..n])) + last == [COMMA] + (p + (Joined(rest[..n]) + last));
    }
  }

  lemma {:induction false} HashKeyIsJoined(tags: seq<Tag>)
    requires AllValued(tags)
    ensures HashKey(tags) == Joined(Pairs(tags))
  {
    hide Pair;
    if tags != [] {
      HashKeyIsJoined(tags[1..]);
      JoinedCons(Pair(tags[0]), Pairs(tags[1..]));
      HashKeyBody(tags);
    }
  }

  // ---- one tag ----

  /** In a line that holds escaped text, the next bare stop is the delimiter after the text. */
  lemma StopInLine(buf: bytes, p: nat, s: bytes, codes: set<byte>)
    requires BACKSLASH !in codes && s != [] && !Open(s)
    requires var e := Escaped(s, codes); Holds(buf, p, e) && p + |e| < |buf| && buf[p + |e|] in codes
    ensures NextBare(buf, p + 1, codes) == p + |Escaped(s, codes)|
    ensures buf[p] !in codes
    ensures buf[p] == if s[0] in codes then BACKSLASH else s[0]
  {
    hide NextBare, Escaped;
    var e := Escaped(s, codes);
    EscapedHead(s, codes);
    HoldsAt(buf, p, e, 0);
    LastOf(s, codes);
    HoldsAt(buf, p, e, |e| - 1);
    forall j | p + 1 <= j < p + |e| ensures !IsBare(buf, j, codes) {
      HoldsAt(buf, p, e, j - p);
      HoldsAt(buf, p, e, j - p - 1);
      EscapedNotBare(s, codes, j - p);
    }
    NextBareIs(buf, p + 1, codes, p + |e|);
  }

  lemma PairKeyStep(buf: bytes, i: nat, key: bytes)
    requires key != [] && !Open(key) && Holds(buf, i, Escaped(key, TOKEN) + [EQUALS])
    ensures i <= |buf| && TagKeyStep(buf, i) == ToTagValue(i + |Escaped(key, TOKEN)| + 1)
  {
    hide NextBare, Escaped, Holds;
    var k := Escaped(key, TOKEN);
    HoldsParts(buf, i, k, [EQUALS]);
    HoldsAt(buf, i + |k|, [EQUALS], 0);
    StopInLine(buf, i, key, TOKEN);
    assert {SPACE, COMMA, EQUALS} == TOKEN;
  }

  lemma PairValueStep(buf: bytes, i: nat, value: bytes)
    requires value != [] && !Open(value) && Holds(buf, i, Escaped(value, TOKEN))
    requires var q := i + |Escaped(value, TOKEN)|; q < |buf| && (buf[q] == COMMA || buf[q] == SPACE)
    ensures var q := i + |Escaped(value, TOKEN)|;
      TagValueStep(buf, i) == if buf[q] == SPACE then ToFields(q) else ToTagKey(q + 1)
  {
    hide NextBare, Escaped, Holds;
    StopInLine(buf, i, value, TOKEN);
    assert {EQUALS, COMMA, SPACE} == TOKEN;
  }

  lemma PairStep(buf: bytes, i: nat, t: Tag)
    requires GoodTag(t) && Holds(buf, i, Pair(t)) && i + |Pair(t)| < |buf|
    requires buf[i + |Pair(t)|] == COMMA || buf[i + |Pair(t)|] == SPACE
    ensures var q := i + |Pair(t)|;
      TagStep(buf, i) == if buf[q] == SPACE then ToFields(q) else ToTagKey(q + 1)
  {
    hide Escaped, Holds, TagKeyStep, TagValueStep;
    var k, v := Escaped(t.key, TOKEN), Escaped(t.value, TOKEN);
    HoldsParts(buf, i, k + [EQUALS], v);
    PairKeyStep(buf, i, t.key);
    PairValueStep(buf, i + |k| + 1, t.value);
  }

  lemma PairText(buf: bytes, i: nat, t: Tag)
    requires GoodTag(t) && Holds(buf, i, Pair(t)) && i + |Pair(t)| < |buf|
    requires buf[i + |Pair(t)|] == COMMA || buf[i + |Pair(t)|] == SPACE
    ensures i < |buf| && TagText(buf, i) == Pair(t)
  {
    hide TagStep, Pair;
    PairStep(buf, i, t);
    OneTag(buf, i);
  }

  // ---- all tags ----

  /** The tags of a line, from the first key on. */
  lemma {:induction false} PrintedTags(buf: bytes, i: nat, tags: seq<Tag>)
    requires tags != [] && GoodTags(tags) && i >= 1
    requires Holds(buf, i - 1, Joined(Pairs(tags)))
    requires var q := i - 1 + |Joined(Pairs(tags))|; q < |buf| && buf[q] == SPACE
    ensures i <= |buf|
    ensures var r := TagsFrom(buf, i);
      r.Tags? && r.end == i - 1 + |Joined(Pairs(tags))| && Texts(buf, r.starts) == Pairs(tags)
    decreases |tags|
  {
    hide TagStep, Pair, Joined, TagText, Texts, Holds;
    var p, rest := Pair(tags[0]), Pairs(tags[1..]);
    JoinedCons(p, rest);
    HoldsParts(buf, i - 1, [COMMA], p + Joined(rest));
    HoldsParts(buf, i, p, Joined(rest));
    var q := i + |p|;
    if |tags| == 1 {
      NoneJoined(rest);
      PairStep(buf, i, tags[0]);
      PairText(buf, i, tags[0]);
      TextsOne(buf, i);
    } else {
      assert rest == [rest[0]] + rest[1..];
      JoinedCons(rest[0], rest[1..]);
      HoldsAt(buf, q, Joined(rest), 0);
      PairStep(buf, i, tags[0]);
      PairText(buf, i, tags[0]);
      PrintedTags(buf, q + 1, tags[1..]);
      TextsCons(buf, i, TagsFrom(buf, q + 1).starts);
    }
  }

  lemma NoneJoined(tags: seq<bytes>)
    requires tags == []
    ensures Joined(tags) == []
  {
  }

  lemma TextsOne(buf: bytes, i: nat)
    ensures Texts(buf, [i]) == [TagText(buf, i)]
  {
    assert [i][..0] == [];
  }

  lemma {:induction false} TextsCons(buf: bytes, i: nat, starts: seq<nat>)
    ensures Texts(buf, [i] + starts) == [TagText(buf, i)] + Texts(buf, starts)
  {
    hide TagText;
    if starts == [] {
      TextsOne(buf, i);
      assert [i] + starts == [i];
    } else {
      var n := |starts| - 1;
      TextsCons(buf, i, starts[..n]);
      assert ([i] + starts)[..n + 1] == [i] + starts[..n];
    }
  }

  // ---- the key ----

  lemma PrintedName(buf: bytes, u: bytes)
    requires GoodName(u) && var e := Escaped(u, NAME); Holds(buf, 0, e) && |e| < |buf| && buf[|e|] in NAME
    ensures SkipBlanks(buf, 0) == 0
    ensures var n := |Escaped(u, NAME)|;
      MeasurementStep(buf, 0) == if buf[n] == COMMA then ToTagKey(n + 1) else ToFields(n)
    ensures buf[..|Escaped(u, NAME)|] == Escaped(u, NAME)
  {
    hide NextBare, Escaped;
    StopInLine(buf, 0, u, NAME);
  }

  /**
   What scanKey makes of a printed key: the same name, and the same tags in the order of their escaped
   keys; it is refused when two are equal, and the scan panics when the tags fill the table.
   */
  lemma PrintedKeyScan(u: bytes, tags: seq<Tag>, rest: bytes)
    requires GoodName(u) && GoodTags(tags)
    ensures var key := Escaped(u, NAME) + HashKey(tags);
      KeyOfLine(key + ([SPACE] + rest), 0) ==
      if tags == [] then Key(|key|, key)
      else if IsTableSize(|tags|) then KeyPanic
      else OrderedKey(|key|, Escaped(u, NAME), Pairs(tags))
  {
    hide Escaped, Texts, OrderedKey, SkipBlanks, MeasurementStep, TagsFrom, IsTableSize, HashKey, Joined, Pair, Holds;
    var e := Escaped(u, NAME);
    var j := Joined(Pairs(tags));
    var key := e + HashKey(tags);
    var line := key + ([SPACE] + rest);
    HashKeyIsJoined(tags);
    LineParts(e, j, rest);
    if tags == [] {
      NoneJoined(Pairs(tags));
      PrintedName(line, u);
    } else {
      assert Pairs(tags) == [Pairs(tags)[0]] + Pairs(tags)[1..];
      JoinedCons(Pairs(tags)[0], Pairs(tags)[1..]);
      HoldsAt(line, |e|, j, 0);
      PrintedName(line, u);
      PrintedTags(line, |e| + 1, tags);
    }
  }

  lemma LineParts(e: bytes, j: bytes, rest: bytes)
    ensures var line := (e + j) + ([SPACE] + rest);
      Holds(line, 0, e) && Holds(line, |e|, j) && |e + j| < |line| && line[|e + j|] == SPACE
      && line[..|e + j|] == e + j
  {
    var line := (e + j) + ([SPACE] + rest);
    assert line[..|e|] == e && line[|e|..|e| + |j|] == j;
  }

  /** The texts of the tags can be read back from their joined text, so different lists join differently. */
  lemma JoinedInjective(a: seq<Tag>, b: seq<Tag>)
    requires GoodTags(a) && GoodTags(b) && a != [] && b != []
    requires Joined(Pairs(a)) == Joined(Pairs(b))
    ensures Pairs(a) == Pairs(b)
  {
    hide Joined, Pairs, Texts, TagsFrom;
    var buf := Joined(Pairs(a)) + [SPACE];
    assert buf[..|Joined(Pairs(a))|] == Joined(Pairs(a));
    PrintedTags(buf, 1, a);
    PrintedTags(buf, 1, b);
  }
}
